# A verified model of a small x86 kernel and two of its programs

The project models the parts of a teaching kernel (`student-distrib/`) that carry state across calls, the
line-matching program `grep` (`syscalls/`), and the blinking-text driver of the fish program (`fish/`), and
proves what they keep over every run. `dafny verify dfyconfig.toml` checks all of it.

| module | what it models |
|---|---|
| `Processes` | The scheduler and process machine as it is meant: three terminals, each with a stack of programs; ticks, execute, halt and terminal switches. Histories of events, and what every history keeps. |
| `KernelState` | The kernel's own tables (`pid_array`, the six PCBs, `scheduling_array`, `curr_pid`, `tss.esp0`) and their refinement of `Processes`, step by step and over whole runs. |
| `KernelLinks` | What else the tables keep over every run: child links, saved kernel stacks, active programs; what the process calls answer. |
| `Paging` | Page directory and tables under a page-walk function; the routines that write their entries. |
| `KernelCode` | The class whose methods are `sys_execute`, `sys_halt`, `schedule`, `switch_terminals` and `sys_vidmap`, proved against the functions of `KernelState` and the page walk. |
| `KernelRuns` | Whole histories handled by those methods one after the other, from the initial state. |
| `Screens` | Three 80x25 screens over one flat video memory: `putc`, scrolling, `clear`, `backspace`, `switch_terminals`. |
| `EditCursor` | A line edited on such a screen: the cursor although `term_x` may be negative. |
| `Keyboard`, `LineRuns` | The keyboard buffer, Enter, `terminal_read` and the history; whole runs of three lines under interleaved keys, reads and switches, carried out by the methods of the three buffers. |
| `TabCompletion` | TAB: the longest common prefix found from neighbouring matches only. |
| `FileSystem`, `Directory` | `read_data` and `file_read` against the file as one flat byte sequence; the two directory lookups of `sys_open`. |
| `Grep` | The refill-and-carry buffer against "split into lines, then filter". |
| `BlinkList`, `BlinkRuns` | The linked list threaded through a fixed pool, the countdown of each entry, and whole runs of driver calls carried out by the driver's methods, list and screen. |
| `MemOps`, `Numerals` | `memset`, `memcpy`, `memmove`; `itoa`, `strrev` and printf's number conversions. |
| `Bytes`, `Arith`, `Terminals` | Bytes, words, C strings; a few facts about division; the three terminals. |

## How to read the models

Code that updates state is a method over arrays or a class with the same fields; its `ensures` equates the new
state with a function of the old one, and the theorems are about that function and its runs. In the kernel model
a saved (ESP, EBP) pair is an opaque `Regs` value that each event brings along; restoring it is the outcome of
the step. Two circumstances are stated openly as `Processes.Allowed`: a program is started only after the three
boot ticks, and only while the running terminal is the one in view. The second is not a convenience:
`sys_execute` attaches the new program to `curr_term` (student-distrib/syscall.c:289-295), not to the running
terminal, and `KernelState.LaunchRepIff` shows that the tables stay sound exactly under these circumstances.

## Where the code differs from what it is meant to do

The code is modelled as it is. Where a promise fails, the condition under which it holds is proved:

- A program started from a terminal that is not in view is attached to the viewed one (`KernelState.LaunchRepIff`);
  already after the boot ticks terminal 2 runs while terminal 0 is in view (`KernelState.LaunchUnviewed`).
- The user window at 132 MB is right after every tick, but `switch_terminals` does not move it and the vidmap call
  always points it to the video page (`KernelCode.KernelCore.SwitchTerminals`, `KernelCode.KernelCore.Vidmap`). Three boot
  ticks and a switch to terminal 2 are enough (`KernelRuns.BootThenSwitch`).
- `backspace` lets the column run to -79 and from there jumps forward by 79 cells (`EditCursor.BackspaceLinearIff`), so
  the cursor keeps with a line exactly when the line begins at a column from 1 to 32 (`EditCursor.ColumnIff`).
- When no row of the history is free, the scan for the next draft slot goes on into the memory behind it, which is the
  next terminal's record: where the slot comes to lie then depends on that memory (`Keyboard.EnterPrivateIff`). With the
  slot out of the history no further line is saved, and the next move up writes the draft into that record
  (`Keyboard.SavedDraftPrivateIff`).
- Enter on an edited recalled line overwrites that line in the history (`Keyboard.EnterKeepsIff`).
- The completion loop reads one byte behind a 33-byte row when both names are 32 bytes long; the result does not depend on
  it (`TabCompletion.ComparePair`).
- A 127-character line and its newline fill the buffer without a terminator, so a read that asks for more than 128
  bytes also gets a byte of `buf_idx` (`Keyboard.FullBufferSeen`, `LineRuns.EnteredLineIsRead`).
- Backspace on an empty line writes the byte before the buffer (`Keyboard.TerminalLine.DeleteFromBuf`); a key without
  a letter inserts a NUL, after which `buf_idx` is not the string's length (`Keyboard.TerminalLine.AddToBuf`).
- `read_data` advances to the next word after every fourth byte read, not at word boundaries of the file
  (`FileSystem.ReadRightIff`, `FileSystem.MisalignedReadIsWrong`); it answers 0 when a read ends at the largest
  possible file size (`FileSystem.SoundReadable`).
- `file_read` does not stop at the end of the file (`FileSystem.ReadClipsIff`, `FileSystem.ReadPastEnd`).
- `grep` prints only the 1024-byte piece of a longer line in which it finds the pattern, and compares the first pattern
  byte as a signed char with an unsigned one. It is right for a pattern and a file exactly when every line that holds
  the pattern fits the buffer and the first byte is below 0x80 (`Grep.CorrectIff`).
- A blink entry added at location 0 takes a slot the allocator still regards as free (`BlinkList.InsertKeepsListIff`),
  so the runs of `BlinkRuns` are those without such an add;
  lengths of 0 or above 0x8000 do not blink as asked (`BlinkList.BlinksAsAskedIff`); a sync displays the off
  character whatever status it copies (`BlinkRuns.SyncFaithfulIff`, `BlinkRuns.StepRightIff`).
- The lookups of `sys_open` compare names differently, but never lead to different files
  (`Directory.LookUpTwice`).

## Model

| member | source | states |
|---|---|---|
| Processes.StepKeepsInv | student-distrib/syscall.c:72-308 | Every tick, execute, halt and switch keeps: each terminal's stack has its own shell at the bottom and distinct pids from 3 up above it, the three stacks are disjoint, and terminals boot in order. |
| Processes.FreshPid | student-distrib/syscall.c:221-232 | After boot a newly allocated pid is never that of a base shell. |
| Processes.HaltResumesCreator | student-distrib/syscall.c:89-128 | In every history, whatever ticks, nested executes and halts lie between, halting a child resumes its parent with exactly the registers recorded by the execute that last started that child. |
| Processes.TickResumesPreempted | student-distrib/schedule.c:103-207 | In every history after boot a tick resumes the next terminal with exactly the registers that the history shows at its last preemption. |
| Processes.AllRecorded | student-distrib/syscall.c:264-303 | Every frame of every stack holds the registers of the event that last started its program, found by searching the history alone. |
| Processes.AllSaved | student-distrib/schedule.c:103-120 | Every terminal that is not running is saved with the registers of the most recent tick that interrupted it. |
| Processes.RoundRobin | student-distrib/schedule.c:91-180 | Which terminal runs and which have booted depends on the number of ticks alone, in turn modulo 3. |
| KernelState.LaunchPushes | student-distrib/syscall.c:217-315 | From tables that represent the machine, after boot and with the running terminal in view, execute allocates the least free pid and gives tables that represent that pid pushed on the running terminal's stack. |
| KernelState.LaunchRepIff | student-distrib/syscall.c:287-308 | With a program running and a pid free, the tables after a launch represent some machine if and only if boot is over and the running terminal is the viewed one. |
| KernelState.LaunchUnviewed | student-distrib/syscall.c:287-295 | A reachable failing case: after the three boot ticks the running terminal 2, not in view, launches under pid 3, and the tables represent no machine any more. |
| KernelState.HaltPops | student-distrib/syscall.c:72-128 | Halting a program another one started delivers its value to the recorded register pair and gives tables that represent the stack without its top. |
| KernelState.HaltRestarts | student-distrib/syscall.c:72-86 | Halting a terminal's base shell starts a shell again under the same pid. |
| KernelState.TickDispatches | student-distrib/schedule.c:103-207 | A normal tick saves the running terminal's pair, resumes the next terminal with the pair saved for it, and the tables represent that. |
| KernelState.TickBoots | student-distrib/schedule.c:91-171 | Each of the first three ticks starts the shell of the next terminal under the terminal's number as pid. |
| KernelState.StepRefines | student-distrib/syscall.c:47-374 | One step of the tables is one step of the stack machine they represent, with the same outcome, for every allowed event. |
| KernelState.RunRefines | student-distrib/syscall.c:34-374 | From any initial tables, with PCBs holding garbage, every history of allowed events leaves tables that represent the machine of the same history. |
| KernelState.ChainEndsAtShell | student-distrib/syscall.c:287-301 | Following parent_pid from the top of terminal t's stack reaches shell t in exactly depth - 1 steps and never leaves the stack. |
| KernelState.OnOneTerminal | student-distrib/syscall.c:272-303 | Every pid on terminal t's chain has term_id t. |
| KernelState.ReachableTables | student-distrib/schedule.c:83-210 | After every history of a booted system: the three chains are sound and disjoint, a pid is USED if and only if it is on one of them, curr_pid is scheduling_array[scheduled_process] and tss.esp0 is the top of its kernel stack. |
| KernelLinks.ReachableLinks | student-distrib/syscall.c:264-303 | After every allowed history each program's child_pid is the program above it on its chain, its old_esp0 the top of the kernel stack below, its base_kernel_stack its own, and active_pid the top of the terminal's chain. |
| KernelLinks.ExecuteAnswers | student-distrib/syscall.c:139-237 | 0 for a bare newline; -1 exactly for a null pointer, for what is not executable, and when all six pids are used; otherwise the least unused pid starts; an answer changes no table. |
| KernelLinks.EnteredRuns | student-distrib/syscall.c:287-308 | Whatever starts a program leaves it on top of the running terminal's stack; a plain answer changes nothing. |
| KernelLinks.StartsOnEmptyStack | student-distrib/syscall.c:297-299 | A program that execute starts is first saved with its own empty kernel stack. |
| KernelLinks.ViewedIsLastSwitch | student-distrib/terminal.c:102-125 | The terminal in view is the one switched to last in the history, at first terminal 0. |
| KernelState.FirstUnusedIsLeast | student-distrib/syscall.c:221-232 | The scan of pid_array finds the least pid that is on no chain. |
| KernelState.PlacesDisjoint | student-distrib/paging.c:111-125 | The 4 MB frames and the 8 KB kernel stacks of distinct pids are disjoint, the stacks lie within 4-8 MB and the frames above it. |
| KernelState.MaskRoundsDown | student-distrib/syscall.c:631-645 | Masking ESP with 0xFFFFE000 gives base if and only if base is a multiple of 8 KB at most 8 KB - 1 below. |
| KernelState.MaskFindsPcb | student-distrib/syscall.c:631-655 | In 32-bit arithmetic, the masked ESP is the address get_pcb_from_pid computes if and only if ESP lies in that pid's kernel stack, strictly below its top. |
| KernelState.StackTopWord | student-distrib/syscall.c:615-616 | The 32-bit products for stack tops and pcb addresses of pids 0 to 5 do not wrap: they are those of the tables. |
| KernelCode.KernelCore.constructor | student-distrib/schedule.c:42-75 | init_paging, syscall_init and initial_boot leave initial tables, sound page tables, and the kernel's 4-8 MB mapped to itself. |
| KernelCode.KernelCore.AllocatePid | student-distrib/syscall.c:221-232 | Takes the first unused pid and marks only that one, or reports that there is none. |
| KernelCode.KernelCore.Install | student-distrib/syscall.c:256-315 | Filling in the pcb and the shell or child branch give exactly the tables of the specified launch. |
| KernelCode.KernelCore.Execute | student-distrib/syscall.c:139-374 | The tables after the call are those of the specification, with the same outcome; when a program starts, 128 MB maps to its frame; nothing else is mapped differently, and nothing at all on an error return. |
| KernelCode.KernelCore.Halt | student-distrib/syscall.c:47-128 | The tables and the outcome are those of the specification, and 128 MB maps to the frame of the program that goes on. |
| KernelCode.KernelCore.Schedule | student-distrib/schedule.c:83-210 | The tables and the outcome are those of the specification; after every tick 128 MB maps to the current pid's frame and the window at 132 MB to the page that holds the scheduled terminal's screen. |
| KernelCode.KernelCore.Dispatch | student-distrib/schedule.c:173-207 | The next terminal's pid becomes current with its kernel stack, its frame and its screen mapped, and its saved pair is resumed. |
| KernelCode.KernelCore.SwitchTerminals | student-distrib/terminal.c:102-130 | Only the viewed terminal changes; a window that was right stays right if and only if the running terminal's screen does not move. |
| KernelCode.KernelCore.Vidmap | student-distrib/syscall.c:548-566 | After the call the window shows the running terminal's screen if and only if that terminal is in view; the user program's mapping stays. |
| KernelRuns.Handle | student-distrib/schedule.c:83-210 | One kernel entry, run by the code: it takes tables that represent a machine to tables that represent its successor, with the machine's outcome; the program returned to is mapped, and a tick leaves the window right. |
| KernelRuns.Run | student-distrib/syscall.c:34-374 | From the initial state, for every history of allowed events: the code's tables represent the machine of that history and its outcomes are the machine's; the video pages translate to themselves, the running program's frame is at 128 MB, and after a tick the window's 4000 bytes are, in any video memory, those of the scheduled terminal's screen. |
| KernelRuns.ScreenPageIsBase | student-distrib/paging.c:151-203 | The page the window is pointed to is the one where the screen model keeps the terminal's screen. |
| KernelRuns.RightWindowShows | student-distrib/paging.c:151-203 | A right window translates its first 4000 bytes to the bytes of the scheduled terminal's screen. |
| KernelRuns.BootThenSwitch | student-distrib/terminal.c:102-130 | A reachable wrong window, by the code: after the three boot ticks a switch to terminal 2, which runs, leaves the window on the page its screen has left. |
| Paging.VideoReadyMeans | student-distrib/paging.c:14-60 | With the entries the kernel sets, the addresses 0xB8000 to 0xBBFFF translate to themselves under the page walk. |
| Paging.WindowUpdate | student-distrib/paging.c:151-203 | Rewriting the window's entries maps 132 MB to the chosen page and changes no translation outside the window. |
| Paging.MapsKept | student-distrib/paging.c:111-125 | A mapped region stays mapped under any update of a region apart from it. |
| Paging.Mmu.InitPaging | student-distrib/paging.c:14-88 | Whatever the tables held, the kernel's 4 MB and the video page translate to themselves and no other address is mapped. |
| Paging.OnlyKernel | student-distrib/paging.c:45-63 | Two directory entries and one page-table entry, all others absent, give exactly that translation under the page walk. |
| Paging.Mmu.MapUserProgram | student-distrib/paging.c:111-125 | 128-132 MB maps to frame pid + 2, and nothing outside is translated differently. |
| Paging.Mmu.SchedulingVidmap | student-distrib/paging.c:151-203 | The window maps to the video page for the viewed terminal and to the backing page otherwise; nothing outside changes. |
| Paging.Mmu.MapVidmem | student-distrib/paging.c:128-146 | The window maps to the video page; nothing outside changes. |
| Paging.Mmu.MapBackingPages | student-distrib/paging.c:207-215 | After vidmap_term for all three terminals the four video pages map to themselves. |
| Screens.SwitchKeepsScreens | student-distrib/terminal.c:102-130 | The two page copies change no terminal's screen, the one put away and the one brought up included. |
| Screens.WrittenScreen | student-distrib/lib.c:176-218 | Writing a terminal's screen in the flat memory gives exactly that screen and leaves the two others alone. |
| Screens.ApplyIsPrivate | student-distrib/lib.c:176-218 | One putc, clear, backspace or switch acts on its terminal as on a private screen, cursor included, and on the others not at all. |
| Screens.ScreensArePrivate | student-distrib/lib.c:176-218 | Over any interleaving of putc, clear, backspace and switches each terminal's cells and cursor are what its own operations alone make of a private screen. |
| Screens.NewlineMeans | student-distrib/lib.c:181-184 | A line feed or carriage return goes to column 0 of the next row and changes no cell; on the last row every cell moves up by one row and the last row is blank. |
| Screens.PrintMeans | student-distrib/lib.c:185-214 | Any other character fills exactly the cursor's cell on attribute 7 and moves on by a column, at the end of a row to the next, behind the last cell with everything moved up. |
| Screens.PrintLeftMeans | student-distrib/lib.c:185-201 | With a negative column the cell is the one that far before the row, and the column moves on. |
| Screens.ClearMeans | student-distrib/lib.c:20-31 | Clear leaves spaces on attribute 7 in all 25 x 80 cells and the cursor in the corner. |
| Screens.BackspaceMeans | student-distrib/lib.c:535-544 | Backspace empties exactly the cell before the cursor, or from column -79 the row's first cell, and stands there. |
| Screens.ScrolledMovesUp | student-distrib/lib.c:551-584 | After a scroll every cell is the one a row below, the last row spaces on attribute 7. |
| Screens.Display.VertScroll | student-distrib/lib.c:551-584 | In place, every row moves up by one and the last is blanked; no byte outside the screen's 4000 changes. |
| Screens.Display.Putc | student-distrib/lib.c:176-218 | The flat memory and cursors become those of the specification step for the terminal, viewed or not. |
| Screens.Display.ClearViewed | student-distrib/lib.c:20-31 | The viewed screen is blank with the cursor at the origin, the other screens are untouched. |
| Screens.Display.Erase | student-distrib/lib.c:535-544 | backspace with C's truncating remainder and quotient: column and cell as specified, the row never changes. |
| Screens.Display.SwitchTerminals | student-distrib/terminal.c:102-130 | With word-at-a-time copies on the shared memory the state becomes that of the specification step. |
| Screens.Display.TerminalWrite | student-distrib/terminal.c:66-93 | Printing a buffer equals the run of its bytes on the running terminal, NULs having no effect; returns nbytes or -1. |
| Screens.Performs | student-distrib/lib.c:176-218 | Any sequence of putc, clear, backspace and switches carried out by the code on the one video memory leaves each terminal's screen and cursor as its own operations leave a private screen. |
| EditCursor.TypeLinear | student-distrib/lib.c:176-218 | A printed character goes to the linear cursor, which moves on by one, or by one less a row when the screen scrolls. |
| EditCursor.BackspaceLinearIff | student-distrib/lib.c:535-544 | Backspace moves the linear cursor back by one if and only if term_x is not -79; there it goes 79 forward. |
| EditCursor.StepKeepsSession | student-distrib/keyboard.c:117-124 | Every key or backspace on a line begun at a column from 1 to 32 keeps the line on the screen with the cursor just behind it. |
| EditCursor.SessionShowsEdits | student-distrib/keyboard.c:244-249 | After any keys and backspaces, up to 127 characters and across scrolls, the screen shows exactly the edited line and the cursor stands at its origin plus its length. |
| EditCursor.ColumnIff | student-distrib/lib.c:535-544 | For lines begun at any column, the cursor stays with the line under all keys if and only if the column is from 1 to 32; otherwise typing and erasing one long line breaks it. |
| EditCursor.TypedIsLine | student-distrib/keyboard.c:244-266 | Letters alone are the line, cut at 127. |
| EditCursor.BackTakesBack | student-distrib/keyboard.c:278-286 | A backspace takes back the last letter, and does nothing on an empty line. |
| EditCursor.EditedInParts | student-distrib/keyboard.c:244-286 | Edits go on from where earlier edits end. |
| EditCursor.PressKey | student-distrib/keyboard.c:117-124 | A letter or backspace handled by the code, buffer and screen together, is one step of the session; no other terminal's screen changes. |
| EditCursor.EditLine | student-distrib/keyboard.c:244-286 | A whole line edited through the code: screen and buffer stay together, and the cursor is at the line's origin plus buf_idx. |
| Keyboard.SeenFromIff | student-distrib/terminal.c:48-52 | strlen on the 128-byte buffer finds the line if and only if it leaves room for the terminator. |
| Keyboard.FullBufferSeen | student-distrib/terminal.c:48-52 | A full buffer is read on into the low byte of buf_idx. |
| Keyboard.BrowsingKeepsLines | student-distrib/keyboard.c:353-414 | After any sequence of up and down moves from the draft no saved line has changed, and the buffer shows the draft or the line at the position walked to. |
| Keyboard.UpDownRestores | student-distrib/keyboard.c:353-414 | k moves up and k moves down restore the draft's text and position, for every k. |
| Keyboard.Strncpy | student-distrib/lib.c:491-502 | For every n the result is the source's string as far as it fits in n bytes, filled up with NULs. |
| Keyboard.DraftStays | student-distrib/keyboard.c:325-331 | The scan finds a slot of the history if and only if one is empty; it is then the first empty one. |
| Keyboard.EnteredSound | student-distrib/keyboard.c:317-333 | Enter keeps the history sound: the lines below the draft slot are terminated and not empty. |
| Keyboard.EnterKeepsIff | student-distrib/keyboard.c:318-320 | Enter keeps every line entered before if and only if the draft is shown or the recalled line is unchanged. |
| Keyboard.EnterPrivateIff | student-distrib/keyboard.c:325-331 | The next draft slot does not depend on the memory behind the history if and only if the history is no longer written or has an empty row once the line is saved. |
| Keyboard.SavedDraftPrivateIff | student-distrib/keyboard.c:353-357 | With the records laid out as declared, the draft saved by a move up changes no other terminal's record, whatever text and memory, if and only if the row lies in the history or behind the last terminal. |
| Keyboard.TerminalLine.AddToBuf | student-distrib/keyboard.c:244-266 | A letter is appended while there is room for it and the newline; a NUL leaves buf_idx beyond the string's length. |
| Keyboard.TerminalLine.DeleteFromBuf | student-distrib/keyboard.c:278-286 | The last character goes; on an empty line the write before the buffer changes active_pid only if its top byte was set. |
| Keyboard.TerminalLine.TerminalRead | student-distrib/terminal.c:30-57 | Delivers the first nbytes of what strlen sees and leaves an empty, zeroed buffer; a non-positive count changes nothing. |
| Keyboard.TerminalLine.SaveLine | student-distrib/keyboard.c:318-333 | The line goes into its slot, padded; the draft slot becomes the first of 1000 rows that starts with NUL, in the history or behind it, or stays when there is none. |
| Keyboard.TerminalLine.KeyboardReturn | student-distrib/keyboard.c:317-347 | Likewise while the draft slot lies in the history, otherwise the history is left alone; the newline ends the buffer and the flag is set. |
| Keyboard.TerminalLine.MoveUpHistory | student-distrib/keyboard.c:353-380 | Buffer, index and history become those of the specification move, the draft saved when it is left. |
| Keyboard.TerminalLine.MoveDownHistory | student-distrib/keyboard.c:385-414 | Likewise downwards, with nothing changed past the draft, also when the draft slot has left the history. |
| LineRuns.EnteredLineIsRead | student-distrib/terminal.c:30-57 | Any keys and backspaces, Enter, then a read of n bytes: it delivers the first n bytes of the edited line and its newline if and only if the line has at most 126 characters or n is at most 128; the buffer is empty afterwards. |
| LineRuns.LinesArePrivate | student-distrib/keyboard.c:56-130 | Under any interleaving of keys, Enter, history moves, TAB, reads, terminal switches and scheduling, each terminal's buffer and history and all that its reads deliver are what the strokes that reached it make of it alone. |
| LineRuns.EditsAndMoves | student-distrib/keyboard.c:353-414 | From the draft, whatever keys, TABs and reads lie between the moves: the position is where the moves alone lead, no other slot has changed, and the draft's slot holds the draft last left. |
| LineRuns.MoveShows | student-distrib/keyboard.c:373-409 | Right after a move that recalls, the buffer shows the line saved at the new position, or at the draft position the draft last left, whatever was typed in between. |
| LineRuns.EnteredLineIsRecalled | student-distrib/keyboard.c:317-376 | A line entered at the draft with the next row empty, and read, is what the next move up shows. |
| LineRuns.StrokeKeepsIff | student-distrib/keyboard.c:317-414 | A stroke keeps every line entered before if and only if it is no Enter on an edited recalled line. |
| LineRuns.SavedLinesSurvive | student-distrib/keyboard.c:317-414 | Over runs of keys, moves, TABs, reads and Enters at the draft or on unchanged lines, no line entered before is lost or changed. |
| LineRuns.Handle | student-distrib/keyboard.c:244-414 | A key, backspace, Enter, move, TAB or read handled by a terminal's code changes its line and history and copies bytes as the model says. |
| LineRuns.RunPrivately | student-distrib/keyboard.c:56-130 | Every event carried out by the code on three terminals that share no memory: each line and history ends, and each read copies out, what that terminal's own strokes alone give. |
| TabCompletion.NeighboursSuffice | student-distrib/keyboard.c:517-531 | The least common prefix of neighbouring matches is the longest common prefix of all of them. |
| TabCompletion.TabCompletes | student-distrib/keyboard.c:448-588 | When some name extends the last word and none equals it, TAB replaces the word by the longest common prefix of all names that extend it and keeps what stands before. |
| TabCompletion.TabKeepsIff | student-distrib/keyboard.c:424-571 | TAB leaves the line if and only if it is empty, a name equals the word, no name extends it, or the names have no more in common than the word. |
| TabCompletion.ComparePair | student-distrib/keyboard.c:524-530 | The loop over two 33-byte rows bounds the minimum by their common prefix length less one, for names up to 32 bytes and whatever byte lies behind a row. |
| TabCompletion.LeastDifference | student-distrib/keyboard.c:516-531 | The minimum over neighbouring rows is the least common prefix length less one. |
| TabCompletion.Collect | student-distrib/keyboard.c:479-509 | The pass stops if and only if a name equals the word; otherwise the rows hold exactly the names that extend it, in order. |
| TabCompletion.Autocomplete | student-distrib/keyboard.c:424-588 | On the buffer itself: the line becomes the completed one, terminated, with buf_idx its length. |
| FileSystem.ReadIndexIff | student-distrib/filesystem.c:141-155 | Which byte of the file the k-th byte read really is: the right one if and only if offset % 4 + k % 4 < 4. |
| FileSystem.ReadRightIff | student-distrib/filesystem.c:141-155 | All bytes of a read are the right ones if and only if it starts on a word boundary or stays inside one word. |
| FileSystem.ReadData | student-distrib/filesystem.c:105-197 | The three failures, the empty answer beyond the file, and otherwise every byte from the place ReadIndex says, across blocks, the rest of the buffer untouched. |
| FileSystem.RightByte | student-distrib/filesystem.c:119-163 | The block number, its 32-bit address product and the shifted word lead to the file's byte. |
| FileSystem.SoundRead | student-distrib/filesystem.c:105-197 | For every valid image, a sound read delivers exactly bytes offset to offset + length of the flat file. |
| FileSystem.SoundReadable | student-distrib/filesystem.c:158-167 | A sound read stays within the blocks, and is answered with its length if it is empty, starts inside a word, or ends below 1023 * 4096, and with 0 otherwise. |
| FileSystem.BytesMakeWord | student-distrib/filesystem.c:143-151 | For every word the four bytes taken out of it make up the word, least significant first. |
| FileSystem.FileWord | student-distrib/filesystem.c:112-163 | Four aligned bytes of a file denote the word of the image at the place its index node gives, boot block, index nodes and data blocks counted in words. |
| FileSystem.StoredFileIsRead | student-distrib/filesystem.c:105-197 | Contents stored word by word where index node 0 says are what the file is. |
| FileSystem.MkfsStores | student-distrib/filesystem.c:105-197 | Round trip: every contents up to the largest size, written into an image with its blocks in descending order, reads back as itself. |
| FileSystem.BytesJoin | student-distrib/filesystem.c:279-298 | Adjacent stretches of the flat file concatenate. |
| FileSystem.OpenFile.Read | student-distrib/filesystem.c:279-298 | Position, answer and delivered bytes of file_read, and exactly when the answer is the promised one; at or beyond a non-zero length nothing is read and nothing moves. |
| FileSystem.ReadClipsIff | student-distrib/filesystem.c:279-298 | From inside a file of any valid image the answer is the promised number if and only if no more is asked for than the file still holds and the loop's word count stays below the largest size. |
| FileSystem.ReadPastEnd | student-distrib/filesystem.c:279-298 | On a concrete image file_read, asked for 16 bytes of an 8-byte file, answers 16 and puts the position behind the end. |
| FileSystem.ReadChunks | student-distrib/filesystem.c:279-298 | Any sequence of sound chunks yields the same bytes as the flat file's stretch, with the position advanced by the sum of their sizes. |
| FileSystem.MisalignedReadIsWrong | student-distrib/filesystem.c:153-155 | On a concrete image, whatever buffer read_data fills with four bytes from offset 1 holds byte 0 where byte 4 of the file belongs. |
| Directory.CharIff | student-distrib/lib.c:454-467 | The characters compared are the signed ones: the value between -128 and 127 that the byte represents. |
| Directory.Strncmp | student-distrib/lib.c:454-467 | Zero if and only if the strings agree on n bytes or up to a common end before that; otherwise the difference of the first signed characters that differ. |
| Directory.AlikeIsEqual | student-distrib/filesystem.c:252-259 | The 32-byte comparison is equality of names up to 32 bytes, and of the first 32 bytes beyond that. |
| Directory.ReadDentryByName | student-distrib/filesystem.c:45-71 | Finds the first entry of that name; fails if and only if the name is empty or no entry has it. |
| Directory.FileOpen | student-distrib/filesystem.c:248-262 | Finds the first entry that compares alike on 32 bytes, or none. |
| Directory.LookUpTwice | student-distrib/syscall.c:438-480 | Whenever the first lookup of sys_open finds an entry, the second finds the same one. |
| Grep.DoOneFile | syscalls/ece391grep.c:9-66 | For every file and pattern without NUL the output is that of scanning the whole file at once in pieces of at most 1024 bytes. |
| Grep.ScanBuffer | syscalls/ece391grep.c:28-57 | The inner loop's reports and what it carries over together leave what is to be reported unchanged. |
| Grep.StrcpyDown | syscalls/ece391support.c:14-17 | The overlapping downward copy moves the string and leaves the rest of the buffer. |
| Grep.Strncmp | syscalls/ece391support.c:35-46 | Zero if and only if the pattern stands at that place of the line; otherwise the difference of the first unequal bytes. |
| Grep.SearchLine | syscalls/ece391grep.c:40-51 | The line is found if and only if the pattern occurs in it, given the signed comparison of the first byte. |
| Grep.LineReported | syscalls/ece391grep.c:30-52 | Reporting a line the buffer holds is one step of the scan of all that is pending. |
| Grep.Carried | syscalls/ece391grep.c:33-38 | Moving the unfinished line to the front changes nothing that is pending. |
| Grep.Refilled | syscalls/ece391grep.c:22-27 | A refill behind the carried line changes nothing that is pending. |
| Grep.ScanSilentLine | syscalls/ece391grep.c:30-52 | A line without the pattern prints nothing, in however many pieces the buffer sees it. |
| Grep.ScanIsReport | syscalls/ece391grep.c:20-60 | When no line longer than the buffer holds the pattern, the scan is the report on the file split into lines and filtered. |
| Grep.LinesJoin | syscalls/ece391grep.c:30-52 | Splitting loses nothing: the lines joined with newlines are the text. |
| Grep.ReportReadsBack | syscalls/ece391grep.c:45-48 | The report, read back line by line, is exactly the matching lines in order, each behind the file's name. |
| Grep.ScanPrintsShortLines | syscalls/ece391grep.c:41-50 | No line of the output is longer than the file's name, a colon and one buffer. |
| Grep.CorrectIff | syscalls/ece391grep.c:20-60 | For every pattern and file the output is the report if and only if each line that holds the pattern has at most 1024 bytes and the pattern's first byte is below 0x80. |
| Grep.CorrectForFileIff | syscalls/ece391grep.c:68-77 | A file is reported correctly for every pattern the program can be given with a first byte below 0x80 if and only if its longer lines hold no byte with which such a pattern may start: one character of a long line is enough. |
| Grep.CorrectForPatternIff | syscalls/ece391grep.c:43-44 | A one-line pattern is searched correctly in every file with such lines if and only if it is not empty and its first byte is below 0x80. |
| BlinkList.PhaseAfter | fish/blink.S:49-99 | After n ticks an entry is n modulo (on + off) ticks further in its period. |
| BlinkList.BlinksAsAsked | fish/blink.S:49-99 | With both lengths in 1..0x8000 an added entry is on if and only if n mod (on + off) < on, and its countdown is what remains of the phase. |
| BlinkList.BlinksAsAskedIff | fish/blink.S:60-90 | The asked rhythm is kept at every tick if and only if both lengths are in 1..0x8000. |
| BlinkList.InsertKeepsList | fish/blink.S:105-184 | Linking a free slot in front keeps the list acyclic with exactly the non-zero slots as nodes, and adds the entry in front. |
| BlinkList.InsertKeepsListIff | fish/blink.S:105-184 | It does so if and only if the location is not zero. |
| BlinkList.ZeroLocationLoops | fish/blink.S:105-184 | Two adds at location 0 make the head point to itself. |
| BlinkList.UnlinkKeepsList | fish/blink.S:187-237 | Unlinking and wiping a node keeps the list sound and removes exactly its entry. |
| BlinkList.InsertThenUnlink | fish/blink.S:105-237 | Adding and at once removing gives back the very same pool, head and list. |
| BlinkList.FullWhenNoneFree | fish/fish.c:160-170 | The allocator fails if and only if the list holds as many entries as there are slots. |
| BlinkList.Driver.Malloc | fish/fish.c:160-170 | The first slot with location zero, which is never a linked one. |
| BlinkList.Driver.Find | fish/blink.S:351-379 | The walk ends and finds the first node of the list at the location, or none. |
| BlinkList.Driver.Add | fish/blink.S:105-184 | Success exactly for a location on the screen and a free slot; then the entry is in front and its character shown; a location of zero makes any later list unsound; a failure changes nothing. |
| BlinkList.Driver.Remove | fish/blink.S:187-237 | The first entry at the location is removed from the list and its slot wiped, or nothing changes. |
| BlinkList.Driver.Tasklet | fish/blink.S:49-99 | Every entry ticks once and exactly the expiring ones write their character. |
| BlinkList.Driver.Sync | fish/blink.S:240-300 | The target takes over the source's lengths, countdown and status; a missing one changes nothing. |
| BlinkRuns.Call | fish/blink.S:49-300 | One driver call by the code, other than an add at location 0, changes list and screen as specified. |
| BlinkRuns.Calls | fish/blink.S:49-300 | Any sequence of such calls by the code, from any sound list, ends in the list and the screen of the specified run. |
| BlinkRuns.OnlyTicksMatter | fish/blink.S:49-237 | However other non-zero locations are added, removed and synced, an entry only counts the ticks. |
| BlinkRuns.AddedEntryBlinks | fish/blink.S:105-184 | After an add and any such run (no add at location 0) with n ticks the entry is on if and only if n mod (on + off) < on. |
| BlinkRuns.SyncedForEver | fish/blink.S:240-286 | After a sync, source and target have equal status and countdown at every later tick of any such run (no add at location 0), those of the source without the sync; the target keeps its characters. |
| BlinkRuns.AddedEntryShows | fish/blink.S:49-184 | An entry added at a free location shows, after any run at other non-zero locations with n ticks, the caller's on character exactly while n mod (on + off) < on, and otherwise the caller's off character. |
| BlinkRuns.CellStaysRight | fish/blink.S:49-300 | A call at other locations keeps an entry's cell showing its character for its present state. |
| BlinkRuns.AddThenRemove | fish/blink.S:105-237 | Adding a location and removing it gives back the list. |
| BlinkRuns.TaskletFaithful | fish/blink.S:49-99 | With unique locations, a screen that shows every entry's state still does after a tick. |
| BlinkRuns.AddFaithful | fish/blink.S:135-170 | So it does after an add at a new location. |
| BlinkRuns.SyncFaithfulIff | fish/blink.S:267-286 | After a sync it does if and only if the target is now off or has one character for both states. |
| BlinkRuns.StepRightIff | fish/blink.S:49-300 | With adds only at new locations, unique locations are kept, and a call keeps the screen showing every entry's state if and only if it is no sync to an entry that is then on and looks different off. |
| BlinkRuns.RunsStayRight | fish/blink.S:49-300 | After any run of such calls the screen shows every entry's character for its present state. |
| MemOps.Memset | student-distrib/lib.c:294-328 | Exactly n bytes from s on become the low byte of c, for every alignment and length. |
| MemOps.Memcpy | student-distrib/lib.c:377-414 | The destination becomes the old source bytes for every alignment, on disjoint regions or a destination below the source. |
| MemOps.CopyWord | student-distrib/lib.c:390-397 | Moving a 32-bit word does not overtake bytes that are still to be read. |
| MemOps.Memmove | student-distrib/lib.c:423-441 | The destination becomes the old source bytes for any overlap. |
| Numerals.NumeralIff | student-distrib/lib.c:226-255 | What itoa writes is the one sequence of digits below the radix that denotes the value and has no leading zero. |
| Numerals.NumeralLength | student-distrib/lib.c:84-126 | A 32-bit value takes at most 32 digits, and at most 8 hexadecimal ones, so the conversion buffers suffice. |
| Numerals.Strrev | student-distrib/lib.c:262-274 | The string is reversed in place up to its terminator, the rest of the buffer untouched. |
| Numerals.CollectDigits | student-distrib/lib.c:242-250 | The loop stores exactly the digits, lowest place first. |
| Numerals.Itoa | student-distrib/lib.c:226-255 | Collecting low digits and reversing them in place writes exactly the numeral and its terminator (the support library's routine is the same code). |
| Numerals.HexPadded | student-distrib/lib.c:90-100 | %#x shows exactly eight hexadecimal digits that denote the word. |
| Numerals.Unsigned | student-distrib/lib.c:106-113 | %u and %x show digits that denote the word, with no leading zero. |
| Numerals.DigitsInOrder | student-distrib/lib.c:227 | The digit for i is the i-th character of the lookup string, and its value is i. |
| Numerals.SignedIff | student-distrib/lib.c:119 | The integer printed is the one 32-bit two's complement integer that the word represents. |
| Numerals.Decimal | student-distrib/lib.c:116-129 | %d denotes every signed word, the smallest included, with a minus sign if and only if it is negative. |

## Left out

- Port I/O, the interrupt controller, the real-time clock, the timer set-up and the hardware cursor: register writes without state of interest.
- Boot, descriptor tables, exception and interrupt linkage, and the instructions that switch stacks: only which saved pair is restored is modelled. Flushing the TLB has no effect in the model.
- The waiting loops of terminal_read and the real-time clock: the flag is a precondition of the step.
- Command parsing and loading of executables in sys_execute: an execute event carries the verdict (null pointer, newline, not executable, executable).
- File descriptor tables, sys_open and sys_close beyond the two name lookups, sys_getargs, dir_read and read_dentry_by_index: bounds checks and table copies.
- The flags running_flag, shell_flag and call_halt, and Ctrl-C.
- User, read/write and other protection bits of page-table entries: a walk yields only an address.
- process_key's scancode maps and the shift, control and alt logic: events carry the letter or the switch.
- The listing that repeated TABs print, and the echo of completions on the screen.
- Uninitialised histories: that terminals start zeroed is an assumption; initial_boot copies records over them of which it sets only some fields (student-distrib/schedule.c:46-65).
- printf's parsing of its format string, memset_word and memset_dword.
- Failing open, read and close calls of grep, and its listing of the directory.
- The Linux emulation layers, the demonstration programs and the kernel's own checks.
- FileSystem.ReadData: a read that touches words beyond the blocks of its file is excluded, because what lies there is not the file's.
- FileSystem.ReadChunks: chunks satisfy the alignment condition of read_data, because others deliver wrong bytes (FileSystem.ReadRightIff).
- Grep.Read: short only at the end of the file, as the read call promises; the kernel's own file_read does not clip there and misreads unaligned positions (FileSystem.ReadClipsIff, FileSystem.ReadRightIff), so grep's theorems are about a file system that keeps the promise.
- Grep.DoOneFile: files and patterns hold no NUL and the byte behind the buffer is not a newline, because the code's strings and its test at the end of the buffer rely on it.
- TabCompletion.Autocomplete: names are distinct, at most 33 unless at most one extends the word, the word has at most 32 bytes and the result fits the buffer, because the code's 33 rows and 33-byte buffers have no room for more.
- Keyboard.TerminalLine.MoveUpHistory: the draft slot lies in the history, because otherwise the draft goes into another terminal's record (Keyboard.SavedDraftPrivateIff).
- Keyboard.TerminalLine.KeyboardReturn: what lies behind the history in memory is a parameter, and Enter on a full buffer is excluded, because it writes behind the buffer.
- MemOps.Memcpy: a destination that overlaps the source from above is excluded, because the routine promises nothing there.
- LineRuns.LinesArePrivate: what Enter and TAB read behind their own memory comes with the stroke; excluded are moves up with the draft slot out of the history, Enter and moves on a full buffer, and keys without a letter, because they break buffers as described above.
- EditCursor.StepKeepsSession: columns from 1 to 32 only; for all others it fails (EditCursor.ColumnIff).
- EditCursor.SessionShowsEdits: columns likewise; Ctrl-L and terminal switches during the line are not among the keys; Screens.ScreensArePrivate covers the switches.
