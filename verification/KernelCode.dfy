/**
 sys_execute, sys_halt, schedule and switch_terminals as they update the kernel's arrays and page tables,
 each proved against its effect on the tables as values (module KernelState) and on translations (module Paging).
 */
module KernelCode {
  import opened KernelState
  import opened Paging
  import opened Processes
  import opened Terminals

  class KernelCore {
    const pidArray: array<int>
    const pcbs: array<Pcb>
    const schedulingArray: array<int>
    const activePid: array<int>
    const mmu: Mmu
    var scheduledProcess: int
    var currTerm: int
    var currPid: int
    var tssEsp0: int

    ghost function View(): Kernel
      reads this, pidArray, pcbs, schedulingArray, activePid
    {
      Kernel(pidArray[..], pcbs[..], schedulingArray[..], activePid[..], scheduledProcess, currTerm, currPid, tssEsp0)
    }

    ghost predicate Valid()
      reads this, pidArray, pcbs, schedulingArray, activePid, mmu.pageDirectory, mmu.pageTable, mmu.vidmapPageTable
    {
      && pidArray != schedulingArray && pidArray != activePid && schedulingArray != activePid
      && Sized(View()) && mmu.Valid() && VideoReady(mmu.View())
    }

    /** 128 MB to 132 MB is the frame of the current pid. */
    ghost predicate UserMapped()
      requires mmu.Valid()
      reads this, mmu.pageDirectory, mmu.pageTable, mmu.vidmapPageTable
    {
      Maps(mmu.View(), USER_START, FOUR_MB, UserFrame(currPid))
    }

    /** The window at 132 MB shows the page that holds the running terminal's screen. */
    ghost predicate WindowRight()
      requires mmu.Valid()
      reads this, mmu.pageDirectory, mmu.pageTable, mmu.vidmapPageTable
    {
      Maps(mmu.View(), WINDOW_START, FOUR_KB, ScreenPage(scheduledProcess, currTerm))
    }

    /** init_paging, syscall_init and initial_boot. */
    constructor (pageTableFrame: int, vidmapFrame: int, pcbs: array<Pcb>)
      requires 0 <= pageTableFrame < 0x1000 && pageTableFrame != vidmapFrame && pcbs.Length == MAX_PIDS
      ensures Valid() && Initial(View())
      ensures Maps(mmu.View(), FOUR_MB, FOUR_MB, FOUR_MB)
    {
      pidArray := new int[MAX_PIDS];
      schedulingArray := new int[3];
      activePid := new int[3];
      this.pcbs := pcbs;
      mmu := new Mmu(pageTableFrame, vidmapFrame);
      tssEsp0 := EIGHT_MB;
      new;
      mmu.InitPaging();
      mmu.MapBackingPages();
      LargePage(mmu.View(), 1, 1);
      ghost var tables := mmu.View();
      for i := 0 to MAX_PIDS
        invariant mmu.Valid() && mmu.View() == tables
        invariant forall j :: 0 <= j < i ==> pidArray[j] == UNUSED
      {
        pidArray[i] := UNUSED;
      }
      currTerm := 0;
      scheduledProcess := 0;
      for i := 0 to 3
        invariant mmu.Valid() && mmu.View() == tables
        invariant forall j :: 0 <= j < i ==> schedulingArray[j] == -1
        invariant forall j :: 0 <= j < MAX_PIDS ==> pidArray[j] == UNUSED
        invariant currTerm == 0 && scheduledProcess == 0
      {
        schedulingArray[i] := -1;
      }
    }

    /** The search for an unused pid; a pid found is marked used. */
    method AllocatePid() returns (pid: int)
      requires pidArray.Length == MAX_PIDS
      modifies pidArray
      ensures pid == FirstUnused(old(pidArray[..]), 0)
      ensures pidArray[..] == if pid < MAX_PIDS then old(pidArray[..])[pid := USED] else old(pidArray[..])
    {
      ghost var pids := pidArray[..];
      pid := 0;
      while pid < MAX_PIDS
        invariant 0 <= pid <= MAX_PIDS && pidArray[..] == pids
        invariant FirstUnused(pids, 0) == FirstUnused(pids, pid)
      {
        assert pidArray[pid] == pids[pid];
        if pidArray[pid] == UNUSED {
          pidArray[pid] := USED;
          return;
        }
        pid := pid + 1;
      }
    }

    /** init_pcb */
    method InitPcb(pid: int)
      requires pcbs.Length == MAX_PIDS && IsPid(pid)
      modifies pcbs
      ensures pcbs[..] == old(pcbs[..])[pid := KernelState.InitPcb(old(pcbs[..])[pid], pid, currTerm)]
    {
      pcbs[pid] := pcbs[pid].(parentPid := 0, childPid := 0);
      pcbs[pid] := pcbs[pid].(baseKernelStack := EIGHT_MB - pid * EIGHT_KB, currPid := pid);
      pcbs[pid] := pcbs[pid].(termId := currTerm);
    }

    /** The branch of sys_execute for a shell's pid. */
    method RecordShell(pid: int, regs: Regs)
      requires pcbs.Length == MAX_PIDS && activePid.Length == schedulingArray.Length == 3
      requires activePid != schedulingArray && IsPid(pid) && Terminal(scheduledProcess)
      modifies pcbs, activePid, schedulingArray
      ensures pcbs[..] == old(pcbs[..])[pid := old(pcbs[..])[pid].(termId := scheduledProcess, oldEsp0 := tssEsp0, schedule := regs, oldRegs := regs)]
      ensures activePid[..] == old(activePid[..])[scheduledProcess := pid]
      ensures schedulingArray[..] == old(schedulingArray[..])[scheduledProcess := pid]
    {
      pcbs[pid] := pcbs[pid].(termId := scheduledProcess);
      activePid[scheduledProcess] := pid;
      schedulingArray[scheduledProcess] := pid;
      pcbs[pid] := pcbs[pid].(oldEsp0 := tssEsp0, schedule := regs);
      pcbs[pid] := pcbs[pid].(oldRegs := regs);
    }

    /** The branch of sys_execute for any other pid. */
    method RecordChild(pid: int, regs: Regs)
      requires pcbs.Length == MAX_PIDS && activePid.Length == schedulingArray.Length == 3
      requires activePid != schedulingArray && IsPid(pid) && Terminal(currTerm) && IsPid(schedulingArray[currTerm])
      modifies pcbs, activePid, schedulingArray
      ensures var parent := old(schedulingArray[currTerm]);
              var top := old(pcbs[..])[pid].baseKernelStack;
              var child := old(pcbs[..])[pid].(parentPid := parent, termId := currTerm, oldEsp0 := tssEsp0,
                                               schedule := Regs(top, top), oldRegs := regs);
              var added := old(pcbs[..])[pid := child];
              pcbs[..] == added[parent := added[parent].(childPid := pid)]
      ensures activePid[..] == old(activePid[..])[currTerm := pid]
      ensures schedulingArray[..] == old(schedulingArray[..])[currTerm := pid]
    {
      pcbs[pid] := pcbs[pid].(parentPid := schedulingArray[currTerm]);
      var parent := schedulingArray[currTerm];
      pcbs[parent] := pcbs[parent].(childPid := pid);
      pcbs[pid] := pcbs[pid].(termId := currTerm);
      activePid[currTerm] := pid;
      schedulingArray[currTerm] := pid;
      pcbs[pid] := pcbs[pid].(oldEsp0 := tssEsp0, schedule := Regs(pcbs[pid].baseKernelStack, pcbs[pid].baseKernelStack));
      pcbs[pid] := pcbs[pid].(oldRegs := regs);
    }

    /** The part of sys_execute that fills in the pcb and makes the new program current. */
    method Install(pid: int, regs: Regs)
      requires Valid() && CanLaunch(View(), pid) && pidArray[pid] == USED
      modifies this, pcbs, schedulingArray, activePid
      ensures Valid() && View() == Launch(old(View()), pid, regs)
      ensures scheduledProcess == old(scheduledProcess) && currTerm == old(currTerm) && currPid == pid
    {
      InitPcb(pid);
      if pid <= 2 {
        RecordShell(pid, regs);
      } else {
        RecordChild(pid, regs);
      }
      currPid := pid;
      tssEsp0 := pcbs[pid].baseKernelStack;
    }

    /** sys_execute */
    method Execute(command: Command, regs: Regs) returns (o: Outcome)
      requires Valid() && Ready(View(), Event.Execute(command, regs))
      modifies this, pidArray, pcbs, schedulingArray, activePid, mmu.pageDirectory
      ensures Valid() && View() == KExecute(old(View()), command, regs).0 && o == KExecute(old(View()), command, regs).1
      ensures o.Enter? ==> UserMapped()
      ensures SameOutside(old(mmu.View()), mmu.View(), USER_START, FOUR_MB)
      ensures !o.Enter? ==> mmu.View() == old(mmu.View())
    {
      match command
      case NullPointer => return Return(-1);
      case Newline => return Return(0);
      case NotExecutable => return Return(-1);
      case Executable =>
      var pid := AllocatePid();
      if pid == MAX_PIDS {
        return Return(-1);
      }
      mmu.MapUserProgram(pid);
      Install(pid, regs);
      return Enter(pid);
    }

    /** sys_halt; `value` is what its status or a pending exception makes of the return value. */
    method Halt(value: int, start: Regs) returns (o: Outcome)
      requires Valid() && CanHalt(View())
      requires View().currPid > 2 ==> IsPid(View().pcbs[View().currPid].parentPid)
      modifies this, pidArray, pcbs, schedulingArray, activePid, mmu.pageDirectory
      ensures Valid() && View() == KHalt(old(View()), value, start).0 && o == KHalt(old(View()), value, start).1
      ensures UserMapped()
      ensures SameOutside(old(mmu.View()), mmu.View(), USER_START, FOUR_MB)
    {
      var pcb := pcbs[currPid];
      pidArray[pcb.currPid] := UNUSED;
      if currPid <= 2 {
        o := Execute(Executable, start);
        if o.Enter? {
          return;
        }
      }
      var parentRegs := pcb.oldRegs;
      tssEsp0 := EIGHT_MB - pcb.parentPid * EIGHT_KB;
      mmu.MapUserProgram(pcb.parentPid);
      activePid[pcb.termId] := pcb.parentPid;
      schedulingArray[pcb.termId] := pcb.parentPid;
      currPid := pcb.parentPid;
      return Deliver(parentRegs, value);
    }

    /** switch_terminals: only the viewed terminal changes here; the copying of screens is module Screens. */
    method SwitchTerminals(next: int)
      requires Valid() && Terminal(next)
      modifies this, mmu.pageTable
      ensures Valid() && View() == old(View()).(viewed := next)
      ensures mmu.View() == old(mmu.View()) && (old(UserMapped()) ==> UserMapped())
      // the window is not moved: it stays right exactly when the running terminal's screen stays where it is
      ensures old(WindowRight()) ==>
        (WindowRight() <==> next == old(currTerm) || (scheduledProcess != next && scheduledProcess != old(currTerm)))
    {
      ghost var before := currTerm;
      if currTerm == next {
        return;
      }
      mmu.TouchVideoPage(VIDEO / FOUR_KB);
      currTerm := next;
      if Maps(mmu.View(), WINDOW_START, FOUR_KB, ScreenPage(scheduledProcess, before)) {
        MapsOnePlace(mmu.View(), WINDOW_START, FOUR_KB, ScreenPage(scheduledProcess, before), ScreenPage(scheduledProcess, next));
      }
    }

    /** sys_vidmap on an address in the user page: right exactly for the terminal in view. */
    method Vidmap()
      requires Valid()
      modifies mmu.pageDirectory, mmu.vidmapPageTable
      ensures Valid() && View() == old(View())
      ensures SameOutside(old(mmu.View()), mmu.View(), WINDOW_START, FOUR_MB)
      ensures WindowRight() <==> scheduledProcess == currTerm
      ensures old(UserMapped()) ==> UserMapped()
    {
      ghost var before := mmu.View();
      mmu.MapVidmem();
      if Maps(before, USER_START, FOUR_MB, UserFrame(currPid)) {
        MapsKept(before, mmu.View(), USER_START, FOUR_MB, UserFrame(currPid), WINDOW_START, FOUR_MB);
      }
      MapsOnePlace(mmu.View(), WINDOW_START, FOUR_KB, VIDEO, ScreenPage(scheduledProcess, currTerm));
    }

    /** A boot tick's last part: terminal t's shell is started with the window on its screen. */
    method BootShell(t: int, start: Regs) returns (o: Outcome)
      requires Valid() && Terminal(t) && Ready(View().(running := t), Event.Execute(Executable, start))
      modifies this, pidArray, pcbs, schedulingArray, activePid, mmu.pageDirectory, mmu.pageTable, mmu.vidmapPageTable
      ensures Valid()
      ensures View() == KExecute(old(View()).(running := t), Executable, start).0
      ensures o == KExecute(old(View()).(running := t), Executable, start).1
      ensures o.Enter? ==> UserMapped()
      ensures WindowRight()
    {
      scheduledProcess := t;
      mmu.SchedulingVidmap(scheduledProcess, currTerm);
      ghost var tables := mmu.View();
      o := Execute(Executable, start);
      MapsKept(tables, mmu.View(), WINDOW_START, FOUR_KB, ScreenPage(scheduledProcess, currTerm), USER_START, FOUR_MB);
    }

    /** A normal tick's last part: terminal next's program is made current. */
    method Dispatch(next: int) returns (o: Outcome)
      requires Valid() && Terminal(next) && IsPid(View().scheduling[next])
      requires View().pcbs[View().scheduling[next]].currPid == View().scheduling[next]
      modifies this, mmu.pageDirectory, mmu.pageTable, mmu.vidmapPageTable
      ensures Valid() && UserMapped() && WindowRight()
      ensures var q := old(View()).scheduling[next];
              && View() == old(View()).(running := next, currPid := old(View()).pcbs[q].currPid, esp0 := StackTop(q))
              && o == Resume(old(View()).pcbs[q].schedule)
    {
      scheduledProcess := next;
      var nextPcb := pcbs[schedulingArray[next]];
      currPid := nextPcb.currPid;
      tssEsp0 := EIGHT_MB - schedulingArray[next] * EIGHT_KB;
      mmu.MapUserProgram(schedulingArray[next]);
      ghost var tables := mmu.View();
      mmu.SchedulingVidmap(next, currTerm);
      MapsKept(tables, mmu.View(), USER_START, FOUR_MB, UserFrame(currPid), WINDOW_START, FOUR_MB);
      return Resume(nextPcb.schedule);
    }

    /** schedule */
    method Schedule(regs: Regs, start: Regs) returns (o: Outcome)
      requires Valid() && CanTick(View())
      modifies this, pidArray, pcbs, schedulingArray, activePid, mmu.pageDirectory, mmu.pageTable, mmu.vidmapPageTable
      ensures Valid() && View() == KTick(old(View()), regs, start).0 && o == KTick(old(View()), regs, start).1
      ensures UserMapped() && WindowRight()
    {
      ghost var k := View();
      if schedulingArray[0] == -1 {
        o := BootShell(scheduledProcess, start);
        return;
      }
      var curr := schedulingArray[scheduledProcess];
      pcbs[curr] := pcbs[curr].(schedule := regs);
      assert View() == Saved(k, regs);
      var next := (1 + scheduledProcess) % 3;
      if schedulingArray[1] == -1 {
        o := BootShell(1, start);
        return;
      }
      if schedulingArray[2] == -1 {
        o := BootShell(2, start);
        return;
      }
      assert View().pcbs[View().scheduling[next]].currPid == View().scheduling[next];
      o := Dispatch(next);
    }
  }
}
