/**
 The page tables, and what they mean: the two-level 32-bit page walk with mixed page sizes
 (Intel SDM volume 3A, section 4.3). Every update is specified by its effect on translations.
 */
module Paging {
  import opened Arith
  import opened Bytes

  const ENTRIES := 1024
  const FOUR_KB := 0x1000
  const FOUR_MB := 0x40_0000
  const VIDEO := 0xB8000
  const USER_START := 0x800_0000    // 128 MB
  const WINDOW_START := 0x840_0000  // 132 MB

  /** The fields of a directory or table entry that take part in translation. */
  datatype Entry = Entry(present: bool, large: bool, frame: int)

  /** The tables, and the physical page numbers at which the two page tables themselves lie. */
  datatype Tables = Tables(dir: seq<Entry>, low: seq<Entry>, vidmap: seq<Entry>, lowFrame: int, vidmapFrame: int)

  predicate Wf(t: Tables) {
    && |t.dir| == ENTRIES && |t.low| == ENTRIES && |t.vidmap| == ENTRIES
    && t.lowFrame != t.vidmapFrame
  }

  /** The page walk. */
  function Translate(t: Tables, a: word): Option<int>
    requires Wf(t)
  {
    var pde := t.dir[a / FOUR_MB];
    if !pde.present then None
    else if pde.large then Some(pde.frame / 1024 * FOUR_MB + a % FOUR_MB)
    else if pde.frame == t.lowFrame then Walk(t.low[a % FOUR_MB / FOUR_KB], a)
    else if pde.frame == t.vidmapFrame then Walk(t.vidmap[a % FOUR_MB / FOUR_KB], a)
    else None
  }

  function Walk(pte: Entry, a: word): Option<int> {
    if pte.present then Some(pte.frame * FOUR_KB + a % FOUR_KB) else None
  }

  /** n bytes from virtual address a on are mapped to consecutive physical bytes from p on. */
  ghost predicate Maps(t: Tables, a: int, n: int, p: int)
    requires Wf(t)
  {
    forall x: word :: a <= x < a + n ==> Translate(t, x) == Some(p + (x - a))
  }

  /** Kernel addresses of the video page and its three backing pages translate to themselves. */
  ghost predicate VideoIdentity(t: Tables)
    requires Wf(t)
  {
    Maps(t, VIDEO, 4 * FOUR_KB, VIDEO)
  }

  /** Outside n bytes from a on, nothing is translated differently. */
  ghost predicate SameOutside(t: Tables, t': Tables, a: int, n: int)
    requires Wf(t) && Wf(t')
  {
    forall x: word :: !(a <= x < a + n) ==> Translate(t', x) == Translate(t, x)
  }

  lemma PageOf(x: int, page: int, size: int)
    requires size > 0 && page * size <= x < page * size + size
    ensures x / size == page && x % size == x - page * size
  {
    DivModUnique(x, size, page, x - page * size);
  }

  /** A large-page directory entry maps its 4 MB. */
  lemma LargePage(t: Tables, i: nat, base: int)
    requires Wf(t) && i < ENTRIES && t.dir[i] == Entry(true, true, base * 1024)
    ensures Maps(t, i * FOUR_MB, FOUR_MB, base * FOUR_MB)
  {
    forall x: word | i * FOUR_MB <= x < i * FOUR_MB + FOUR_MB
      ensures Translate(t, x) == Some(base * FOUR_MB + (x - i * FOUR_MB))
    {
      PageOf(x, i, FOUR_MB);
    }
  }

  /** Page j of the table under directory entry i, for either table. */
  lemma SmallPage(t: Tables, i: nat, table: seq<Entry>, j: nat, x: word)
    requires Wf(t) && i < ENTRIES && j < ENTRIES && t.dir[i].present && !t.dir[i].large
    requires (t.dir[i].frame == t.lowFrame && table == t.low) || (t.dir[i].frame == t.vidmapFrame && table == t.vidmap)
    requires i * FOUR_MB + j * FOUR_KB <= x < i * FOUR_MB + (j + 1) * FOUR_KB
    ensures Translate(t, x) == Walk(table[j], x)
    ensures x % FOUR_KB == x - i * FOUR_MB - j * FOUR_KB
  {
    PageOf(x, i, FOUR_MB);
    PageOf(x % FOUR_MB, j, FOUR_KB);
    PageOf(x, i * 1024 + j, FOUR_KB);
  }

  // ----- What the updates of single entries mean -----

  /** The first directory entry leads to the low table, whose four video pages map to themselves. */
  predicate VideoReady(t: Tables)
    requires Wf(t)
  {
    && t.dir[0] == Entry(true, false, t.lowFrame)
    && forall i :: VIDEO / FOUR_KB <= i < VIDEO / FOUR_KB + 4 ==> VideoEntry(t, i)
  }

  predicate VideoEntry(t: Tables, i: int)
    requires Wf(t) && 0 <= i < ENTRIES
  {
    t.low[i].present && t.low[i].frame == i
  }

  lemma VideoReadyMeans(t: Tables)
    requires Wf(t) && VideoReady(t)
    ensures VideoIdentity(t)
  {
    forall x: word | VIDEO <= x < VIDEO + 4 * FOUR_KB
      ensures Translate(t, x) == Some(VIDEO + (x - VIDEO))
    {
      var j := if x < VIDEO + FOUR_KB then 0xB8 else if x < VIDEO + 2 * FOUR_KB then 0xB9
               else if x < VIDEO + 3 * FOUR_KB then 0xBA else 0xBB;
      assert VideoEntry(t, j);
      SmallPage(t, 0, t.low, j, x);
    }
  }

  lemma DirUpdate(t: Tables, t': Tables, i: nat)
    requires Wf(t) && Wf(t') && i < ENTRIES && t'.dir == t.dir[i := t'.dir[i]] && t' == t.(dir := t'.dir)
    ensures SameOutside(t, t', i * FOUR_MB, FOUR_MB)
  {
    forall x: word | !(i * FOUR_MB <= x < i * FOUR_MB + FOUR_MB)
      ensures Translate(t', x) == Translate(t, x)
    {
      DivModUnique(x, FOUR_MB, x / FOUR_MB, x % FOUR_MB);
      assert x / FOUR_MB != i;
    }
  }

  /** The window's directory entry and the first entry of its table: only addresses behind that directory
      entry change, provided no other directory entry leads to the table. */
  lemma WindowUpdate(t: Tables, t': Tables, page: int)
    requires Wf(t) && Wf(t') && t'.lowFrame == t.lowFrame && t'.vidmapFrame == t.vidmapFrame && t'.low == t.low
    requires t'.dir == t.dir[33 := Entry(true, false, t.vidmapFrame)]
    requires t'.vidmap == t.vidmap[0 := t'.vidmap[0]] && t'.vidmap[0].present && t'.vidmap[0].frame == page
    requires WindowOnly(t)
    ensures SameOutside(t, t', WINDOW_START, FOUR_MB)
    ensures Maps(t', WINDOW_START, FOUR_KB, page * FOUR_KB)
    ensures WindowOnly(t')
  {
    forall x: word | !(WINDOW_START <= x < WINDOW_START + FOUR_MB)
      ensures Translate(t', x) == Translate(t, x)
    {
      DivModUnique(x, FOUR_MB, x / FOUR_MB, x % FOUR_MB);
      assert x / FOUR_MB != 33;
      assert LeadsElsewhere(t, x / FOUR_MB);
    }
    forall x: word | WINDOW_START <= x < WINDOW_START + FOUR_KB
      ensures Translate(t', x) == Some(page * FOUR_KB + (x - WINDOW_START))
    {
      SmallPage(t', 33, t'.vidmap, 0, x);
    }
    forall i | 0 <= i < ENTRIES && i != 33 ensures LeadsElsewhere(t', i) {
      assert LeadsElsewhere(t, i);
    }
  }

  predicate LeadsElsewhere(t: Tables, i: int)
    requires Wf(t) && 0 <= i < ENTRIES
  {
    t.dir[i].present && !t.dir[i].large ==> t.dir[i].frame == t.lowFrame
  }

  predicate WindowOnly(t: Tables)
    requires Wf(t)
  {
    forall i :: 0 <= i < ENTRIES && i != 33 ==> LeadsElsewhere(t, i)
  }

  /** The kernel's 4 MB and the video page translate to themselves, no other address is mapped. */
  ghost predicate OnlyKernelMapped(t: Tables)
    requires Wf(t)
  {
    forall a: word :: Translate(t, a) ==
      if VIDEO <= a < VIDEO + FOUR_KB || FOUR_MB <= a < 2 * FOUR_MB then Some(a) else None
  }

  lemma OnlyKernel(t: Tables)
    requires Wf(t) && t.dir[0] == Entry(true, false, t.lowFrame) && t.dir[1] == Entry(true, true, 1024)
    requires forall i :: 2 <= i < ENTRIES ==> !t.dir[i].present
    requires VideoEntry(t, 0xB8) && forall i :: 0 <= i < ENTRIES && i != 0xB8 ==> !t.low[i].present
    ensures OnlyKernelMapped(t)
  {
    LargePage(t, 1, 1);
    forall a: word ensures Translate(t, a) ==
      if VIDEO <= a < VIDEO + FOUR_KB || FOUR_MB <= a < 2 * FOUR_MB then Some(a) else None
    {
      if a < FOUR_MB {
        SmallPage(t, 0, t.low, a / FOUR_KB, a);
      }
    }
  }

  // ----- The tables in memory -----

  class Mmu {
    const pageDirectory: array<Entry>
    const pageTable: array<Entry>
    const vidmapPageTable: array<Entry>
    const pageTableFrame: int
    const vidmapFrame: int

    ghost function View(): Tables
      reads pageDirectory, pageTable, vidmapPageTable
    {
      Tables(pageDirectory[..], pageTable[..], vidmapPageTable[..], pageTableFrame, vidmapFrame)
    }

    ghost predicate Shaped()
      reads pageDirectory, pageTable, vidmapPageTable
    {
      && pageDirectory != pageTable && pageDirectory != vidmapPageTable && pageTable != vidmapPageTable
      && Wf(View())
    }

    ghost predicate Valid()
      reads pageDirectory, pageTable, vidmapPageTable
    {
      Shaped() && WindowOnly(View())
    }

    /** The three tables as the linker lays them out, with any contents; init_paging keeps only 12 bits of the first one's page number. */
    constructor (pageTableFrame: int, vidmapFrame: int)
      requires 0 <= pageTableFrame < 0x1000 && pageTableFrame != vidmapFrame
      ensures Shaped() && fresh(pageDirectory) && fresh(pageTable) && fresh(vidmapPageTable)
      ensures this.pageTableFrame == pageTableFrame && this.vidmapFrame == vidmapFrame
    {
      pageDirectory := new Entry[ENTRIES];
      pageTable := new Entry[ENTRIES];
      vidmapPageTable := new Entry[ENTRIES];
      this.pageTableFrame := pageTableFrame;
      this.vidmapFrame := vidmapFrame;
    }

    /** init_paging, whatever the tables held: the kernel's 4 MB and the video page map to themselves, nothing else
        is mapped. */
    method InitPaging()
      requires Shaped() && 0 <= pageTableFrame < 0x1000
      modifies pageDirectory, pageTable
      ensures Valid() && View().dir[0] == Entry(true, false, pageTableFrame) && VideoEntry(View(), 0xB8)
      ensures View().dir[1] == Entry(true, true, 1024)
      ensures OnlyKernelMapped(View())
    {
      for i := 0 to ENTRIES
        invariant forall j :: 0 <= j < i ==> pageDirectory[j] == Entry(false, true, 0)
      {
        pageDirectory[i] := pageDirectory[i].(present := false, large := true, frame := 0);
      }
      for i := 0 to ENTRIES
        invariant forall j :: 0 <= j < i ==> pageTable[j] == Entry(false, pageTable[j].large, 0)
        invariant forall j :: 0 <= j < ENTRIES ==> pageDirectory[j] == Entry(false, true, 0)
      {
        pageTable[i] := pageTable[i].(present := false, frame := 0);
      }
      pageTable[VIDEO / FOUR_KB] := pageTable[VIDEO / FOUR_KB].(present := true, frame := VIDEO / FOUR_KB);
      pageDirectory[0] := pageDirectory[0].(present := true, large := false, frame := pageTableFrame % 0x1000);
      pageDirectory[1] := pageDirectory[1].(frame := 1024, present := true);
      DivModUnique(pageTableFrame, 0x1000, 0, pageTableFrame);
      assert forall i :: 0 <= i < ENTRIES ==> LeadsElsewhere(View(), i);
      OnlyKernel(View());
    }

    /** map_user_program: 128 MB to 132 MB is the program's own 4 MB frame; nothing else moves. */
    method MapUserProgram(pid: int)
      requires Valid()
      modifies pageDirectory
      ensures Valid()
      ensures Maps(View(), USER_START, FOUR_MB, (pid + 2) * FOUR_MB)
      ensures SameOutside(old(View()), View(), USER_START, FOUR_MB)
      ensures VideoReady(old(View())) ==> VideoReady(View())
    {
      ghost var before := View();
      pageDirectory[32] := pageDirectory[32].(present := true, large := true, frame := (pid + 2) * 1024);
      DirUpdate(before, View(), 32);
      forall i | 0 <= i < ENTRIES && i != 33 ensures LeadsElsewhere(View(), i) {
        assert i != 32 ==> LeadsElsewhere(before, i);
      }
      LargePage(View(), 32, pid + 2);
      forall i | 0xB8 <= i < 0xBC ensures VideoReady(before) ==> VideoEntry(View(), i) {
        assert VideoReady(before) ==> VideoEntry(before, i);
      }
    }

    /** vidmap_term: terminal t's backing page maps to itself. */
    method VidmapTerm(t: int)
      requires Valid() && 0 <= t < 3
      modifies pageTable
      ensures Valid() && View().dir == old(View()).dir && View().vidmap == old(View()).vidmap
      ensures View().low == old(View()).low[0xB9 + t := View().low[0xB9 + t]]
      ensures VideoEntry(View(), 0xB9 + t)
    {
      ghost var before := View();
      var i := VIDEO / FOUR_KB + t + 1;
      pageTable[i] := pageTable[i].(present := true, frame := VIDEO / FOUR_KB + (t + 1));
      KeepsWindowOnly(before, View());
    }

    /** The loop of initial_boot over the three terminals: all four video pages now map to themselves. */
    method MapBackingPages()
      requires Valid() && View().dir[0] == Entry(true, false, pageTableFrame) && VideoEntry(View(), 0xB8)
      modifies pageTable
      ensures Valid() && VideoReady(View()) && View().dir == old(View()).dir
    {
      VidmapTerm(0);
      VidmapTerm(1);
      VidmapTerm(2);
    }

    lemma KeepsWindowOnly(before: Tables, after: Tables)
      requires Wf(before) && Wf(after) && WindowOnly(before) && after.dir == before.dir
      requires after.lowFrame == before.lowFrame
      ensures WindowOnly(after)
    {
      forall i | 0 <= i < ENTRIES && i != 33 ensures LeadsElsewhere(after, i) {
        assert LeadsElsewhere(before, i);
      }
    }

    /** Rewriting an entry of a video page that maps to itself: no translation changes. */
    method TouchVideoPage(i: int)
      requires Valid() && 0xB8 <= i < 0xBC && VideoReady(View())
      modifies pageTable
      ensures View() == old(View())
    {
      ghost var before := View();
      assert VideoEntry(before, i);
      pageTable[i] := pageTable[i].(present := true, frame := i);
      assert before.low == View().low;
    }

    /** Points the user window at 132 MB to a physical page. */
    method SetWindow(page: int)
      requires Valid() && VideoReady(View())
      modifies pageDirectory, vidmapPageTable
      ensures Valid() && VideoReady(View())
      ensures Maps(View(), WINDOW_START, FOUR_KB, page * FOUR_KB)
      ensures SameOutside(old(View()), View(), WINDOW_START, FOUR_MB)
    {
      ghost var before := View();
      pageDirectory[33] := pageDirectory[33].(present := true, large := false, frame := vidmapFrame);
      vidmapPageTable[0] := vidmapPageTable[0].(present := true, frame := page);
      WindowUpdate(before, View(), page);
      forall i | 0xB8 <= i < 0xBC ensures VideoEntry(View(), i) {
        assert VideoEntry(before, i);
      }
    }

    /** scheduling_vidmap: the window shows the page that holds the terminal's screen. */
    method SchedulingVidmap(terminal: int, viewed: int)
      requires Valid() && VideoReady(View()) && 0 <= terminal < 3
      modifies pageDirectory, vidmapPageTable, pageTable
      ensures Valid() && VideoReady(View())
      ensures Maps(View(), WINDOW_START, FOUR_KB, ScreenPage(terminal, viewed))
      ensures SameOutside(old(View()), View(), WINDOW_START, FOUR_MB)
    {
      if terminal != viewed {
        SetWindow(VIDEO / FOUR_KB + (terminal + 1));
        TouchVideoPage(VIDEO / FOUR_KB + terminal + 1);
      } else {
        SetWindow(VIDEO / FOUR_KB);
        TouchVideoPage(VIDEO / FOUR_KB);
      }
    }

    /** map_vidmem, the vidmap system call: the window always shows the video page. */
    method MapVidmem()
      requires Valid() && VideoReady(View())
      modifies pageDirectory, vidmapPageTable
      ensures Valid() && VideoReady(View())
      ensures Maps(View(), WINDOW_START, FOUR_KB, VIDEO)
      ensures SameOutside(old(View()), View(), WINDOW_START, FOUR_MB)
    {
      SetWindow(VIDEO / FOUR_KB);
    }
  }

  /** Where a terminal's screen is: the video page when in view, its backing page otherwise. */
  function ScreenPage(terminal: int, viewed: int): int {
    if terminal == viewed then VIDEO else VIDEO + (terminal + 1) * FOUR_KB
  }

  /** Translations carry over to unchanged regions. */
  lemma MapsKept(t: Tables, t': Tables, a: int, n: int, p: int, from: int, size: int)
    requires Wf(t) && Wf(t') && Maps(t, a, n, p) && SameOutside(t, t', from, size)
    requires a + n <= from || from + size <= a
    ensures Maps(t', a, n, p)
  {
    forall x: word | a <= x < a + n ensures Translate(t', x) == Some(p + (x - a)) {
      assert !(from <= x < from + size);
    }
  }

  lemma MapsOnePlace(t: Tables, a: word, n: nat, p: int, q: int)
    requires Wf(t) && n > 0 && Maps(t, a, n, p)
    ensures Maps(t, a, n, q) <==> p == q
  {
    assert Translate(t, a) == Some(p + (a - a));
  }
}
