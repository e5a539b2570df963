/**
 Whole runs of the kernel's own code: from the initial state, every history of timer ticks, calls and terminal
 switches, handled by the methods of module KernelCode one after the other.
 */
module KernelRuns {
  import opened Bytes
  import opened KernelCode
  import opened KernelState
  import opened Paging
  import opened Processes
  import opened Terminals
  import Screens

  /** Some program has been started on the running terminal. */
  predicate Started(m: Machine)
    requires Inv(m)
  {
    m.stacks[m.running] != Empty
  }

  /** A running program that is no base shell has a parent. */
  lemma ParentIsPid(k: Kernel, m: Machine)
    requires Rep(k, m) && Started(m) && k.currPid > 2
    ensures IsPid(k.currPid) && IsPid(k.pcbs[k.currPid].parentPid)
  {
    TopInPids(k, m, m.running);
    var s := m.stacks[m.running];
    assert s.below != Empty;
    hide PidsRep;
  }

  /** One entry into the kernel: it leaves the program it returns to mapped, and a tick leaves the window on the
      scheduled terminal's screen. */
  method Handle(core: KernelCore, e: Processes.Event, ghost m: Machine) returns (o: Outcome)
    requires core.Valid() && Rep(core.View(), m) && Allowed(m, e)
    requires Started(m) ==> core.UserMapped()
    modifies core, core.pidArray, core.pcbs, core.schedulingArray, core.activePid
    modifies core.mmu.pageDirectory, core.mmu.pageTable, core.mmu.vidmapPageTable
    ensures core.Valid() && Ready(old(core.View()), e) && core.View() == KStep(old(core.View()), e).0
    ensures Rep(core.View(), Step(m, e).0) && o == Step(m, e).1
    ensures Started(Step(m, e).0) ==> core.UserMapped()
    ensures e.Tick? ==> core.WindowRight()
  {
    StepRefines(core.View(), m, e);
    match e
    case Tick(regs, start) =>
      o := core.Schedule(regs, start);
    case Execute(command, regs) =>
      o := core.Execute(command, regs);
    case Halt(value, start) =>
      if core.currPid > 2 {
        ParentIsPid(core.View(), m);
      }
      o := core.Halt(value, start);
    case Switch(t) =>
      core.SwitchTerminals(t);
      o := Done;
  }

  // ----- The window and the screens -----

  /** The page that paging takes for a terminal's screen is the one where the screen lies. */
  lemma ScreenPageIsBase(t: int, viewed: int)
    requires Terminal(t) && Terminal(viewed)
    ensures ScreenPage(t, viewed) == VIDEO + Screens.Base(t, viewed)
  {
  }

  /** Through the window at 132 MB a program reads and writes the bytes of a terminal's screen. */
  ghost predicate WindowShows(t: Tables, v: Screens.Video, terminal: int)
    requires Paging.Wf(t) && Screens.Sized(v) && Terminal(terminal)
  {
    forall i :: 0 <= i < Screens.SIZE ==> WindowByte(t, v, terminal, i)
  }

  /** Byte i of the window is byte i of the screen in the memory at 0xB8000. */
  ghost predicate WindowByte(t: Tables, v: Screens.Video, terminal: int, i: int)
    requires Paging.Wf(t) && Screens.Sized(v) && Terminal(terminal) && 0 <= i < Screens.SIZE
  {
    match Translate(t, 0x840_0000 + i)
    case None => false
    case Some(p) => 0xB8000 <= p < 0xB8000 + |v.mem| && v.mem[p - 0xB8000] == Screens.ScreenAt(v, terminal).cells[i]
                    && p == 0xB8000 + Screens.Base(terminal, v.viewed) + i
  }

  lemma RightWindowShows(core: KernelCore, v: Screens.Video)
    requires core.Valid() && core.WindowRight() && Screens.Sized(v) && v.viewed == core.currTerm
    ensures Terminal(core.scheduledProcess) && WindowShows(core.mmu.View(), v, core.scheduledProcess)
  {
    var t := core.scheduledProcess;
    ScreenPageIsBase(t, v.viewed);
    forall i | 0 <= i < Screens.SIZE ensures WindowByte(core.mmu.View(), v, t, i) {
      var a: int := WINDOW_START + i;
      assert Translate(core.mmu.View(), a) == Some(ScreenPage(t, v.viewed) + i);
      hide Translate;
    }
  }

  /** How each event of a history leaves the kernel. */
  function Outcomes(es: seq<Processes.Event>): seq<Outcome>
    requires Reach(es).Some?
  {
    if es == [] then [] else Outcomes(es[..|es| - 1]) + [LastOutcome(es)]
  }

  /** After every allowed history: the tables represent the machine of that history, every entry left the kernel as
      the machine does, the video pages map to themselves, the running program's frame is mapped at 128 MB, and
      right after a tick the window at 132 MB shows, byte for byte, the scheduled terminal's screen in whatever video
      memory. */
  method Run(core: KernelCore, es: seq<Processes.Event>) returns (outcomes: seq<Outcome>)
    requires core.Valid() && Initial(core.View()) && Reach(es).Some?
    modifies core, core.pidArray, core.pcbs, core.schedulingArray, core.activePid
    modifies core.mmu.pageDirectory, core.mmu.pageTable, core.mmu.vidmapPageTable
    ensures core.Valid() && Rep(core.View(), Reach(es).value)
    ensures outcomes == Outcomes(es)
    ensures VideoIdentity(core.mmu.View())
    ensures Started(Reach(es).value) ==> core.UserMapped()
    ensures es != [] && es[|es| - 1].Tick? ==>
      && core.WindowRight() && core.scheduledProcess == Reach(es).value.running && Terminal(core.scheduledProcess)
      && forall v: Screens.Video :: Screens.Sized(v) && v.viewed == core.currTerm ==>
        WindowShows(core.mmu.View(), v, core.scheduledProcess)
  {
    if es == [] {
      outcomes := [];
      RunRefines(core.View(), []);
    } else {
      var init, e := es[..|es| - 1], es[|es| - 1];
      outcomes := Run(core, init);
      var o := Handle(core, e, Reach(init).value);
      outcomes := outcomes + [o];
      if e.Tick? {
        forall v: Screens.Video | Screens.Sized(v) && v.viewed == core.currTerm
          ensures WindowShows(core.mmu.View(), v, core.scheduledProcess)
        {
          RightWindowShows(core, v);
        }
      }
    }
    VideoReadyMeans(core.mmu.View());
  }

  /** A reachable wrong window: after the three boot ticks terminal 2 runs out of view; bringing it into view moves its
      screen to the video page, but leaves the window where the screen was. */
  method BootThenSwitch(core: KernelCore, es: seq<Processes.Event>)
    requires core.Valid() && Initial(core.View())
    requires |es| == 3 && es[0].Tick? && es[1].Tick? && es[2].Tick?
    modifies core, core.pidArray, core.pcbs, core.schedulingArray, core.activePid
    modifies core.mmu.pageDirectory, core.mmu.pageTable, core.mmu.vidmapPageTable
    ensures core.Valid() && !core.WindowRight()
  {
    AfterBoot(es);
    var _ := Run(core, es);
    core.SwitchTerminals(2);
  }
}
