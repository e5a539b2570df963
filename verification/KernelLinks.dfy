/**
 What else the kernel's tables keep over every run: child links that are the inverse of the parent links, saved kernel
 stacks, each terminal's active program; and what the process calls answer.
 */
module KernelLinks {
  import opened Bytes
  import opened KernelState
  import opened Processes
  import opened Terminals

  /** Each program's child_pid is the program above it, whose old_esp0 is the top of the kernel stack below, and each one's
      base_kernel_stack is its own. */
  predicate ChildLinks(pcbs: seq<Pcb>, s: Stack)
    requires |pcbs| == MAX_PIDS
  {
    match s
    case Empty => true
    case Push(p, _, below) =>
      && IsPid(p) && pcbs[p].baseKernelStack == StackTop(p)
      && (below.Push? ==> IsPid(below.pid) && pcbs[below.pid].childPid == p && pcbs[p].oldEsp0 == StackTop(below.pid))
      && ChildLinks(pcbs, below)
  }

  predicate TerminalLinks(k: Kernel, m: Machine, t: int)
    requires Sized(k) && |m.stacks| == 3 && Terminal(t)
  {
    ChildLinks(k.pcbs, m.stacks[t]) && (m.stacks[t].Push? ==> k.active[t] == m.stacks[t].pid)
  }

  predicate Links(k: Kernel, m: Machine) {
    && Sized(k) && |m.stacks| == 3
    && TerminalLinks(k, m, 0) && TerminalLinks(k, m, 1) && TerminalLinks(k, m, 2)
  }

  /** Links survive changes elsewhere, and a new child of the program on top. */
  lemma {:induction false} LinksFrame(pcbs: seq<Pcb>, pcbs': seq<Pcb>, t: int, s: Stack, top: bool)
    requires |pcbs| == |pcbs'| == MAX_PIDS && ChildLinks(pcbs, s) && StackShape(t, s)
    requires forall p :: p in Pids(s) && IsPid(p) ==>
      && pcbs'[p].baseKernelStack == pcbs[p].baseKernelStack && pcbs'[p].oldEsp0 == pcbs[p].oldEsp0
      && (pcbs'[p].childPid == pcbs[p].childPid || (top && s.Push? && p == s.pid))
    ensures ChildLinks(pcbs', s)
  {
    if s.Push? {
      assert s.pid in Pids(s) && forall p <- Pids(s.below) :: p in Pids(s);
      if s.below.Push? {
        assert s.below.pid in Pids(s.below);
        assert s.pid !in Pids(s.below);
        LinksFrame(pcbs, pcbs', t, s.below, false);
      }
    }
  }

  /** Terminal t is left alone: its stack, its active program, and the pcbs of its programs. */
  lemma LinksKept(k: Kernel, m: Machine, k': Kernel, m': Machine, t: int)
    requires Sized(k) && Sized(k') && Inv(m) && |m'.stacks| == 3 && Terminal(t) && TerminalLinks(k, m, t)
    requires m'.stacks[t] == m.stacks[t] && k'.active[t] == k.active[t]
    requires forall p :: p in Pids(m.stacks[t]) && IsPid(p) ==>
      && k'.pcbs[p].baseKernelStack == k.pcbs[p].baseKernelStack && k'.pcbs[p].oldEsp0 == k.pcbs[p].oldEsp0
      && k'.pcbs[p].childPid == k.pcbs[p].childPid
    ensures TerminalLinks(k', m', t)
  {
    LinksFrame(k.pcbs, k'.pcbs, t, m.stacks[t], false);
  }

  /** A program pushed on the stack of the running terminal. */
  lemma LinksPushed(k: Kernel, m: Machine, p: int, regs: Regs)
    requires Rep(k, m) && Links(k, m) && Booted(m) && m.viewed == m.running
    requires 3 <= p < MAX_PIDS && p !in AllPids(m) && CanLaunch(k, p)
    ensures Links(Launch(k, p, regs), Pushed(m, p, regs))
  {
    forall t | Terminal(t) ensures TerminalLinks(Launch(k, p, regs), Pushed(m, p, regs), t) {
      if t == m.running {
        LinksOnTop(k, m, p, regs);
      } else {
        LinksBeside(k, m, p, regs, t);
      }
    }
  }

  lemma LinksOnTop(k: Kernel, m: Machine, p: int, regs: Regs)
    requires Rep(k, m) && Links(k, m) && m.stacks[m.running] != Empty && m.viewed == m.running
    requires 3 <= p < MAX_PIDS && p !in AllPids(m) && CanLaunch(k, p)
    ensures TerminalLinks(Launch(k, p, regs), Pushed(m, p, regs), m.running)
  {
    var r := m.running;
    TopInPids(k, m, r);
    assert p !in Pids(m.stacks[r]) && StackShape(r, m.stacks[r]);
    hide PidsRep, AllPids, TerminalRep;
    LinksFrame(k.pcbs, Launch(k, p, regs).pcbs, r, m.stacks[r], true);
  }

  lemma LinksBeside(k: Kernel, m: Machine, p: int, regs: Regs, t: int)
    requires Rep(k, m) && Links(k, m) && m.stacks[m.running] != Empty && m.viewed == m.running
    requires 3 <= p < MAX_PIDS && p !in AllPids(m) && CanLaunch(k, p) && Terminal(t) && t != m.running
    ensures TerminalLinks(Launch(k, p, regs), Pushed(m, p, regs), t)
  {
    TopInPids(k, m, m.running);
    assert p !in Pids(m.stacks[t]) && m.stacks[m.running].pid !in Pids(m.stacks[t]);
    hide PidsRep, AllPids, TerminalRep;
    LinksKept(k, m, Launch(k, p, regs), Pushed(m, p, regs), t);
  }

  /** A shell started, or started again, on an empty stack. */
  lemma LinksShell(k: Kernel, m: Machine, k0: Kernel, b: int, start: Regs, m': Machine)
    requires Rep(k, m) && Links(k, m) && Terminal(b) && CanLaunch(k0, b) && k0.running == b
    requires k0.active == k.active && |m'.stacks| == 3 && m'.stacks == m.stacks[b := Push(b, start, Empty)]
    requires forall p :: 0 <= p < MAX_PIDS ==>
      && k0.pcbs[p].baseKernelStack == k.pcbs[p].baseKernelStack && k0.pcbs[p].oldEsp0 == k.pcbs[p].oldEsp0
      && k0.pcbs[p].childPid == k.pcbs[p].childPid
    ensures Links(Launch(k0, b, start), m')
  {
    var k' := Launch(k0, b, start);
    AllShapePids(m);
    forall t | Terminal(t) ensures TerminalLinks(k', m', t) {
      if t != b {
        assert b !in Pids(m.stacks[t]);
        LinksKept(k, m, k', m', t);
      }
    }
  }

  lemma LinksExecute(k: Kernel, m: Machine, command: Command, regs: Regs)
    requires Rep(k, m) && Links(k, m) && Allowed(m, Execute(command, regs))
    ensures Ready(k, Execute(command, regs))
    ensures Links(KExecute(k, command, regs).0, Step(m, Execute(command, regs)).0)
  {
    StepRefines(k, m, Execute(command, regs));
    if command.Executable? {
      var p := LeastFree(AllPids(m), 0);
      FirstUnusedIsLeast(k.pids, AllPids(m), 0);
      FreshPid(m);
      if p < MAX_PIDS {
        LinksPushed(k, m, p, regs);
      }
    }
  }

  lemma LinksHalt(k: Kernel, m: Machine, value: int, start: Regs)
    requires Rep(k, m) && Links(k, m) && Allowed(m, Halt(value, start))
    ensures Ready(k, Halt(value, start))
    ensures Links(KHalt(k, value, start).0, Step(m, Halt(value, start)).0)
  {
    var e := Halt(value, start);
    StepRefines(k, m, e);
    var r, m', k' := m.running, Step(m, e).0, KHalt(k, value, start).0;
    TopInPids(k, m, r);
    if m.stacks[r].below == Empty {
      var freed := k.(pids := k.pids[r := UNUSED]);
      HaltRestarts(k, m, value, start);
      LinksShell(k, m, freed, r, start, m');
    } else {
      LinksPopped(k, m, value, start);
    }
  }

  lemma LinksPopped(k: Kernel, m: Machine, value: int, start: Regs)
    requires Rep(k, m) && Links(k, m) && m.stacks[m.running].Push? && m.stacks[m.running].below != Empty && CanHalt(k)
    ensures Links(KHalt(k, value, start).0, Popped(m))
  {
    var r, m', k' := m.running, Popped(m), KHalt(k, value, start).0;
    TopInPids(k, m, r);
    assert k.currPid > 2 && k'.pcbs == k.pcbs;
    hide PidsRep, AllPids;
    forall t | Terminal(t) ensures TerminalLinks(k', m', t) {
      if t != r {
        LinksKept(k, m, k', m', t);
      }
    }
  }

  lemma LinksTick(k: Kernel, m: Machine, regs: Regs, start: Regs)
    requires Rep(k, m) && Links(k, m)
    ensures CanTick(k)
    ensures Links(KTick(k, regs, start).0, Step(m, Tick(regs, start)).0)
  {
    var e := Tick(regs, start);
    StepRefines(k, m, e);
    var m', k' := Step(m, e).0, KTick(k, regs, start).0;
    if Booted(m) {
      LinksDispatch(k, m, k', m', regs);
    } else {
      var b := NextTerminal(m);
      NextUnbooted(k, m);
      LinksShell(k, m, BootReady(k, regs, b), b, start, m');
    }
  }

  /** A normal tick writes one saved pair. */
  lemma LinksDispatch(k: Kernel, m: Machine, k': Kernel, m': Machine, regs: Regs)
    requires Rep(k, m) && Links(k, m) && Sized(k') && m'.stacks == m.stacks && k'.active == k.active
    requires IsPid(k.scheduling[k.running]) && k'.pcbs == Saved(k, regs).pcbs
    ensures Links(k', m')
  {
    LinksKept(k, m, k', m', 0);
    LinksKept(k, m, k', m', 1);
    LinksKept(k, m, k', m', 2);
    hide TerminalLinks;
  }

  lemma {:induction false} ReachableLinks(k: Kernel, es: seq<Event>)
    requires Initial(k) && Reach(es).Some?
    ensures KReach(k, es).Some? && Links(KReach(k, es).value, Reach(es).value)
  {
    RunRefines(k, es);
    if es != [] {
      var init, e := es[..|es| - 1], es[|es| - 1];
      ReachableLinks(k, init);
      RunRefines(k, init);
      var k0, m0 := KReach(k, init).value, Reach(init).value;
      hide Links, Rep;
      match e
      case Tick(regs, start) => LinksTick(k0, m0, regs, start);
      case Execute(command, regs) => LinksExecute(k0, m0, command, regs);
      case Halt(value, start) => LinksHalt(k0, m0, value, start);
      case Switch(t) => LinksSwitch(k0, m0, t);
    }
  }

  lemma LinksSwitch(k: Kernel, m: Machine, t: int)
    requires Links(k, m) && Terminal(t)
    ensures Links(k.(viewed := t), m.(viewed := t))
  {
  }

  // ----- Answers -----

  /** What sys_execute answers: 0 for a bare newline; -1 exactly for a null pointer, for what is not executable, and when no
      pid is free; otherwise the least unused pid's program starts. An answer changes no table. */
  lemma ExecuteAnswers(k: Kernel, m: Machine, command: Command, regs: Regs)
    requires Rep(k, m) && Allowed(m, Execute(command, regs))
    ensures Ready(k, Execute(command, regs))
    ensures var (k', o) := KExecute(k, command, regs);
            && (o == Return(0) <==> command == Newline)
            && (o == Return(-1) <==>
                || command == NullPointer || command == NotExecutable
                || (command == Executable && forall p :: 0 <= p < MAX_PIDS ==> k.pids[p] == USED))
            && (o.Enter? <==> command == Executable && exists p :: 0 <= p < MAX_PIDS && k.pids[p] == UNUSED)
            && (o.Enter? ==> 3 <= o.pid < MAX_PIDS && k.pids[o.pid] == UNUSED
                             && forall q :: 0 <= q < o.pid ==> k.pids[q] == USED)
            && (!o.Enter? ==> k' == k)
  {
    ExecuteRefines(k, m, command, regs);
    if command.Executable? {
      FirstUnusedIsLeast(k.pids, AllPids(m), 0);
      FreshPid(m);
    }
  }

  /** Whatever starts a program leaves it on top of the running terminal's stack; a plain answer changes nothing. */
  lemma EnteredRuns(m: Machine, e: Event)
    requires Inv(m) && Allowed(m, e)
    ensures var (m', o) := Step(m, e);
            && |m'.stacks| == 3 && Terminal(m'.running)
            && (o.Enter? ==> m'.stacks[m'.running].Push? && m'.stacks[m'.running].pid == o.pid)
            && (o.Return? ==> m' == m)
  {
  }

  /** A program that execute starts is saved, until it is first preempted, with its own empty kernel stack. */
  lemma StartsOnEmptyStack(k: Kernel, m: Machine, regs: Regs)
    requires Rep(k, m) && Allowed(m, Execute(Executable, regs))
    ensures Ready(k, Execute(Executable, regs))
    ensures var (k', o) := KExecute(k, Executable, regs);
            o.Enter? ==> IsPid(o.pid) && k'.pcbs[o.pid].schedule == Regs(k'.esp0, k'.esp0)
  {
    ExecuteAnswers(k, m, Executable, regs);
    TopInPids(k, m, m.running);
    LaunchedSchedule(k, FirstUnused(k.pids, 0), regs);
    hide Inv, Rep, StackRep, AllPids, Launch;
  }

  lemma LaunchedSchedule(k: Kernel, p: int, regs: Regs)
    ensures CanLaunch(k, p) && p > 2 && k.scheduling[k.viewed] != p ==>
      Launch(k, p, regs).pcbs[p].schedule == Regs(Launch(k, p, regs).esp0, Launch(k, p, regs).esp0)
  {
  }

  /** The terminal in view is the one switched to last. */
  function LastSwitch(es: seq<Event>): int {
    if es == [] then 0
    else if es[|es| - 1].Switch? then es[|es| - 1].terminal
    else LastSwitch(es[..|es| - 1])
  }

  lemma {:induction false} ViewedIsLastSwitch(es: seq<Event>)
    requires Reach(es).Some?
    ensures Reach(es).value.viewed == LastSwitch(es)
  {
    if es != [] {
      ViewedIsLastSwitch(es[..|es| - 1]);
    }
  }
}
