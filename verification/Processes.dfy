/**
 What the scheduler and the process system calls are meant to be: three stacks of programs, one a
 terminal, served round robin. Everything here is about whole histories of this abstract machine;
 module KernelState shows that the kernel's tables implement it.
 */
module Processes {
  import opened Arith
  import opened Bytes
  import opened Terminals

  const MAX_PIDS := 6

  /** A saved pair of stack registers. */
  datatype Regs = Regs(esp: int, ebp: int)

  /** The programs of one terminal: the running one on top, its shell at the bottom, each with the registers
      that the execute call which started it recorded. */
  datatype Stack = Empty | Push(pid: int, ret: Regs, below: Stack)

  /** `saved[t]` is the pair saved when terminal t was last preempted. */
  datatype Machine = Machine(stacks: seq<Stack>, saved: seq<Regs>, running: int, viewed: int)

  /** What sys_execute makes of its argument: a null pointer, a bare newline, something that is not an
      executable file of the image, or an executable file. */
  datatype Command = NullPointer | Newline | NotExecutable | Executable

  datatype Event =
    | Tick(regs: Regs, start: Regs)       // timer: registers on entry, and those read by the execute of a boot tick
    | Execute(command: Command, regs: Regs)
    | Halt(value: int, start: Regs)       // value returned to the parent; registers read when a shell restarts
    | Switch(terminal: int)

  /** How an event leaves the kernel. */
  datatype Outcome =
    | Enter(pid: int)                     // a new program starts in user mode
    | Resume(regs: Regs)                  // a preempted terminal goes on
    | Deliver(regs: Regs, value: int)     // the parent's execute returns value
    | Return(value: int)                  // the call itself returns
    | Done

  function Pids(s: Stack): set<int> {
    match s
    case Empty => {}
    case Push(p, _, below) => {p} + Pids(below)
  }

  function Depth(s: Stack): nat {
    match s
    case Empty => 0
    case Push(_, _, below) => 1 + Depth(below)
  }

  function AllPids(m: Machine): set<int>
    requires |m.stacks| == 3
  {
    Pids(m.stacks[0]) + Pids(m.stacks[1]) + Pids(m.stacks[2])
  }

  /** The terminal's shell at the bottom, under its own pid; above it distinct pids from 3 up. */
  predicate StackShape(t: int, s: Stack) {
    match s
    case Empty => true
    case Push(p, _, below) =>
      if below.Empty? then p == t else 3 <= p < MAX_PIDS && p !in Pids(below) && StackShape(t, below)
  }

  predicate Booted(m: Machine)
    requires |m.stacks| == 3
  {
    m.stacks[0] != Empty && m.stacks[1] != Empty && m.stacks[2] != Empty
  }

  /** Terminals boot in order, and until all have, the last one booted is running. */
  predicate BootOrder(m: Machine)
    requires |m.stacks| == 3
  {
    && (m.stacks[0] == Empty ==> m.stacks[1] == Empty && m.running == 0)
    && (m.stacks[1] == Empty ==> m.stacks[2] == Empty && m.running == 0)
    && (m.stacks[1] != Empty && m.stacks[2] == Empty ==> m.running == 1)
  }

  predicate Disjoint(m: Machine)
    requires |m.stacks| == 3
  {
    && Pids(m.stacks[0]) !! Pids(m.stacks[1])
    && Pids(m.stacks[0]) !! Pids(m.stacks[2])
    && Pids(m.stacks[1]) !! Pids(m.stacks[2])
  }

  predicate Inv(m: Machine) {
    && |m.stacks| == 3 && |m.saved| == 3 && Terminal(m.running) && Terminal(m.viewed)
    && (forall t :: 0 <= t < 3 ==> StackShape(t, m.stacks[t]))
    && Disjoint(m)
    && BootOrder(m)
  }

  /** The least pid from p on that no stack holds, or MAX_PIDS. */
  function LeastFree(used: set<int>, p: int): (r: int)
    requires 0 <= p <= MAX_PIDS
    ensures p <= r <= MAX_PIDS
    ensures forall q :: p <= q < r ==> q in used
    ensures r < MAX_PIDS ==> r !in used
    decreases MAX_PIDS - p
  {
    if p == MAX_PIDS || p !in used then p else LeastFree(used, p + 1)
  }

  /** The circumstances under which the kernel is meant to work: only a running program makes calls, and a
      program is started only after boot, from the terminal in view. */
  predicate Allowed(m: Machine, e: Event)
    requires Inv(m)
  {
    match e
    case Tick(_, _) => true
    case Execute(Executable, _) => Booted(m) && m.viewed == m.running
    case Execute(_, _) => m.stacks[m.running] != Empty
    case Halt(_, _) => m.stacks[m.running] != Empty
    case Switch(t) => Terminal(t)
  }

  function NextTerminal(m: Machine): int
    requires Inv(m)
  {
    if m.stacks[0] == Empty then 0 else if m.stacks[1] == Empty then 1 else if m.stacks[2] == Empty then 2
    else (m.running + 1) % 3
  }

  function Save(m: Machine, regs: Regs): Machine
    requires Inv(m)
  {
    if m.stacks[0] == Empty then m else m.(saved := m.saved[m.running := regs])
  }

  function Step(m: Machine, e: Event): (Machine, Outcome)
    requires Inv(m) && Allowed(m, e)
  {
    var r := m.running;
    match e
    case Tick(regs, start) =>
      var t := NextTerminal(m);
      var m' := Save(m, regs).(running := t);
      if m.stacks[t] == Empty then (m'.(stacks := m.stacks[t := Push(t, start, Empty)]), Enter(t))
      else (m', Resume(m'.saved[t]))
    case Execute(Newline, _) => (m, Return(0))
    case Execute(Executable, regs) =>
      var p := LeastFree(AllPids(m), 0);
      if p == MAX_PIDS then (m, Return(-1))
      else (m.(stacks := m.stacks[r := Push(p, regs, m.stacks[r])]), Enter(p))
    case Execute(_, _) => (m, Return(-1))
    case Halt(value, start) =>
      var top := m.stacks[r];
      if top.below == Empty then (m.(stacks := m.stacks[r := Push(top.pid, start, Empty)]), Enter(top.pid))
      else (m.(stacks := m.stacks[r := top.below]), Deliver(top.ret, value))
    case Switch(t) => (m.(viewed := t), Done)
  }

  // ----- Every step keeps the invariant -----

  lemma {:induction false} ShapePids(t: int, s: Stack)
    requires StackShape(t, s)
    ensures forall p <- Pids(s) :: p == t || 3 <= p < MAX_PIDS
    ensures s != Empty ==> t in Pids(s)
  {
    match s
    case Empty =>
    case Push(_, _, below) =>
      if below != Empty {
        ShapePids(t, below);
      }
  }

  lemma AllShapePids(m: Machine)
    requires Inv(m)
    ensures forall t, p :: 0 <= t < 3 && p in Pids(m.stacks[t]) ==> p == t || 3 <= p < MAX_PIDS
    ensures forall t :: 0 <= t < 3 && m.stacks[t] != Empty ==> t in Pids(m.stacks[t])
  {
    forall t | 0 <= t < 3
      ensures forall p <- Pids(m.stacks[t]) :: p == t || 3 <= p < MAX_PIDS
      ensures m.stacks[t] != Empty ==> t in Pids(m.stacks[t])
    {
      ShapePids(t, m.stacks[t]);
    }
  }

  /** A pid handed out after boot belongs to no base shell. */
  lemma FreshPid(m: Machine)
    requires Inv(m) && Booted(m)
    ensures LeastFree(AllPids(m), 0) >= 3
  {
    AllShapePids(m);
    assert 0 in AllPids(m) && 1 in AllPids(m) && 2 in AllPids(m);
  }

  lemma StepKeepsInv(m: Machine, e: Event)
    requires Inv(m) && Allowed(m, e)
    ensures Inv(Step(m, e).0)
  {
    AllShapePids(m);
    if e.Execute? && e.command == Executable {
      FreshPid(m);
    }
  }

  // ----- Histories -----

  const START := Machine([Empty, Empty, Empty], [Regs(0, 0), Regs(0, 0), Regs(0, 0)], 0, 0)

  /** The machine after a history, if all its events were allowed. */
  function Reach(es: seq<Event>): (r: Option<Machine>) {
    if es == [] then Some(START)
    else
      var r := Reach(es[..|es| - 1]);
      var e := es[|es| - 1];
      if r.Some? && Inv(r.value) && Allowed(r.value, e) then Some(Step(r.value, e).0) else None
  }

  lemma {:induction false} ReachableInv(es: seq<Event>)
    ensures Reach(es).Some? ==> Inv(Reach(es).value)
  {
    if es != [] {
      var init := es[..|es| - 1];
      ReachableInv(init);
      if Reach(es).Some? {
        StepKeepsInv(Reach(init).value, es[|es| - 1]);
      }
    }
  }

  /** How the last event of a history left the kernel. */
  function LastOutcome(es: seq<Event>): Outcome
    requires es != [] && Reach(es).Some?
  {
    Step(Reach(es[..|es| - 1]).value, es[|es| - 1]).1
  }

  function StartRegs(e: Event): Regs
    requires !e.Switch?
  {
    match e
    case Tick(_, start) => start
    case Execute(_, regs) => regs
    case Halt(_, start) => start
  }

  /** Registers read by the most recent event that started pid p, searched in the history alone. */
  function StartedWith(es: seq<Event>, p: int): Regs
    requires Reach(es).Some?
  {
    if es == [] then Regs(0, 0)
    else if LastOutcome(es) == Enter(p) then StartRegs(es[|es| - 1])
    else StartedWith(es[..|es| - 1], p)
  }

  /** Registers on entry to the most recent tick that interrupted terminal t. */
  function PreemptedWith(es: seq<Event>, t: int): Regs
    requires Reach(es).Some?
  {
    if es == [] then Regs(0, 0)
    else
      var m := Reach(es[..|es| - 1]).value;
      var e := es[|es| - 1];
      if e.Tick? && m.stacks[0] != Empty && m.running == t then e.regs
      else PreemptedWith(es[..|es| - 1], t)
  }

  predicate Recorded(es: seq<Event>, s: Stack)
    requires Reach(es).Some?
  {
    match s
    case Empty => true
    case Push(p, ret, below) => ret == StartedWith(es, p) && Recorded(es, below)
  }

  lemma {:induction false} StillRecorded(es: seq<Event>, s: Stack)
    requires es != [] && Reach(es).Some? && Recorded(es[..|es| - 1], s)
    requires LastOutcome(es).Enter? ==> LastOutcome(es).pid !in Pids(s)
    ensures Recorded(es, s)
  {
    match s
    case Empty =>
    case Push(_, _, below) => StillRecorded(es, below);
  }

  /** What an event does to the stack of terminal t, and that no program already on a stack that stays as
      it is, or that only loses its top, is started by it. */
  lemma StackAfter(m: Machine, e: Event, t: int)
    requires Inv(m) && Allowed(m, e) && 0 <= t < 3
    ensures var s, s', o := m.stacks[t], Step(m, e).0.stacks[t], Step(m, e).1;
            || (s' == s && (o.Enter? ==> o.pid !in Pids(s)))
            || (s.Push? && s' == s.below && !o.Enter?)
            || (s'.Push? && s'.below == Empty && !e.Switch? && o == Enter(s'.pid) && s'.ret == StartRegs(e))
            || (s'.Push? && s'.below == s && !e.Switch? && o == Enter(s'.pid) && s'.ret == StartRegs(e) && s'.pid !in Pids(s))
  {
    AllShapePids(m);
    if e.Execute? && e.command == Executable {
      FreshPid(m);
    }
  }

  lemma StepRecords(es: seq<Event>, t: int, m: Machine, m': Machine)
    requires es != [] && 0 <= t < 3
    requires Reach(es[..|es| - 1]) == Some(m) && Reach(es) == Some(m')
    requires Inv(m) && Allowed(m, es[|es| - 1]) && Step(m, es[|es| - 1]).0 == m' && |m'.stacks| == 3
    requires Recorded(es[..|es| - 1], m.stacks[t])
    ensures Recorded(es, m'.stacks[t])
  {
    var e := es[|es| - 1];
    var s, s' := m.stacks[t], m'.stacks[t];
    var o := LastOutcome(es);
    StackAfter(m, e, t);
    hide Reach, Step, Inv, Allowed, StartedWith;
    if o.Enter? {
      StartedNow(es, o.pid);
    }
    if s' == s && (o.Enter? ==> o.pid !in Pids(s)) {
      StillRecorded(es, s);
    } else if s.Push? && s' == s.below && !o.Enter? {
      StillRecorded(es, s');
    } else if s'.below == s && s'.pid !in Pids(s) {
      StillRecorded(es, s);
    }
  }

  lemma StartedNow(es: seq<Event>, p: int)
    requires es != [] && Reach(es).Some? && LastOutcome(es) == Enter(p)
    ensures StartedWith(es, p) == StartRegs(es[|es| - 1])
  {
  }

  /** Every stack frame holds what the history says its program was started with. */
  lemma {:induction false} AllRecorded(es: seq<Event>, t: int)
    requires Reach(es).Some? && 0 <= t < 3
    ensures |Reach(es).value.stacks| == 3 && Recorded(es, Reach(es).value.stacks[t])
  {
    ReachableInv(es);
    if es != [] {
      var init := es[..|es| - 1];
      ReachableInv(init);
      AllRecorded(init, t);
      StepKeepsInv(Reach(init).value, es[|es| - 1]);
      StepRecords(es, t, Reach(init).value, Reach(es).value);
    }
  }

  /** Whatever ticks, nested executes and halts lie between, halting a child resumes its parent with exactly the
      registers recorded by the execute that created that child. */
  lemma HaltResumesCreator(es: seq<Event>, m: Machine, value: int, start: Regs)
    requires Reach(es) == Some(m) && (ReachableInv(es); Depth(m.stacks[m.running]) > 1)
    ensures Inv(m) && Allowed(m, Halt(value, start))
    ensures Step(m, Halt(value, start)).1 == Deliver(StartedWith(es, m.stacks[m.running].pid), value)
  {
    ReachableInv(es);
    AllRecorded(es, m.running);
  }

  lemma {:induction false} AllSaved(es: seq<Event>, t: int)
    requires Reach(es).Some? && 0 <= t < 3
    requires t != Reach(es).value.running && Reach(es).value.stacks[t] != Empty
    ensures Reach(es).value.saved[t] == PreemptedWith(es, t)
  {
    var init := es[..|es| - 1];
    var m, e := Reach(init).value, es[|es| - 1];
    ReachableInv(init);
    if t != m.running {
      AllSaved(init, t);
    } else {
      assert e.Tick?;
    }
  }

  /** After boot each tick resumes the next terminal with exactly the registers saved at its last preemption. */
  lemma TickResumesPreempted(es: seq<Event>, m: Machine, regs: Regs, start: Regs)
    requires Reach(es) == Some(m) && (ReachableInv(es); Booted(m))
    ensures Inv(m) && Step(m, Tick(regs, start)).1 == Resume(PreemptedWith(es, (m.running + 1) % 3))
  {
    ReachableInv(es);
    hide Reach, PreemptedWith;
    var t := (m.running + 1) % 3;
    AllSaved(es, t);
  }

  lemma StepRunning(m: Machine, e: Event)
    requires Inv(m) && Allowed(m, e)
    ensures var m' := Step(m, e).0;
            && m'.running == (if e.Tick? then NextTerminal(m) else m.running)
            && |m'.stacks| == 3
            && forall t :: 0 <= t < 3 ==> (m'.stacks[t] != Empty <==> m.stacks[t] != Empty || (e.Tick? && t == NextTerminal(m)))
  {
  }

  function Ticks(es: seq<Event>): nat {
    if es == [] then 0 else Ticks(es[..|es| - 1]) + if es[|es| - 1].Tick? then 1 else 0
  }

  /** The state of the round robin after n ticks. */
  predicate ByTicks(m: Machine, n: nat) {
    && |m.stacks| == 3
    && (forall t :: 0 <= t < 3 ==> (m.stacks[t] != Empty <==> n > t))
    && (n > 0 ==> m.running == (n - 1) % 3)
  }

  lemma NextByTicks(m: Machine, n: nat)
    requires Inv(m) && ByTicks(m, n)
    ensures NextTerminal(m) == n % 3 && (n < 3 ==> NextTerminal(m) == n)
  {
    hide StackShape, Disjoint, AllPids;
    if n >= 3 {
      ModSuccessor(n - 1, 3);
    }
  }

  lemma ByTicksStep(m: Machine, e: Event, n: nat)
    requires Inv(m) && Allowed(m, e) && ByTicks(m, n)
    ensures ByTicks(Step(m, e).0, if e.Tick? then n + 1 else n)
  {
    NextByTicks(m, n);
    StepRunning(m, e);
    hide Step, Inv, Allowed, NextTerminal;
  }

  /** Round robin: who runs depends on the number of ticks alone, and the first three boot the terminals. */
  lemma {:induction false} RoundRobin(es: seq<Event>)
    requires Reach(es).Some?
    ensures ByTicks(Reach(es).value, Ticks(es))
  {
    if es != [] {
      var init := es[..|es| - 1];
      RoundRobin(init);
      ReachableInv(init);
      ByTicksStep(Reach(init).value, es[|es| - 1], Ticks(init));
      hide ByTicks, Step, Inv, Allowed;
    }
  }
}
