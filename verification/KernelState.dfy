/**
 The kernel's process tables as values, the effect of each kernel entry on them, and the proof that they
 implement the stacks of module Processes: the links through parent_pid, the pid array, the scheduling
 array and the saved registers always represent one such machine.
 */
module KernelState {
  import opened Bytes
  import opened Processes
  import opened Terminals

  const EIGHT_MB := 0x80_0000
  const EIGHT_KB := 0x2000
  const USED := 1
  const UNUSED := 0

  datatype Pcb = Pcb(baseKernelStack: int, currPid: int, parentPid: int, childPid: int, termId: int,
                     oldRegs: Regs, oldEsp0: int, schedule: Regs)

  datatype Kernel = Kernel(pids: seq<int>, pcbs: seq<Pcb>, scheduling: seq<int>, active: seq<int>,
                           running: int, viewed: int, currPid: int, esp0: int)

  predicate Sized(k: Kernel) {
    && |k.pids| == MAX_PIDS && |k.pcbs| == MAX_PIDS && |k.scheduling| == 3 && |k.active| == 3
    && Terminal(k.running) && Terminal(k.viewed)
  }

  predicate IsPid(p: int) {
    0 <= p < MAX_PIDS
  }

  /** Top of the 8 KB kernel stack of a process. */
  function StackTop(p: int): int {
    EIGHT_MB - p * EIGHT_KB
  }

  function FirstUnused(pids: seq<int>, p: int): (r: int)
    requires |pids| == MAX_PIDS && 0 <= p <= MAX_PIDS
    ensures p <= r <= MAX_PIDS
    ensures forall q :: p <= q < r ==> pids[q] != UNUSED
    ensures r < MAX_PIDS ==> pids[r] == UNUSED
    decreases MAX_PIDS - p
  {
    if p == MAX_PIDS || pids[p] == UNUSED then p else FirstUnused(pids, p + 1)
  }

  function InitPcb(pcb: Pcb, p: int, viewed: int): Pcb {
    pcb.(parentPid := 0, childPid := 0, baseKernelStack := StackTop(p), currPid := p, termId := viewed)
  }

  predicate CanLaunch(k: Kernel, p: int) {
    Sized(k) && IsPid(p) && (p > 2 ==> IsPid(k.scheduling[k.viewed]))
  }

  /** sys_execute from the allocation of pid p on. */
  function Launch(k: Kernel, p: int, regs: Regs): Kernel
    requires CanLaunch(k, p)
  {
    var child := InitPcb(k.pcbs[p], p, k.viewed).(oldRegs := regs, oldEsp0 := k.esp0);
    var k' := k.(pids := k.pids[p := USED], currPid := p, esp0 := StackTop(p));
    if p <= 2 then
      k'.(pcbs := k.pcbs[p := child.(termId := k.running, schedule := regs)],
          active := k.active[k.running := p], scheduling := k.scheduling[k.running := p])
    else
      var parent := k.scheduling[k.viewed];
      var top := StackTop(p);
      var pcbs := k.pcbs[p := child.(parentPid := parent, schedule := Regs(top, top))];
      k'.(pcbs := pcbs[parent := pcbs[parent].(childPid := p)],
          active := k.active[k.viewed := p], scheduling := k.scheduling[k.viewed := p])
  }

  function KExecute(k: Kernel, command: Command, regs: Regs): (Kernel, Outcome)
    requires Sized(k) && CanLaunch(k, if FirstUnused(k.pids, 0) < MAX_PIDS then FirstUnused(k.pids, 0) else 0)
  {
    match command
    case Newline => (k, Return(0))
    case Executable =>
      var p := FirstUnused(k.pids, 0);
      if p == MAX_PIDS then (k, Return(-1)) else (Launch(k, p, regs), Enter(p))
    case _ => (k, Return(-1))
  }

  // ----- Representation of the stacks -----

  /** Following parent_pid from the top of the stack goes down the stack, and the pcbs agree. */
  predicate StackRep(pcbs: seq<Pcb>, t: int, s: Stack)
    requires |pcbs| == MAX_PIDS
  {
    match s
    case Empty => true
    case Push(p, ret, below) =>
      && IsPid(p) && pcbs[p].termId == t && pcbs[p].currPid == p
      && (below != Empty ==> pcbs[p].parentPid == below.pid && pcbs[p].oldRegs == ret)
      && StackRep(pcbs, t, below)
  }

  function Top(s: Stack): int {
    if s == Empty then -1 else s.pid
  }

  predicate PidsRep(pids: seq<int>, used: set<int>)
    requires |pids| == MAX_PIDS
  {
    forall p :: 0 <= p < MAX_PIDS ==> pids[p] == if p in used then USED else UNUSED
  }

  predicate TerminalRep(k: Kernel, m: Machine, t: int)
    requires Sized(k) && |m.stacks| == 3 && |m.saved| == 3 && Terminal(t)
  {
    && StackRep(k.pcbs, t, m.stacks[t])
    && k.scheduling[t] == Top(m.stacks[t])
    && (t != k.running && m.stacks[t] != Empty ==> k.pcbs[m.stacks[t].pid].schedule == m.saved[t])
  }

  /** The running program is the top of the running terminal's stack, on its own kernel stack. */
  predicate RunningRep(k: Kernel, m: Machine)
    requires Sized(k) && |m.stacks| == 3
  {
    m.stacks[k.running] != Empty ==>
      k.currPid == m.stacks[k.running].pid == k.scheduling[k.running] && k.esp0 == StackTop(k.currPid)
  }

  predicate Rep(k: Kernel, m: Machine) {
    && Sized(k) && Inv(m) && k.running == m.running && k.viewed == m.viewed
    && TerminalRep(k, m, 0) && TerminalRep(k, m, 1) && TerminalRep(k, m, 2)
    && PidsRep(k.pids, AllPids(m))
    && RunningRep(k, m)
  }

  predicate SameLinks(a: Pcb, b: Pcb) {
    a.termId == b.termId && a.currPid == b.currPid && a.parentPid == b.parentPid && a.oldRegs == b.oldRegs
  }

  lemma {:induction false} StackFrame(pcbs: seq<Pcb>, pcbs': seq<Pcb>, t: int, s: Stack)
    requires |pcbs| == |pcbs'| == MAX_PIDS && StackRep(pcbs, t, s)
    requires forall p :: p in Pids(s) && 0 <= p < MAX_PIDS ==> SameLinks(pcbs[p], pcbs'[p])
    ensures StackRep(pcbs', t, s)
  {
    match s
    case Empty =>
    case Push(p, _, below) =>
      assert p in Pids(s) && Pids(below) <= Pids(s);
      StackFrame(pcbs, pcbs', t, below);
  }

  lemma FirstUnusedIsLeast(pids: seq<int>, used: set<int>, p: int)
    requires |pids| == MAX_PIDS && 0 <= p <= MAX_PIDS && PidsRep(pids, used)
    ensures FirstUnused(pids, p) == LeastFree(used, p)
    decreases MAX_PIDS - p
  {
    if p < MAX_PIDS {
      FirstUnusedIsLeast(pids, used, p + 1);
    }
  }

  /** A terminal whose stack, links and saved registers an operation leaves alone. */
  lemma TerminalKept(k: Kernel, m: Machine, k': Kernel, m': Machine, t: int)
    requires Sized(k) && Sized(k') && |m.stacks| == |m.saved| == |m'.stacks| == |m'.saved| == 3 && Terminal(t)
    requires TerminalRep(k, m, t) && m'.stacks[t] == m.stacks[t] && k'.scheduling[t] == k.scheduling[t]
    requires forall p :: p in Pids(m.stacks[t]) && 0 <= p < MAX_PIDS ==> SameLinks(k.pcbs[p], k'.pcbs[p])
    requires t != k'.running && m.stacks[t] != Empty ==>
      t != k.running && m'.saved[t] == m.saved[t] && k'.pcbs[m.stacks[t].pid].schedule == k.pcbs[m.stacks[t].pid].schedule
    ensures TerminalRep(k', m', t)
  {
    StackFrame(k.pcbs, k'.pcbs, t, m.stacks[t]);
  }

  /** A new program on top of terminal t's stack. */
  lemma TerminalPushed(k: Kernel, m: Machine, k': Kernel, m': Machine, t: int)
    requires Sized(k) && Sized(k') && |m.stacks| == |m.saved| == |m'.stacks| == |m'.saved| == 3 && Terminal(t)
    requires StackRep(k.pcbs, t, m.stacks[t]) && m'.stacks[t].Push? && m'.stacks[t].below == m.stacks[t] && k'.running == t
    requires forall p :: p in Pids(m.stacks[t]) && 0 <= p < MAX_PIDS ==> SameLinks(k.pcbs[p], k'.pcbs[p])
    requires var p := m'.stacks[t].pid;
      && IsPid(p) && k'.scheduling[t] == p && k'.pcbs[p].termId == t && k'.pcbs[p].currPid == p
      && (m.stacks[t] != Empty ==> k'.pcbs[p].parentPid == m.stacks[t].pid && k'.pcbs[p].oldRegs == m'.stacks[t].ret)
    ensures TerminalRep(k', m', t)
  {
    StackFrame(k.pcbs, k'.pcbs, t, m.stacks[t]);
  }

  function Pushed(m: Machine, p: int, regs: Regs): Machine
    requires |m.stacks| == 3 && Terminal(m.running)
  {
    m.(stacks := m.stacks[m.running := Push(p, regs, m.stacks[m.running])])
  }

  lemma PushedPids(m: Machine, p: int, regs: Regs)
    requires |m.stacks| == 3 && Terminal(m.running)
    ensures AllPids(Pushed(m, p, regs)) == AllPids(m) + {p}
  {
  }

  lemma TopInPids(k: Kernel, m: Machine, t: int)
    requires Rep(k, m) && Terminal(t) && m.stacks[t] != Empty
    ensures IsPid(k.scheduling[t]) && k.scheduling[t] == m.stacks[t].pid && k.scheduling[t] in Pids(m.stacks[t])
    ensures k.pcbs[k.scheduling[t]].currPid == k.scheduling[t]
    ensures StackRep(k.pcbs, t, m.stacks[t])
  {
  }

  /** Starting a program after boot from the terminal in view pushes it on that terminal's stack. */
  lemma LaunchPushes(k: Kernel, m: Machine, regs: Regs)
    requires Rep(k, m) && Booted(m) && m.viewed == m.running && FirstUnused(k.pids, 0) < MAX_PIDS
    ensures var p := FirstUnused(k.pids, 0);
            && p == LeastFree(AllPids(m), 0) && CanLaunch(k, p)
            && Rep(Launch(k, p, regs), Pushed(m, p, regs))
  {
    var p, r := FirstUnused(k.pids, 0), m.running;
    FirstUnusedIsLeast(k.pids, AllPids(m), 0);
    FreshPid(m);
    StepKeepsInv(m, Execute(Executable, regs));
    var m' := Pushed(m, p, regs);
    assert Inv(m') && p !in AllPids(m) && 3 <= p;
    TopInPids(k, m, r);
    LaunchPushesRep(k, m, p, regs);
  }

  lemma PushTerminal(k: Kernel, m: Machine, p: int, regs: Regs, t: int)
    requires Rep(k, m) && 3 <= p < MAX_PIDS && p !in AllPids(m) && m.viewed == m.running && Terminal(t)
    requires m.stacks[m.running] != Empty && CanLaunch(k, p)
    ensures TerminalRep(Launch(k, p, regs), Pushed(m, p, regs), t)
  {
    var m', k' := Pushed(m, p, regs), Launch(k, p, regs);
    TopInPids(k, m, m.running);
    assert forall q :: 0 <= q < MAX_PIDS && q != p ==> SameLinks(k.pcbs[q], k'.pcbs[q]) && k'.pcbs[q].schedule == k.pcbs[q].schedule;
    assert p !in Pids(m.stacks[t]);
    if t == m.running {
      TerminalPushed(k, m, k', m', t);
    } else {
      TerminalKept(k, m, k', m', t);
    }
  }

  lemma LaunchPushesRep(k: Kernel, m: Machine, p: int, regs: Regs)
    requires Rep(k, m) && 3 <= p < MAX_PIDS && p !in AllPids(m) && m.viewed == m.running
    requires m.stacks[m.running] != Empty && CanLaunch(k, p) && Inv(Pushed(m, p, regs))
    ensures Rep(Launch(k, p, regs), Pushed(m, p, regs))
  {
    PushTerminal(k, m, p, regs, 0);
    PushTerminal(k, m, p, regs, 1);
    PushTerminal(k, m, p, regs, 2);
    PushedPids(m, p, regs);
  }

  // ----- sys_halt -----

  predicate CanHalt(k: Kernel) {
    && Sized(k) && IsPid(k.currPid)
    && k.pcbs[k.currPid].currPid == k.currPid && Terminal(k.pcbs[k.currPid].termId)
  }

  function KHalt(k: Kernel, value: int, start: Regs): (Kernel, Outcome)
    requires CanHalt(k)
  {
    var pcb := k.pcbs[k.currPid];
    var freed := k.(pids := k.pids[pcb.currPid := UNUSED]);
    if k.currPid <= 2 then
      assert FirstUnused(freed.pids, 0) <= k.currPid;
      KExecute(freed, Executable, start)
    else
      (freed.(esp0 := StackTop(pcb.parentPid), currPid := pcb.parentPid,
              active := k.active[pcb.termId := pcb.parentPid],
              scheduling := k.scheduling[pcb.termId := pcb.parentPid]),
       Deliver(pcb.oldRegs, value))
  }

  function Popped(m: Machine): Machine
    requires |m.stacks| == 3 && Terminal(m.running) && m.stacks[m.running] != Empty
  {
    m.(stacks := m.stacks[m.running := m.stacks[m.running].below])
  }

  lemma PoppedPids(m: Machine)
    requires Inv(m) && Depth(m.stacks[m.running]) > 1
    ensures AllPids(Popped(m)) == AllPids(m) - {m.stacks[m.running].pid}
  {
    AllShapePids(m);
  }

  /** Halting a program that another one started pops it. */
  lemma HaltPops(k: Kernel, m: Machine, value: int, start: Regs)
    requires Rep(k, m) && Depth(m.stacks[m.running]) > 1 && Inv(Popped(m))
    ensures CanHalt(k) && k.currPid > 2
    ensures KHalt(k, value, start).1 == Deliver(m.stacks[m.running].ret, value)
    ensures Rep(KHalt(k, value, start).0, Popped(m))
  {
    var r := m.running;
    TopInPids(k, m, r);
    PoppedPids(m);
    var k', m' := KHalt(k, value, start).0, Popped(m);
    forall t | Terminal(t) ensures TerminalRep(k', m', t) {
      if t != r {
        TerminalKept(k, m, k', m', t);
      }
    }
  }

  /** Halting a terminal's shell starts it again under the same pid. */
  lemma HaltRestarts(k: Kernel, m: Machine, value: int, start: Regs)
    requires Rep(k, m) && Depth(m.stacks[m.running]) == 1
    ensures CanHalt(k) && k.currPid == m.running
    ensures KHalt(k, value, start).1 == Enter(m.running)
    ensures var m' := m.(stacks := m.stacks[m.running := Push(m.running, start, Empty)]);
            Inv(m') ==> Rep(KHalt(k, value, start).0, m')
  {
    var r := m.running;
    TopInPids(k, m, r);
    AllShapePids(m);
    var freed := k.(pids := k.pids[r := UNUSED]);
    assert forall q :: 0 <= q < r ==> q in Pids(m.stacks[q]) && q in AllPids(m) && freed.pids[q] == USED;
    assert FirstUnused(freed.pids, 0) == r;
    var k', m' := KHalt(k, value, start).0, m.(stacks := m.stacks[r := Push(r, start, Empty)]);
    assert AllPids(m') == AllPids(m);
    RestartRep(k, m, k', m', start);
  }

  lemma RestartRep(k: Kernel, m: Machine, k': Kernel, m': Machine, start: Regs)
    requires Rep(k, m) && Depth(m.stacks[m.running]) == 1 && m.stacks[m.running].pid == m.running
    requires CanLaunch(k, m.running)
    requires m' == m.(stacks := m.stacks[m.running := Push(m.running, start, Empty)]) && AllPids(m') == AllPids(m)
    requires k' == Launch(k.(pids := k.pids[m.running := UNUSED]), m.running, start)
    ensures Inv(m') ==> Rep(k', m')
  {
    var r := m.running;
    TopInPids(k, m, r);
    assert r in AllPids(m);
    if Inv(m') {
      forall t | Terminal(t) ensures TerminalRep(k', m', t) {
        if t != r {
          TerminalKept(k, m, k', m', t);
        }
      }
    }
  }

  // ----- schedule -----

  predicate CanTick(k: Kernel) {
    && Sized(k)
    && (k.scheduling[0] == -1 ==> FirstUnused(k.pids, 0) <= 2)
    && (k.scheduling[0] != -1 ==> IsPid(k.scheduling[k.running]))
    && (k.scheduling[0] != -1 && (k.scheduling[1] == -1 || k.scheduling[2] == -1) ==> FirstUnused(k.pids, 0) <= 2)
    && (k.scheduling[0] != -1 && k.scheduling[1] != -1 && k.scheduling[2] != -1 ==>
          forall t :: 0 <= t < 3 ==> IsPid(k.scheduling[t]) && k.pcbs[k.scheduling[t]].currPid == k.scheduling[t])
  }

  function Saved(k: Kernel, regs: Regs): Kernel
    requires Sized(k) && IsPid(k.scheduling[k.running])
  {
    var cur := k.scheduling[k.running];
    k.(pcbs := k.pcbs[cur := k.pcbs[cur].(schedule := regs)])
  }

  function KTick(k: Kernel, regs: Regs, start: Regs): (Kernel, Outcome)
    requires CanTick(k)
  {
    if k.scheduling[0] == -1 then KExecute(k, Executable, start)
    else if k.scheduling[1] == -1 then KExecute(Saved(k, regs).(running := 1), Executable, start)
    else if k.scheduling[2] == -1 then KExecute(Saved(k, regs).(running := 2), Executable, start)
    else
      var next := (1 + k.running) % 3;
      var q := k.scheduling[next];
      var k' := Saved(k, regs);
      (k'.(running := next, currPid := k'.pcbs[q].currPid, esp0 := StackTop(q)), Resume(k'.pcbs[q].schedule))
  }

  function Dispatched(m: Machine, regs: Regs): Machine
    requires |m.saved| == 3 && Terminal(m.running)
  {
    m.(saved := m.saved[m.running := regs], running := (1 + m.running) % 3)
  }

  lemma DispatchTerminal(k: Kernel, m: Machine, k': Kernel, regs: Regs, t: int)
    requires Rep(k, m) && m.stacks[m.running] != Empty && Terminal(t) && Sized(k')
    requires k'.pcbs == Saved(k, regs).pcbs && k'.scheduling == k.scheduling && k'.running == (1 + k.running) % 3
    requires IsPid(k.scheduling[k.running])
    ensures TerminalRep(k', Dispatched(m, regs), t)
  {
    TopInPids(k, m, m.running);
    StackFrame(k.pcbs, k'.pcbs, t, m.stacks[t]);
    if t != m.running && m.stacks[t] != Empty {
      TopInPids(k, m, t);
      assert k.scheduling[t] != k.scheduling[m.running];
    }
  }

  /** A normal tick saves the pair of the running terminal and resumes the next with the pair saved for it. */
  lemma TickDispatches(k: Kernel, m: Machine, regs: Regs, start: Regs)
    requires Rep(k, m) && Booted(m)
    ensures CanTick(k)
    ensures Rep(KTick(k, regs, start).0, Dispatched(m, regs))
    ensures KTick(k, regs, start).1 == Resume(m.saved[(1 + m.running) % 3])
  {
    TopInPids(k, m, 0);
    TopInPids(k, m, 1);
    TopInPids(k, m, 2);
    var k', m' := KTick(k, regs, start).0, Dispatched(m, regs);
    assert Inv(m') by {
      StepKeepsInv(m, Tick(regs, start));
      assert m' == Step(m, Tick(regs, start)).0;
    }
    DispatchTerminal(k, m, k', regs, 0);
    DispatchTerminal(k, m, k', regs, 1);
    DispatchTerminal(k, m, k', regs, 2);
  }

  /** State in which a boot tick enters sys_execute: the last booted terminal saved, the next one selected. */
  function BootReady(k: Kernel, regs: Regs, t: int): Kernel
    requires Sized(k) && Terminal(t) && (t > 0 ==> IsPid(k.scheduling[k.running]))
  {
    if t == 0 then k else Saved(k, regs).(running := t)
  }

  function BootedNext(m: Machine, regs: Regs, start: Regs, t: int): Machine
    requires Inv(m) && Terminal(t)
  {
    Save(m, regs).(running := t, stacks := m.stacks[t := Push(t, start, Empty)])
  }

  lemma BootTerminal(k: Kernel, m: Machine, k': Kernel, regs: Regs, start: Regs, b: int, t: int)
    requires Rep(k, m) && Terminal(b) && Terminal(t) && b == NextTerminal(m) && m.stacks[b] == Empty
    requires (b > 0 ==> IsPid(k.scheduling[k.running])) && CanLaunch(BootReady(k, regs, b), b)
    requires k' == Launch(BootReady(k, regs, b), b, start)
    ensures TerminalRep(k', BootedNext(m, regs, start, b), t)
  {
    AllShapePids(m);
    if t != b {
      if m.stacks[t] != Empty {
        TopInPids(k, m, t);
        TopInPids(k, m, m.running);
      }
      StackFrame(k.pcbs, k'.pcbs, t, m.stacks[t]);
    }
  }

  /** The first three ticks start the three shells, each under its terminal's number as pid. */
  lemma TickBoots(k: Kernel, m: Machine, regs: Regs, start: Regs)
    requires Rep(k, m) && !Booted(m)
    ensures CanTick(k)
    ensures KTick(k, regs, start).1 == Enter(NextTerminal(m))
    ensures Rep(KTick(k, regs, start).0, BootedNext(m, regs, start, NextTerminal(m)))
  {
    var b := NextTerminal(m);
    NextUnbooted(k, m);
    BootedIsStep(m, regs, start);
    var k', m' := KTick(k, regs, start).0, BootedNext(m, regs, start, b);
    assert k' == Launch(BootReady(k, regs, b), b, start);
    BootRep(k, m, k', regs, start, b);
    hide Inv, Rep, AllPids;
  }

  /** The next terminal to boot is the first unused pid. */
  lemma NextUnbooted(k: Kernel, m: Machine)
    requires Rep(k, m) && !Booted(m)
    ensures var b := NextTerminal(m);
            && Terminal(b) && m.stacks[b] == Empty && FirstUnused(k.pids, 0) == b
            && (b > 0 ==> IsPid(k.scheduling[k.running]) && k.scheduling[0] != -1)
            && (forall t :: 0 <= t < 3 ==> (k.scheduling[t] == -1 <==> t >= b))
  {
    var b := NextTerminal(m);
    AllShapePids(m);
    if b > 0 {
      TopInPids(k, m, m.running);
      TopInPids(k, m, 0);
    }
    assert forall q :: 0 <= q < b ==> q in Pids(m.stacks[q]) && q in AllPids(m) && k.pids[q] == USED;
    assert b !in AllPids(m) && k.pids[b] == UNUSED;
  }

  lemma BootedIsStep(m: Machine, regs: Regs, start: Regs)
    requires Inv(m) && !Booted(m)
    ensures var b := NextTerminal(m); var m' := BootedNext(m, regs, start, b);
            Inv(m') && AllPids(m') == AllPids(m) + {b}
  {
    var b := NextTerminal(m);
    StepKeepsInv(m, Tick(regs, start));
    assert BootedNext(m, regs, start, b) == Step(m, Tick(regs, start)).0;
  }

  lemma BootRep(k: Kernel, m: Machine, k': Kernel, regs: Regs, start: Regs, b: int)
    requires Rep(k, m) && Terminal(b) && b == NextTerminal(m) && m.stacks[b] == Empty
    requires (b > 0 ==> IsPid(k.scheduling[k.running])) && CanLaunch(BootReady(k, regs, b), b)
    requires k' == Launch(BootReady(k, regs, b), b, start)
    requires Inv(BootedNext(m, regs, start, b))
    requires AllPids(BootedNext(m, regs, start, b)) == AllPids(m) + {b}
    ensures Rep(k', BootedNext(m, regs, start, b))
  {
    BootTerminal(k, m, k', regs, start, b, 0);
    BootTerminal(k, m, k', regs, start, b, 1);
    BootTerminal(k, m, k', regs, start, b, 2);
  }

  // ----- Exactly when sys_execute is right -----

  /** With a program running and a pid to be had, starting a program leaves tables that represent some machine
      exactly when all terminals have booted and the running terminal is the one in view. */
  lemma LaunchRepIff(k: Kernel, m: Machine, regs: Regs)
    requires Rep(k, m) && m.stacks[m.running] != Empty && FirstUnused(k.pids, 0) < MAX_PIDS
    requires CanLaunch(k, FirstUnused(k.pids, 0))
    ensures (exists m' :: Rep(Launch(k, FirstUnused(k.pids, 0), regs), m')) <==> Booted(m) && m.viewed == m.running
  {
    var p := FirstUnused(k.pids, 0);
    var k' := Launch(k, p, regs);
    if Booted(m) && m.viewed == m.running {
      LaunchPushes(k, m, regs);
    } else {
      TopInPids(k, m, m.running);
      AllShapePids(m);
      if p > 2 {
        // the program in view was pushed, but another one is running
        assert Booted(m) by {
          if !Booted(m) { UnbootedPid(k, m, NextTerminal(m)); }
        }
        assert k'.scheduling[m.running] != k'.currPid;
      } else {
        // the new program took a shell's pid, though another terminal is running
        assert k'.scheduling[m.running] == p != m.running by {
          assert m.running in Pids(m.stacks[m.running]) && k.pids[m.running] == USED;
        }
      }
      forall m' ensures !Rep(k', m') {
        NotRep(k', m');
      }
    }
  }

  lemma NotRep(k: Kernel, m: Machine)
    requires Sized(k) && k.scheduling[k.running] != -1
    requires k.scheduling[k.running] != k.currPid || (k.scheduling[k.running] <= 2 && k.scheduling[k.running] != k.running)
    ensures !Rep(k, m)
  {
  }

  // ----- Whole runs -----

  /** What each kernel entry needs from the tables. */
  predicate Ready(k: Kernel, e: Event) {
    match e
    case Tick(_, _) => CanTick(k)
    case Execute(_, _) => Sized(k) && CanLaunch(k, if FirstUnused(k.pids, 0) < MAX_PIDS then FirstUnused(k.pids, 0) else 0)
    case Halt(_, _) => CanHalt(k)
    case Switch(t) => Terminal(t)
  }

  function KStep(k: Kernel, e: Event): (Kernel, Outcome)
    requires Ready(k, e)
  {
    match e
    case Tick(regs, start) => KTick(k, regs, start)
    case Execute(command, regs) => KExecute(k, command, regs)
    case Halt(value, start) => KHalt(k, value, start)
    case Switch(t) => (k.(viewed := t), Done)
  }

  /** One step of the tables is one step of the machine they represent, with the same outcome. */
  lemma StepRefines(k: Kernel, m: Machine, e: Event)
    requires Rep(k, m) && Allowed(m, e)
    ensures Ready(k, e)
    ensures Rep(KStep(k, e).0, Step(m, e).0)
    ensures KStep(k, e).1 == Step(m, e).1
  {
    match e
    case Tick(regs, start) =>
      if Booted(m) {
        TickDispatches(k, m, regs, start);
      } else {
        TickBoots(k, m, regs, start);
      }
    case Execute(command, regs) =>
      ExecuteRefines(k, m, command, regs);
    case Halt(value, start) =>
      StepKeepsInv(m, e);
      if m.stacks[m.running].below == Empty {
        HaltRestarts(k, m, value, start);
      } else {
        HaltPops(k, m, value, start);
      }
    case Switch(t) =>
      SwitchRefines(k, m, t);
  }

  lemma ExecuteRefines(k: Kernel, m: Machine, command: Command, regs: Regs)
    requires Rep(k, m) && Allowed(m, Execute(command, regs))
    ensures Ready(k, Execute(command, regs))
    ensures Rep(KExecute(k, command, regs).0, Step(m, Execute(command, regs)).0)
    ensures KExecute(k, command, regs).1 == Step(m, Execute(command, regs)).1
  {
    FirstUnusedIsLeast(k.pids, AllPids(m), 0);
    if m.stacks[m.viewed] != Empty {
      TopInPids(k, m, m.viewed);
    } else {
      assert FirstUnused(k.pids, 0) <= 2 by { UnbootedPid(k, m, m.viewed); }
    }
    if command == Executable && FirstUnused(k.pids, 0) < MAX_PIDS {
      LaunchPushes(k, m, regs);
    }
  }

  lemma UnbootedPid(k: Kernel, m: Machine, t: int)
    requires Rep(k, m) && Terminal(t) && m.stacks[t] == Empty
    ensures FirstUnused(k.pids, 0) <= t
  {
    AllShapePids(m);
    assert t !in AllPids(m);
  }

  lemma SwitchRefines(k: Kernel, m: Machine, t: int)
    requires Rep(k, m) && Terminal(t)
    ensures Rep(k.(viewed := t), m.(viewed := t))
  {
    var k', m' := k.(viewed := t), m.(viewed := t);
    assert TerminalRep(k', m', 0) && TerminalRep(k', m', 1) && TerminalRep(k', m', 2);
  }

  /** The tables as syscall_init and initial_boot leave them; the pcbs are whatever memory held. */
  predicate Initial(k: Kernel) {
    && Sized(k)
    && (forall p :: 0 <= p < MAX_PIDS ==> k.pids[p] == UNUSED)
    && (forall t :: 0 <= t < 3 ==> k.scheduling[t] == -1)
    && k.running == 0 && k.viewed == 0
  }

  function KReach(k: Kernel, es: seq<Event>): Option<Kernel> {
    if es == [] then Some(k)
    else
      var r := KReach(k, es[..|es| - 1]);
      var e := es[|es| - 1];
      if r.Some? && Ready(r.value, e) then Some(KStep(r.value, e).0) else None
  }

  /** In every reachable state the tables represent the machine of the same history. */
  lemma {:induction false} RunRefines(k: Kernel, es: seq<Event>)
    requires Initial(k) && Reach(es).Some?
    ensures KReach(k, es).Some? && Rep(KReach(k, es).value, Reach(es).value)
  {
    if es == [] {
      assert Rep(k, START);
    } else {
      var init := es[..|es| - 1];
      RunRefines(k, init);
      StepRefines(KReach(k, init).value, Reach(init).value, es[|es| - 1]);
    }
  }

  // ----- What a reader of the tables can rely on -----

  /** The machine after the three boot ticks. */
  lemma AfterBoot(es: seq<Event>)
    requires |es| == 3 && es[0].Tick? && es[1].Tick? && es[2].Tick?
    ensures Reach(es).Some?
    ensures var m := Reach(es).value;
            Inv(m) && Booted(m) && m.running == 2 && m.viewed == 0 && AllPids(m) == {0, 1, 2}
  {
    assert es[..2][..1] == es[..1] && es[..1][..0] == [];
    var m1 := Step(START, es[0]).0;
    StepKeepsInv(START, es[0]);
    assert Reach(es[..1]) == Some(m1);
    assert m1.stacks == [Push(0, es[0].start, Empty), Empty, Empty];
    var m2 := Step(m1, es[1]).0;
    StepKeepsInv(m1, es[1]);
    assert Reach(es[..2]) == Some(m2);
    assert m2.stacks == [Push(0, es[0].start, Empty), Push(1, es[1].start, Empty), Empty];
    var m3 := Step(m2, es[2]).0;
    StepKeepsInv(m2, es[2]);
    assert m3.stacks == [Push(0, es[0].start, Empty), Push(1, es[1].start, Empty), Push(2, es[2].start, Empty)];
  }

  /** A launch that spoils the tables is within reach: after the boot ticks terminal 2 runs, terminal 0 is in view. */
  lemma LaunchUnviewed(k: Kernel, es: seq<Event>, regs: Regs)
    requires Initial(k) && |es| == 3 && es[0].Tick? && es[1].Tick? && es[2].Tick?
    ensures Reach(es).Some? && KReach(k, es).Some?
    ensures var m, k' := Reach(es).value, KReach(k, es).value;
            && Rep(k', m) && FirstUnused(k'.pids, 0) == 3 && CanLaunch(k', 3)
            && forall m' :: !Rep(Launch(k', 3, regs), m')
  {
    AfterBoot(es);
    RunRefines(k, es);
    var m, k' := Reach(es).value, KReach(k, es).value;
    hide Reach, KReach;
    assert k'.pids[0] == k'.pids[1] == k'.pids[2] == USED && k'.pids[3] == UNUSED;
    assert m.stacks[2] != Empty && m.stacks[0] != Empty;
    TopInPids(k', m, 0);
    LaunchRepIff(k', m, regs);
  }

  /** The i-th ancestor of p along parent_pid. */
  function Ancestor(pcbs: seq<Pcb>, p: int, i: nat): int
    decreases i
  {
    if i == 0 || !(0 <= p < |pcbs|) then p else Ancestor(pcbs, pcbs[p].parentPid, i - 1)
  }

  /** From the top of a stack parent_pid leads, in as many steps as there are programs above it, to the shell. */
  lemma {:induction false} ChainEndsAtShell(pcbs: seq<Pcb>, t: int, s: Stack)
    requires |pcbs| == MAX_PIDS && StackRep(pcbs, t, s) && StackShape(t, s) && s != Empty
    ensures Ancestor(pcbs, s.pid, Depth(s) - 1) == t
    ensures forall i :: 0 <= i < Depth(s) ==> Ancestor(pcbs, s.pid, i) in Pids(s)
  {
    if s.below != Empty {
      ChainEndsAtShell(pcbs, t, s.below);
      assert forall i :: 0 < i < Depth(s) ==> Ancestor(pcbs, s.pid, i) == Ancestor(pcbs, s.below.pid, i - 1);
    }
  }

  lemma {:induction false} OnOneTerminal(pcbs: seq<Pcb>, t: int, s: Stack)
    requires |pcbs| == MAX_PIDS && StackRep(pcbs, t, s)
    ensures forall p <- Pids(s) :: IsPid(p) && pcbs[p].termId == t
  {
    if s != Empty {
      OnOneTerminal(pcbs, t, s.below);
    }
  }

  /** Terminal t's chain of parent_pid ends at its shell; every pid on it has term_id t. */
  predicate ChainOk(k: Kernel, t: int, s: Stack) {
    && Sized(k) && Terminal(t) && s != Empty && k.scheduling[t] == s.pid
    && Ancestor(k.pcbs, k.scheduling[t], Depth(s) - 1) == t
    && forall p <- Pids(s) :: IsPid(p) && k.pcbs[p].termId == t
  }

  lemma RepChains(k: Kernel, m: Machine, t: int)
    requires Rep(k, m) && Terminal(t) && m.stacks[t] != Empty
    ensures ChainOk(k, t, m.stacks[t])
  {
    ChainEndsAtShell(k.pcbs, t, m.stacks[t]);
    OnOneTerminal(k.pcbs, t, m.stacks[t]);
  }

  /** After any history of a booted system: the three chains are sound and disjoint, a pid is marked used exactly
      when it is on one of them, and the running program is the top of the running terminal's chain, on its own
      kernel stack. */
  lemma ReachableTables(k: Kernel, es: seq<Event>, k': Kernel, m: Machine)
    requires Initial(k) && Reach(es) == Some(m) && (ReachableInv(es); Booted(m)) && KReach(k, es) == Some(k')
    ensures Inv(m) && ChainOk(k', 0, m.stacks[0]) && ChainOk(k', 1, m.stacks[1]) && ChainOk(k', 2, m.stacks[2]) && Disjoint(m)
    ensures PidsRep(k'.pids, AllPids(m))
    ensures k'.currPid == k'.scheduling[k'.running] && k'.esp0 == StackTop(k'.currPid)
  {
    ReachableInv(es);
    RunRefines(k, es);
    hide Reach, KReach;
    RepChains(k', m, 0);
    RepChains(k', m, 1);
    RepChains(k', m, 2);
  }

  // ----- Where programs live -----

  /** Physical address of the 4 MB frame that holds the program of a pid. */
  function UserFrame(p: int): int {
    (p + 2) * 0x40_0000
  }

  /** Frames and kernel stacks of distinct pids are disjoint; all stacks lie in the kernel's 4 MB to 8 MB and
      all frames beyond it. */
  lemma PlacesDisjoint(p: int, q: int)
    requires IsPid(p) && IsPid(q) && p != q
    ensures UserFrame(p) + 0x40_0000 <= UserFrame(q) || UserFrame(q) + 0x40_0000 <= UserFrame(p)
    ensures StackTop(p) <= StackTop(q) - EIGHT_KB || StackTop(q) <= StackTop(p) - EIGHT_KB
    ensures 0x40_0000 <= StackTop(p) - EIGHT_KB && StackTop(p) <= EIGHT_MB <= UserFrame(p)
  {
  }

  // ----- Finding a pcb, in the machine's 32-bit arithmetic -----

  /** get_pcb_from_pid */
  function PcbFromPid(p: bv32): bv32 {
    0x80_0000 - (p + 1) * 0x2000
  }

  /** get_pcb_ptr: the stack pointer under PCB_MASK. */
  function PcbPtr(esp: bv32): bv32 {
    esp & 0xFFFF_E000
  }

  /** The base_kernel_stack of init_pcb. */
  function StackTop32(p: bv32): bv32 {
    0x80_0000 - p * 0x2000
  }

  /** The mask yields the multiple of 8 KB (low 13 bits clear) that lies at most 8 KB - 1 below. */
  lemma MaskRoundsDown(esp: bv32, base: bv32)
    requires base & 0x1FFF == 0
    ensures esp & 0xFFFF_E000 == base <==> base <= esp && esp - base < 0x2000
  {
  }

  lemma StackTopWord(p: bv32)
    requires p < 6
    ensures StackTop32(p) as int == StackTop(p as int) && PcbFromPid(p) as int == StackTop(p as int) - EIGHT_KB
    ensures PcbFromPid(p) & 0x1FFF == 0 && (PcbFromPid(p) | 0x1FFF) as int == StackTop(p as int) - 1
  {
    assert p == 0 || p == 1 || p == 2 || p == 3 || p == 4 || p == 5;
  }

  lemma WithinStack(p: bv32, esp: bv32)
    requires p < 6
    ensures var base := PcbFromPid(p); base <= esp && esp - base < 0x2000 <==> base <= esp <= base | 0x1FFF
  {
    if
    case p == 0 => assert PcbFromPid(p) == 0x7F_E000;
    case p == 1 => assert PcbFromPid(p) == 0x7F_C000;
    case p == 2 => assert PcbFromPid(p) == 0x7F_A000;
    case p == 3 => assert PcbFromPid(p) == 0x7F_8000;
    case p == 4 => assert PcbFromPid(p) == 0x7F_6000;
    case p == 5 => assert PcbFromPid(p) == 0x7F_4000;
  }

  /** On any stack pointer get_pcb_ptr agrees with get_pcb_from_pid exactly when the stack pointer lies in the
      process's kernel stack, strictly below its top. */
  lemma MaskFindsPcb(p: bv32, esp: bv32)
    requires p < 6
    ensures PcbPtr(esp) == PcbFromPid(p) <==> StackTop(p as int) - EIGHT_KB <= esp as int < StackTop(p as int)
  {
    StackTopWord(p);
    var base := PcbFromPid(p);
    MaskRoundsDown(esp, base);
    WithinStack(p, esp);
    hide PcbFromPid, StackTop32;
    var last := base | 0x1FFF;
    assert base <= esp <==> base as int <= esp as int;
    assert esp <= last <==> esp as int <= last as int;
  }
}
