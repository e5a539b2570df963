/**
 Whole runs of the blink driver: what any interleaving of adds, removes, syncs and ticks does to the list, to
 one location and to the screen.
 */
module BlinkRuns {
  import opened Arith
  import opened Bytes
  import opened BlinkList

  datatype Op =
    | Add(u: Entry)
    | Remove(location: u16)
    | Sync(source: u16, target: u16)
    | Tasklet

  /** No add at location 0: after one the pool holds no sound list any more (BlinkList.InsertKeepsListIff). */
  predicate Sound(op: Op) {
    op.Add? ==> op.u.location != 0
  }

  ghost predicate AllSound(ops: seq<Op>) {
    forall op <- ops :: Sound(op)
  }

  lemma SoundParts(ops: seq<Op>)
    requires AllSound(ops) && ops != []
    ensures AllSound(ops[..|ops| - 1]) && Sound(ops[|ops| - 1])
  {
    assert forall op <- ops[..|ops| - 1] :: op in ops;
    assert ops[|ops| - 1] in ops;
  }

  /** What a sound driver call does to the list (Call proves it). */
  ghost function Apply(list: seq<Entry>, op: Op): seq<Entry>
    requires Sound(op)
  {
    match op
    case Add(u) => if Accepted(list, u) then [Started(u)] + list else list
    case Remove(location) =>
      var k := IndexOf(list, location);
      if k < |list| then Without(list, k) else list
    case Sync(source, target) =>
      var s, t := IndexOf(list, source), IndexOf(list, target);
      if s < |list| && t < |list| then list[t := CopyTiming(list[s], list[t])] else list
    case Tasklet => TickAll(list)
  }

  predicate Accepted(list: seq<Entry>, u: Entry) {
    u.location < POOL_SIZE && |list| < POOL_SIZE
  }

  ghost function Run(list: seq<Entry>, ops: seq<Op>): seq<Entry>
    requires AllSound(ops)
  {
    if ops == [] then list
    else
      SoundParts(ops);
      Apply(Run(list, ops[..|ops| - 1]), ops[|ops| - 1])
  }

  function CountTicks(ops: seq<Op>): nat {
    if ops == [] then 0
    else CountTicks(ops[..|ops| - 1]) + if ops[|ops| - 1].Tasklet? then 1 else 0
  }

  /** The operation is sound, and neither adds, removes nor retimes an entry at the location. */
  predicate Spares(op: Op, location: u16) {
    match op
    case Add(u) => u.location != 0 && u.location != location
    case Remove(l) => l != location
    case Sync(_, target) => target != location
    case Tasklet => true
  }

  ghost predicate Present(list: seq<Entry>, location: u16) {
    IndexOf(list, location) < |list|
  }

  ghost function At(list: seq<Entry>, location: u16): Entry
    requires Present(list, location)
  {
    list[IndexOf(list, location)]
  }

  lemma SparedAdd(list: seq<Entry>, u: Entry, location: u16)
    requires Present(list, location) && Spares(Add(u), location)
    ensures Present(Apply(list, Add(u)), location) && At(Apply(list, Add(u)), location) == At(list, location)
  {
    if Accepted(list, u) {
      IndexOfIs([Started(u)] + list, location, IndexOf(list, location) + 1);
    }
  }

  /** Where the first entry at a location is, once another one is taken out. */
  lemma IndexWithout(list: seq<Entry>, j: nat, location: u16)
    requires j < |list| && IndexOf(list, location) < |list| && list[j].location != location
    ensures var k, k' := IndexOf(list, location), IndexOf(Without(list, j), location);
            && k' == (if j < k then k - 1 else k) && j != k && |Without(list, j)| == |list| - 1
            && k' < |Without(list, j)| && Without(list, j)[k'] == list[k]
  {
    var k, rest := IndexOf(list, location), Without(list, j);
    var k' := if j < k then k - 1 else k;
    Rest(list, j);
    hide Without, IndexOf;
    assert j != k && k' < |rest| && rest[k'] == list[k];
    assert forall i :: 0 <= i < k' ==> rest[i] == list[if i < j then i else i + 1];
    IndexOfIs(rest, location, k');
  }

  lemma SparedRemove(list: seq<Entry>, removed: u16, location: u16)
    requires Present(list, location) && removed != location
    ensures var list' := Apply(list, Remove(removed)); Present(list', location) && At(list', location) == At(list, location)
  {
    var j := IndexOf(list, removed);
    if j < |list| {
      IndexWithout(list, j, location);
      hide Without, IndexOf;
    }
  }

  lemma SparedSync(list: seq<Entry>, source: u16, target: u16, location: u16)
    requires Present(list, location) && target != location
    ensures var list' := Apply(list, Sync(source, target)); Present(list', location) && At(list', location) == At(list, location)
  {
    IndexOfIs(Apply(list, Sync(source, target)), location, IndexOf(list, location));
  }

  lemma SparedTick(list: seq<Entry>, location: u16)
    requires Present(list, location)
    ensures Present(TickAll(list), location) && At(TickAll(list), location) == Tick(At(list, location))
  {
    IndexOfIs(TickAll(list), location, IndexOf(list, location));
  }

  lemma SparedStep(list: seq<Entry>, op: Op, location: u16)
    requires Present(list, location) && Spares(op, location)
    ensures Present(Apply(list, op), location)
    ensures At(Apply(list, op), location) == if op.Tasklet? then Tick(At(list, location)) else At(list, location)
  {
    hide Present, At, Tick;
    match op
    case Add(u) => SparedAdd(list, u, location);
    case Remove(l) => SparedRemove(list, l, location);
    case Sync(s, t) => SparedSync(list, s, t, location);
    case Tasklet => SparedTick(list, location);
  }

  /** However other locations are added, removed and synced in between, an entry only counts the ticks. */
  lemma {:induction false} OnlyTicksMatter(list: seq<Entry>, ops: seq<Op>, location: u16)
    requires Present(list, location) && forall op <- ops :: Spares(op, location)
    ensures AllSound(ops) && Present(Run(list, ops), location)
    ensures At(Run(list, ops), location) == Ticks(At(list, location), CountTicks(ops))
  {
    if ops != [] {
      var init := ops[..|ops| - 1];
      SoundParts(ops);
      OnlyTicksMatter(list, init, location);
      SparedStep(Run(list, init), ops[|ops| - 1], location);
    }
  }

  /** An added entry is, after any such run with n ticks, on exactly when n mod (on + off) < on. */
  lemma AddedEntryBlinks(list: seq<Entry>, u: Entry, ops: seq<Op>)
    requires 0 < u.location < POOL_SIZE && |list| < POOL_SIZE
    requires forall op <- ops :: Spares(op, u.location)
    requires 1 <= u.onLength <= 0x8000 && 1 <= u.offLength <= 0x8000
    ensures AllSound(ops)
    ensures var list' := Run(Apply(list, Add(u)), ops);
            && Present(list', u.location)
            && (IsOn(At(list', u.location)) <==> CountTicks(ops) % (u.onLength + u.offLength) < u.onLength)
  {
    var added := Apply(list, Add(u));
    IndexOfIs(added, u.location, 0);
    OnlyTicksMatter(added, ops, u.location);
    BlinksAsAsked(u, CountTicks(ops));
  }

  predicate InStep(a: Entry, b: Entry) {
    a.onLength == b.onLength && a.offLength == b.offLength && a.countdown == b.countdown && a.status == b.status
  }

  lemma {:induction false} TicksInStep(a: Entry, b: Entry, n: nat)
    requires InStep(a, b)
    ensures InStep(Ticks(a, n), Ticks(b, n))
  {
    if n > 0 {
      TicksInStep(a, b, n - 1);
    }
  }

  /** After a sync, source and target have equal status and countdown at every later tick. */
  lemma SyncedForEver(list: seq<Entry>, source: u16, target: u16, ops: seq<Op>)
    requires Present(list, source) && Present(list, target)
    requires forall op <- ops :: Spares(op, source) && Spares(op, target)
    ensures AllSound(ops)
    ensures var list' := Run(Apply(list, Sync(source, target)), ops);
            && Present(list', source) && Present(list', target)
            && InStep(At(list', source), At(list', target))
            && At(list', target).onChar == At(list, target).onChar && At(list', target).offChar == At(list, target).offChar
            && InStep(At(list', source), Ticks(At(list, source), CountTicks(ops)))
  {
    var synced := Apply(list, Sync(source, target));
    IndexOfIs(synced, source, IndexOf(list, source));
    IndexOfIs(synced, target, IndexOf(list, target));
    OnlyTicksMatter(synced, ops, source);
    OnlyTicksMatter(synced, ops, target);
    TicksInStep(At(synced, source), At(synced, target), CountTicks(ops));
    TicksInStep(At(synced, source), At(list, source), CountTicks(ops));
    CharactersKept(At(synced, target), CountTicks(ops));
  }

  /** A freshly added location can be removed again, and nothing is left of it. */
  lemma AddThenRemove(list: seq<Entry>, u: Entry)
    requires 0 < u.location < POOL_SIZE && |list| < POOL_SIZE
    ensures Apply(Apply(list, Add(u)), Remove(u.location)) == list
  {
    var added := Apply(list, Add(u));
    IndexOfIs(added, u.location, 0);
  }

  // ----- The screen -----

  ghost predicate UniqueLocations(es: seq<Entry>) {
    forall i, j :: 0 <= i < j < |es| ==> es[i].location != es[j].location
  }

  /** Every entry's character for its present state is what its location shows. */
  ghost predicate Faithful(vmem: seq<byte>, es: seq<Entry>)
    requires OnScreen(vmem, es)
  {
    forall k :: 0 <= k < |es| ==> vmem[2 * es[k].location] == Shown(es[k])
  }

  /** Cells that belong to no entry are not written by the tasklet. */
  lemma {:induction false} PokesElsewhere(vmem: seq<byte>, es: seq<Entry>, i: nat)
    requires OnScreen(vmem, es) && i < |vmem| && forall e <- es :: 2 * e.location != i
    ensures PokeAll(vmem, es)[i] == vmem[i]
  {
    if es != [] {
      assert es[|es| - 1] in es;
      PokesElsewhere(vmem, es[..|es| - 1], i);
    }
  }

  /** With unique locations, a screen that shows every entry's state still does after a tick. */
  lemma {:induction false} TaskletFaithful(vmem: seq<byte>, es: seq<Entry>)
    requires OnScreen(vmem, es) && UniqueLocations(es) && Faithful(vmem, es)
    ensures OnScreen(PokeAll(vmem, es), TickAll(es)) && Faithful(PokeAll(vmem, es), TickAll(es))
  {
    if es != [] {
      var init, last := es[..|es| - 1], es[|es| - 1];
      TaskletFaithful(vmem, init);
      PokesElsewhere(vmem, init, 2 * last.location);
      forall k | 0 <= k < |es| ensures PokeAll(vmem, es)[2 * es[k].location] == Shown(Tick(es[k])) {
        if k < |es| - 1 {
          assert init[k] == es[k] && TickAll(init)[k] == Tick(es[k]);
        }
      }
    }
  }

  /** So does it after an add at a new location. */
  lemma AddFaithful(vmem: seq<byte>, es: seq<Entry>, u: Entry)
    requires |vmem| == 2 * POOL_SIZE && OnScreen(vmem, es) && Faithful(vmem, es) && u.location < POOL_SIZE
    requires forall e <- es :: e.location != u.location
    ensures Faithful(vmem[2 * u.location := u.onChar], [Started(u)] + es)
  {
  }

  /** After a sync it does exactly when the target is now off, or has one character for both states:
      the off character is displayed whatever the copied status. */
  lemma SyncFaithfulIff(vmem: seq<byte>, es: seq<Entry>, s: nat, t: nat)
    requires s < |es| && t < |es| && OnScreen(vmem, es) && UniqueLocations(es) && Faithful(vmem, es)
    ensures var es' := es[t := CopyTiming(es[s], es[t])];
            var vmem' := vmem[2 * es[t].location := es[t].offChar];
            && OnScreen(vmem', es')
            && (Faithful(vmem', es') <==> !IsOn(es[s]) || es[t].onChar == es[t].offChar)
  {
    var es' := es[t := CopyTiming(es[s], es[t])];
    var vmem' := vmem[2 * es[t].location := es[t].offChar];
    if !IsOn(es[s]) || es[t].onChar == es[t].offChar {
      forall k | 0 <= k < |es'| ensures vmem'[2 * es'[k].location] == Shown(es'[k]) {
        if k != t {
          assert es'[k] == es[k] && es[k].location != es[t].location;
        }
      }
    } else {
      assert vmem'[2 * es'[t].location] != Shown(es'[t]);
    }
  }

  // ----- List and screen over runs -----

  ghost predicate OnPool(list: seq<Entry>) {
    forall k :: 0 <= k < |list| ==> list[k].location < POOL_SIZE
  }

  lemma ApplyOnPool(list: seq<Entry>, op: Op)
    requires OnPool(list) && Sound(op)
    ensures OnPool(Apply(list, op))
  {
  }

  /** What a driver call does to the screen. */
  ghost function Painted(vmem: seq<byte>, list: seq<Entry>, op: Op): (r: seq<byte>)
    requires |vmem| == 2 * POOL_SIZE && OnPool(list)
    ensures |r| == |vmem|
  {
    match op
    case Add(u) => if Accepted(list, u) then vmem[2 * u.location := u.onChar] else vmem
    case Remove(_) => vmem
    case Sync(source, target) =>
      var s, t := IndexOf(list, source), IndexOf(list, target);
      if s < |list| && t < |list| then vmem[2 * list[t].location := list[t].offChar] else vmem
    case Tasklet => PokeAll(vmem, list)
  }

  /** The driver's list and screen. */
  datatype State = State(list: seq<Entry>, vmem: seq<byte>)

  ghost predicate StateOk(s: State) {
    OnPool(s.list) && |s.vmem| == 2 * POOL_SIZE
  }

  ghost function After(s: State, ops: seq<Op>): (r: State)
    requires StateOk(s) && AllSound(ops)
    ensures StateOk(r) && r.list == Run(s.list, ops)
  {
    if ops == [] then s
    else
      SoundParts(ops);
      var r := After(s, ops[..|ops| - 1]);
      ApplyOnPool(r.list, ops[|ops| - 1]);
      State(Apply(r.list, ops[|ops| - 1]), Painted(r.vmem, r.list, ops[|ops| - 1]))
  }

  ghost function View(d: Driver): State
    reads d, d.vmem
  {
    State(d.list, d.vmem[..])
  }

  /** One driver call, by the driver's code. */
  method Call(d: Driver, op: Op)
    requires d.Valid() && Sound(op)
    modifies d, d.pool, d.vmem
    ensures d.Valid() && StateOk(old(View(d)))
    ensures d.list == Apply(old(d.list), op) && d.vmem[..] == Painted(old(d.vmem[..]), old(d.list), op)
  {
    hide ListInv, Entries, Without, PokeAll, TickAll, Started, IndexOf, Poke, Tick;
    assert OnPool(d.list);
    match op
    case Add(u) =>
      var _ := d.Add(u);
    case Remove(location) =>
      var _ := d.Remove(location);
    case Sync(source, target) =>
      DivModUnique(source * 0x1_0000 + target, 0x1_0000, source, target);
      var _ := d.Sync(source * 0x1_0000 + target);
    case Tasklet =>
      d.Tasklet();
  }

  /** Any sequence of sound calls by the driver's code leaves the list and the screen of the specification. */
  method Calls(d: Driver, ops: seq<Op>)
    requires d.Valid() && AllSound(ops)
    modifies d, d.pool, d.vmem
    ensures d.Valid() && StateOk(old(View(d))) && View(d) == After(old(View(d)), ops)
  {
    if ops != [] {
      SoundParts(ops);
      Calls(d, ops[..|ops| - 1]);
      Call(d, ops[|ops| - 1]);
    }
  }

  /** The call adds only at a new location, and syncs only to an entry that is then off or looks the same on and off. */
  ghost predicate Tidy(list: seq<Entry>, op: Op) {
    match op
    case Add(u) => !Accepted(list, u) || !Present(list, u.location)
    case Sync(source, target) =>
      var s, t := IndexOf(list, source), IndexOf(list, target);
      s < |list| && t < |list| ==> !IsOn(list[s]) || list[t].onChar == list[t].offChar
    case _ => true
  }

  ghost predicate AllTidy(list: seq<Entry>, ops: seq<Op>)
    requires AllSound(ops)
  {
    ops == [] ||
    (SoundParts(ops);
     AllTidy(list, ops[..|ops| - 1]) && Tidy(Run(list, ops[..|ops| - 1]), ops[|ops| - 1]))
  }

  /** Locations are unique and the screen shows every entry's character for its present state. */
  ghost predicate Right(s: State)
    requires StateOk(s)
  {
    UniqueLocations(s.list) && Faithful(s.vmem, s.list)
  }

  lemma ApplyUnique(list: seq<Entry>, op: Op)
    requires UniqueLocations(list) && Sound(op) && (op.Add? ==> Tidy(list, op))
    ensures UniqueLocations(Apply(list, op))
  {
    if op.Add? && Accepted(list, op.u) {
      assert forall k :: 0 <= k < |list| ==> list[k].location != op.u.location;
    }
  }

  /** A sync is the only call that can spoil the screen when adds are at new locations; it does exactly when it is
      not tidy. */
  lemma StepRightIff(s: State, op: Op)
    requires StateOk(s) && Right(s) && Sound(op) && (op.Add? ==> Tidy(s.list, op))
    ensures var s' := State(Apply(s.list, op), Painted(s.vmem, s.list, op));
            && StateOk(s') && UniqueLocations(s'.list)
            && (Right(s') <==> Tidy(s.list, op))
  {
    ApplyOnPool(s.list, op);
    ApplyUnique(s.list, op);
    match op
    case Add(u) =>
      if Accepted(s.list, u) {
        AddFaithful(s.vmem, s.list, u);
      }
    case Remove(location) =>
      RemoveFaithful(s.vmem, s.list, IndexOf(s.list, location));
    case Sync(source, target) =>
      var i, j := IndexOf(s.list, source), IndexOf(s.list, target);
      if i < |s.list| && j < |s.list| {
        SyncFaithfulIff(s.vmem, s.list, i, j);
      }
    case Tasklet =>
      TaskletFaithful(s.vmem, s.list);
  }

  lemma RemoveFaithful(vmem: seq<byte>, es: seq<Entry>, k: nat)
    requires k <= |es| && OnScreen(vmem, es) && Faithful(vmem, es)
    ensures k < |es| ==> OnScreen(vmem, Without(es, k)) && Faithful(vmem, Without(es, k))
  {
  }

  /** After any tidy run the screen shows every entry's character for its present state. */
  lemma {:induction false} RunsStayRight(s: State, ops: seq<Op>)
    requires StateOk(s) && Right(s) && AllSound(ops) && AllTidy(s.list, ops)
    ensures Right(After(s, ops))
  {
    if ops != [] {
      SoundParts(ops);
      var init := ops[..|ops| - 1];
      RunsStayRight(s, init);
      StepRightIff(After(s, init), ops[|ops| - 1]);
    }
  }

  // ----- The characters that were asked for -----

  /** No two entries are at the location. */
  ghost predicate OnlyAt(list: seq<Entry>, location: u16) {
    forall i :: 0 <= i < |list| && list[i].location == location ==> i == IndexOf(list, location)
  }

  /** One entry is at the location, and the cell there shows its character for its present state. */
  ghost predicate CellRight(s: State, location: u16)
    requires StateOk(s)
  {
    && Present(s.list, location) && OnlyAt(s.list, location) && 2 * location < |s.vmem|
    && s.vmem[2 * location] == Shown(At(s.list, location))
  }

  lemma OnlyAtAfter(list: seq<Entry>, op: Op, location: u16)
    requires Present(list, location) && OnlyAt(list, location) && Spares(op, location)
    ensures OnlyAt(Apply(list, op), location)
  {
    hide OnlyAt, Present;
    match op
    case Add(u) => OnlyAtAdd(list, u, location);
    case Remove(removed) => OnlyAtRemove(list, removed, location);
    case Sync(source, target) => OnlyAtSameLocations(list, Apply(list, op), location);
    case Tasklet => OnlyAtSameLocations(list, TickAll(list), location);
  }

  lemma OnlyAtAdd(list: seq<Entry>, u: Entry, location: u16)
    requires Present(list, location) && OnlyAt(list, location) && Spares(Add(u), location)
    ensures OnlyAt(Apply(list, Add(u)), location)
  {
    if Accepted(list, u) {
      IndexOfIs([Started(u)] + list, location, IndexOf(list, location) + 1);
    }
  }

  lemma OnlyAtSameLocations(list: seq<Entry>, list': seq<Entry>, location: u16)
    requires Present(list, location) && OnlyAt(list, location) && |list'| == |list|
    requires forall i :: 0 <= i < |list| ==> list'[i].location == list[i].location
    ensures OnlyAt(list', location)
  {
    IndexOfIs(list', location, IndexOf(list, location));
  }

  lemma OnlyAtRemove(list: seq<Entry>, removed: u16, location: u16)
    requires Present(list, location) && OnlyAt(list, location) && removed != location
    ensures OnlyAt(Apply(list, Remove(removed)), location)
  {
    var j := IndexOf(list, removed);
    if j < |list| {
      var rest := Without(list, j);
      IndexWithout(list, j, location);
      Rest(list, j);
      hide Without, IndexOf;
      forall i | 0 <= i < |rest| && rest[i].location == location ensures i == IndexOf(rest, location) {
        assert rest[i] == list[if i < j then i else i + 1];
      }
    }
  }

  /** The tasklet leaves the cell of an entry alone, unless the entry expires. */
  lemma {:induction false} PokesCell(vmem: seq<byte>, es: seq<Entry>, k: nat)
    requires OnScreen(vmem, es) && k < |es|
    requires forall i :: 0 <= i < |es| && es[i].location == es[k].location ==> i == k
    requires vmem[2 * es[k].location] == Shown(es[k])
    ensures PokeAll(vmem, es)[2 * es[k].location] == Shown(Tick(es[k]))
  {
    var init, last := es[..|es| - 1], es[|es| - 1];
    if k < |init| {
      PokesCell(vmem, init, k);
      assert last.location != es[k].location;
    } else {
      forall e | e in init ensures 2 * e.location != 2 * last.location {
        var i :| 0 <= i < |init| && init[i] == e;
        assert es[i] == e;
      }
      PokesElsewhere(vmem, init, 2 * last.location);
    }
  }

  /** Whatever is done at other locations, the cell stays right. */
  lemma CellStaysRight(s: State, op: Op, location: u16)
    requires StateOk(s) && CellRight(s, location) && Spares(op, location)
    ensures var s' := State(Apply(s.list, op), Painted(s.vmem, s.list, op));
            StateOk(s') && CellRight(s', location)
  {
    ApplyOnPool(s.list, op);
    SparedStep(s.list, op, location);
    OnlyAtAfter(s.list, op, location);
    if op.Tasklet? {
      PokesCell(s.vmem, s.list, IndexOf(s.list, location));
    }
    hide PokeAll, Tick, Shown;
  }

  lemma {:induction false} CellStaysRightRun(s: State, ops: seq<Op>, location: u16)
    requires StateOk(s) && CellRight(s, location) && forall op <- ops :: Spares(op, location)
    ensures AllSound(ops) && CellRight(After(s, ops), location)
  {
    if ops != [] {
      var init := ops[..|ops| - 1];
      SoundParts(ops);
      CellStaysRightRun(s, init, location);
      CellStaysRight(After(s, init), ops[|ops| - 1], location);
    }
  }

  lemma {:induction false} CharactersKept(e: Entry, n: nat)
    ensures Ticks(e, n).onChar == e.onChar && Ticks(e, n).offChar == e.offChar
  {
    if n > 0 {
      CharactersKept(e, n - 1);
    }
  }

  /** An entry added at a free location shows, after any run at other locations with n ticks, the character its caller asked
      for: the on character exactly while n mod (on + off) < on. */
  lemma AddedEntryShows(s: State, u: Entry, ops: seq<Op>)
    requires StateOk(s) && 0 < u.location < POOL_SIZE && |s.list| < POOL_SIZE && !Present(s.list, u.location)
    requires 1 <= u.onLength <= 0x8000 && 1 <= u.offLength <= 0x8000
    requires forall op <- ops :: Spares(op, u.location)
    ensures AllSound([Add(u)]) && AllSound(ops)
    ensures After(After(s, [Add(u)]), ops).vmem[2 * u.location] ==
            if CountTicks(ops) % (u.onLength + u.offLength) < u.onLength then u.onChar else u.offChar
  {
    AllSoundOne(Add(u));
    var s1 := State([Started(u)] + s.list, s.vmem[2 * u.location := u.onChar]);
    assert [Add(u)][..0] == [] && After(s, []) == s && After(s, [Add(u)]) == s1;
    IndexOfIs(s1.list, u.location, 0);
    assert OnlyAt(s1.list, u.location) by {
      assert forall i :: 0 < i < |s1.list| ==> s1.list[i] == s.list[i - 1] && s.list[i - 1].location != u.location;
    }
    CellStaysRightRun(s1, ops, u.location);
    OnlyTicksMatter(s1.list, ops, u.location);
    BlinksAsAsked(u, CountTicks(ops));
    CharactersKept(Started(u), CountTicks(ops));
  }

  lemma AllSoundOne(op: Op)
    requires Sound(op)
    ensures AllSound([op])
  {
  }
}
