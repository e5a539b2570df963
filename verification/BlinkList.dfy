/**
 The fish program's blink driver: a linked list threaded through a fixed pool whose free
 slots are recognised by a zero location, and a countdown machine on every node.
 */
module BlinkList {
  import opened Arith
  import opened Bytes

  type u16 = x: int | 0 <= x < 0x1_0000

  const POOL_SIZE := 80 * 25

  datatype Link = Null | Slot(index: nat)

  /** A blink structure without its link. */
  datatype Entry = Entry(location: u16, onChar: byte, offChar: byte, onLength: u16, offLength: u16,
                         countdown: u16, status: u16)

  datatype Blink = Blink(entry: Entry, next: Link)

  const ZERO_BLINK := Blink(Entry(0, 0, 0, 0, 0, 0, 0), Null)

  // ----- The countdown machine -----

  predicate IsOn(e: Entry) {
    e.status % 2 == 1
  }

  /** decw, then a signed comparison with zero. */
  predicate Expires(e: Entry) {
    var c := (e.countdown + 0xFFFF) % 0x1_0000;
    !(0 < c < 0x8000)
  }

  function Tick(e: Entry): Entry {
    if !Expires(e) then e.(countdown := (e.countdown + 0xFFFF) % 0x1_0000)
    else if IsOn(e) then e.(countdown := e.offLength, status := e.status - 1)
    else e.(countdown := e.onLength, status := e.status + 1)
  }

  function Ticks(e: Entry, n: nat): Entry {
    if n == 0 then e else Tick(Ticks(e, n - 1))
  }

  /** Ticks a length really lasts: 0 and lengths above 0x8000 are negative after the decrement. */
  function Lasting(length: u16): (n: nat)
    ensures n > 0
  {
    if 1 <= length <= 0x8000 then length else 1
  }

  function Period(e: Entry): (n: nat)
    ensures n > 0
  {
    Lasting(e.onLength) + Lasting(e.offLength)
  }

  /** e is p ticks into its period. */
  predicate InPhase(e: Entry, p: nat) {
    && p < Period(e)
    && (IsOn(e) <==> p < Lasting(e.onLength))
    && Lasting(e.countdown) == (if p < Lasting(e.onLength) then Lasting(e.onLength) else Period(e)) - p
  }

  lemma TickAdvances(e: Entry, p: nat)
    requires InPhase(e, p)
    ensures InPhase(Tick(e), if p + 1 == Period(e) then 0 else p + 1)
    ensures Period(Tick(e)) == Period(e)
  {
    ExpiresAtLast(e);
  }

  lemma ExpiresAtLast(e: Entry)
    ensures Expires(e) <==> Lasting(e.countdown) == 1
    ensures !Expires(e) ==> Lasting(Tick(e).countdown) == Lasting(e.countdown) - 1
  {
    if e.countdown == 0 {
      assert 0xFFFF % 0x1_0000 == 0xFFFF;
    } else {
      DivModUnique(e.countdown + 0xFFFF, 0x1_0000, 1, e.countdown - 1);
    }
  }

  /** The entry mp1_ioctl_add stores: what the caller asked for, on, at the start of its on period. */
  function Started(u: Entry): (e: Entry)
    ensures InPhase(e, 0)
    ensures e.location == u.location && e.onChar == u.onChar && e.offChar == u.offChar
    ensures e.onLength == u.onLength && e.offLength == u.offLength
  {
    u.(status := 1, countdown := u.onLength)
  }

  /** After n ticks an added entry is n mod (on + off) into its period. */
  lemma {:induction false} PhaseAfter(e: Entry, p: nat, n: nat)
    requires InPhase(e, p)
    ensures Period(Ticks(e, n)) == Period(e)
    ensures InPhase(Ticks(e, n), (p + n) % Period(e))
  {
    if n == 0 {
      ModSmall(p, Period(e));
    } else {
      PhaseAfter(e, p, n - 1);
      TickAdvances(Ticks(e, n - 1), (p + (n - 1)) % Period(e));
      ModSuccessor(p + (n - 1), Period(e));
    }
  }

  /** With lengths the signed 16-bit countdown can represent, the entry is on exactly when
      n mod (on + off) < on, and its countdown is what remains of the phase. */
  lemma BlinksAsAsked(u: Entry, n: nat)
    requires 1 <= u.onLength <= 0x8000 && 1 <= u.offLength <= 0x8000
    ensures var e, p := Ticks(Started(u), n), n % (u.onLength + u.offLength);
            && (IsOn(e) <==> p < u.onLength)
            && e.countdown == (if p < u.onLength then u.onLength else u.onLength + u.offLength) - p
  {
    PhaseAfter(Started(u), 0, n);
    LengthsKept(Started(u), n);
  }

  lemma {:induction false} LengthsKept(e: Entry, n: nat)
    ensures Ticks(e, n).onLength == e.onLength && Ticks(e, n).offLength == e.offLength
    ensures e.countdown in {e.onLength, e.offLength} && 1 <= e.onLength <= 0x8000 && 1 <= e.offLength <= 0x8000
            ==> 1 <= Ticks(e, n).countdown <= 0x8000
  {
    if n > 0 {
      LengthsKept(e, n - 1);
    }
  }

  /** The asked rhythm is kept for every number of ticks exactly when both lengths are in 1..0x8000. */
  lemma BlinksAsAskedIff(u: Entry)
    ensures (forall n: nat :: IsOn(Ticks(Started(u), n)) <==> u.onLength + u.offLength > 0 && n % (u.onLength + u.offLength) < u.onLength)
       <==> 1 <= u.onLength <= 0x8000 && 1 <= u.offLength <= 0x8000
  {
    if 1 <= u.onLength <= 0x8000 && 1 <= u.offLength <= 0x8000 {
      forall n: nat
        ensures IsOn(Ticks(Started(u), n)) <==> u.onLength + u.offLength > 0 && n % (u.onLength + u.offLength) < u.onLength
      {
        BlinksAsAsked(u, n);
      }
    } else {
      var n := MissedBeat(u);
      assert !(IsOn(Ticks(Started(u), n)) <==> u.onLength + u.offLength > 0 && n % (u.onLength + u.offLength) < u.onLength);
    }
  }

  /** A tick at which an entry with an unrepresentable length is wrong. */
  lemma MissedBeat(u: Entry) returns (n: nat)
    requires !(1 <= u.onLength <= 0x8000 && 1 <= u.offLength <= 0x8000)
    ensures !(IsOn(Ticks(Started(u), n)) <==> u.onLength + u.offLength > 0 && n % (u.onLength + u.offLength) < u.onLength)
  {
    var on: int, off: int := u.onLength, u.offLength;
    var e := Started(u);
    if on == 0 {
      // on at tick 0, though it should never be
      n := 0;
    } else if on > 0x8000 {
      // off at tick 1, though on lasts longer
      n := 1;
      PhaseAfter(e, 0, 1);
      ModSmall(1, Period(e));
      ModSmall(1, on + off);
    } else if off == 0 {
      // off at tick `on`, though it should be on for ever
      n := on;
      PhaseAfter(e, 0, n);
      ModSmall(n, Period(e));
      DivModUnique(n, on, 1, 0);
    } else {
      // on again at tick on + 1, though off lasts longer
      n := on + 1;
      PhaseAfter(e, 0, n);
      DivModUnique(n, Period(e), 1, 0);
      ModSmall(n, on + off);
    }
  }

  // ----- The list threaded through the pool -----

  /** Link leading to the k-th node, Null past the last one. */
  ghost function LinkTo(nodes: seq<nat>, k: nat): Link
    requires k <= |nodes|
  {
    if k < |nodes| then Slot(nodes[k]) else Null
  }

  /** Following links from head visits exactly `nodes`. */
  ghost predicate Chain(pool: seq<Blink>, head: Link, nodes: seq<nat>) {
    && InPool(pool, nodes)
    && head == LinkTo(nodes, 0)
    && forall k {:trigger pool[nodes[k]]} :: 0 <= k < |nodes| ==> pool[nodes[k]].next == LinkTo(nodes, k + 1)
  }

  /** The nodes are exactly the slots with a non-zero location; the other slots are all zero. */
  ghost predicate Members(pool: seq<Blink>, nodes: seq<nat>) {
    forall i :: 0 <= i < |pool| ==>
      if i in nodes then pool[i].entry.location != 0 else pool[i] == ZERO_BLINK
  }

  /** An acyclic list: no slot is visited twice. */
  ghost predicate ListInv(pool: seq<Blink>, head: Link, nodes: seq<nat>) {
    Distinct(nodes) && Chain(pool, head, nodes) && Members(pool, nodes)
  }

  /** The list's contents, in order. */
  ghost function Entries(pool: seq<Blink>, nodes: seq<nat>): (es: seq<Entry>)
    requires InPool(pool, nodes)
    ensures |es| == |nodes|
    ensures forall k :: 0 <= k < |nodes| ==> es[k] == pool[nodes[k]].entry
  {
    seq(|nodes|, k requires 0 <= k < |nodes| => pool[nodes[k]].entry)
  }

  ghost predicate InPool(pool: seq<Blink>, nodes: seq<nat>) {
    forall k :: 0 <= k < |nodes| ==> nodes[k] < |pool|
  }

  lemma EntriesOfInsert(pool: seq<Blink>, nodes: seq<nat>, slot: nat, b: Blink)
    requires InPool(pool, nodes) && slot < |pool| && slot !in nodes
    ensures Entries(pool[slot := b], [slot] + nodes) == [b.entry] + Entries(pool, nodes)
  {
    hide Entries;
    var es, es' := Entries(pool, nodes), Entries(pool[slot := b], [slot] + nodes);
    forall k | 0 <= k < |es'| ensures es'[k] == ([b.entry] + es)[k] {
      if k > 0 {
        assert ([slot] + nodes)[k] == nodes[k - 1];
      }
    }
  }

  lemma EntriesOfUnlink(pool: seq<Blink>, pool': seq<Blink>, nodes: seq<nat>, nodes': seq<nat>, k: nat)
    requires InPool(pool, nodes) && InPool(pool', nodes') && k < |nodes| == |nodes'| + 1
    requires forall j :: 0 <= j < |nodes'| ==> nodes'[j] == nodes[if j < k then j else j + 1]
    requires forall j :: 0 <= j < |nodes'| ==> pool'[nodes'[j]].entry == pool[nodes'[j]].entry
    ensures Entries(pool', nodes') == Without(Entries(pool, nodes), k)
  {
    hide Entries;
    var es, es' := Entries(pool, nodes), Entries(pool', nodes');
    forall j | 0 <= j < |es'| ensures es'[j] == Without(es, k)[j] {
      assert es'[j] == pool[nodes'[j]].entry;
    }
  }

  /** Position of the first entry at a location, or the length. */
  function IndexOf(es: seq<Entry>, location: u16): (k: nat)
    ensures k <= |es|
    ensures forall j :: 0 <= j < k ==> es[j].location != location
    ensures k < |es| ==> es[k].location == location
  {
    if es == [] || es[0].location == location then 0 else 1 + IndexOf(es[1..], location)
  }

  lemma IndexOfIs(es: seq<Entry>, location: u16, k: nat)
    requires k <= |es| && (forall j :: 0 <= j < k ==> es[j].location != location)
    requires k < |es| ==> es[k].location == location
    ensures IndexOf(es, location) == k
  {
  }

  /** mp1_malloc: the first slot whose location is zero. */
  ghost predicate FirstFree(pool: seq<Blink>, i: nat) {
    && i < |pool| && pool[i].entry.location == 0
    && forall j :: 0 <= j < i ==> pool[j].entry.location != 0
  }

  ghost function Elems(s: seq<nat>): set<nat> {
    set x | x in s
  }

  ghost function Below(n: nat): (r: set<nat>)
    ensures |r| == n && forall i: nat :: i in r <==> i < n
  {
    if n == 0 then {} else Below(n - 1) + {n - 1}
  }

  lemma {:induction false} ElemsSize(s: seq<nat>)
    requires Distinct(s)
    ensures |Elems(s)| == |s|
  {
    if s != [] {
      var init, last := s[..|s| - 1], s[|s| - 1];
      ElemsSize(init);
      assert s == init + [last];
      assert Elems(s) == Elems(init) + {last};
      assert last !in init;
    }
  }

  lemma ProperSubset(a: set<nat>, b: set<nat>)
    requires a <= b
    ensures |a| <= |b|
    ensures |a| == |b| <==> a == b
  {
    assert b == a + (b - a);
  }

  /** The allocator fails exactly when the list holds as many entries as there are slots. */
  lemma FullWhenNoneFree(pool: seq<Blink>, head: Link, nodes: seq<nat>)
    requires ListInv(pool, head, nodes)
    ensures |nodes| <= |pool|
    ensures (exists i :: FirstFree(pool, i)) <==> |nodes| < |pool|
    ensures (forall i :: 0 <= i < |pool| ==> pool[i].entry.location != 0) <==> |nodes| == |pool|
  {
    var used, slots := Elems(nodes), Below(|pool|);
    ElemsSize(nodes);
    assert used <= slots by {
      forall x | x in used ensures x in slots {
        var k :| 0 <= k < |nodes| && nodes[k] == x;
      }
    }
    ProperSubset(used, slots);
    if |nodes| < |pool| {
      assert slots - used != {} by { assert slots != used; }
      var i :| i in slots - used;
      LeastFree(pool, i);
    } else {
      assert forall i: nat :: i in slots ==> i in used && i in nodes;
    }
  }

  lemma {:induction false} LeastFree(pool: seq<Blink>, i: nat)
    requires i < |pool| && pool[i].entry.location == 0
    ensures exists j :: FirstFree(pool, j)
  {
    if j :| 0 <= j < i && pool[j].entry.location == 0 {
      LeastFree(pool, j);
    } else {
      assert FirstFree(pool, i);
    }
  }

  function Insert(pool: seq<Blink>, head: Link, slot: nat, e: Entry): seq<Blink>
    requires slot < |pool|
  {
    pool[slot := Blink(e, head)]
  }

  lemma NotLinked(pool: seq<Blink>, nodes: seq<nat>, slot: nat)
    requires Members(pool, nodes) && FirstFree(pool, slot)
    ensures slot !in nodes
  {
  }

  lemma InsertChain(pool: seq<Blink>, head: Link, nodes: seq<nat>, slot: nat, e: Entry)
    requires Chain(pool, head, nodes) && slot < |pool| && slot !in nodes
    ensures Chain(Insert(pool, head, slot, e), Slot(slot), [slot] + nodes)
    ensures InPool(pool, nodes)
  {
    var pool', nodes' := Insert(pool, head, slot, e), [slot] + nodes;
    forall k | 0 <= k < |nodes'| ensures nodes'[k] < |pool'| && pool'[nodes'[k]].next == LinkTo(nodes', k + 1) {
      if k > 0 {
        assert nodes'[k] == nodes[k - 1] && pool'[nodes'[k]] == pool[nodes[k - 1]];
      }
    }
  }

  /** Storing an entry in a free slot and linking it in front keeps the list sound, and adds it in front. */
  lemma InsertKeepsList(pool: seq<Blink>, head: Link, nodes: seq<nat>, slot: nat, e: Entry)
    requires ListInv(pool, head, nodes) && FirstFree(pool, slot) && e.location != 0
    ensures ListInv(Insert(pool, head, slot, e), Slot(slot), [slot] + nodes)
    ensures Entries(Insert(pool, head, slot, e), [slot] + nodes) == [e] + Entries(pool, nodes)
  {
    var pool', nodes' := Insert(pool, head, slot, e), [slot] + nodes;
    NotLinked(pool, nodes, slot);
    InsertChain(pool, head, nodes, slot, e);
    assert Members(pool', nodes') by {
      hide Chain, Distinct;
    }
    assert Distinct(nodes') by {
      hide Members, Chain;
    }
    hide Chain, Members, Distinct;
    EntriesOfInsert(pool, nodes, slot, Blink(e, head));
  }

  /** With location 0 the list cannot be sound afterwards. */
  lemma InsertKeepsListIff(pool: seq<Blink>, head: Link, nodes: seq<nat>, slot: nat, e: Entry)
    requires ListInv(pool, head, nodes) && FirstFree(pool, slot)
    ensures (exists nodes' :: ListInv(Insert(pool, head, slot, e), Slot(slot), nodes')) <==> e.location != 0
  {
    if e.location != 0 {
      InsertKeepsList(pool, head, nodes, slot, e);
    } else {
      forall nodes'
        ensures !ListInv(Insert(pool, head, slot, e), Slot(slot), nodes')
      {
        if |nodes'| > 0 && nodes'[0] == slot {
          assert slot in nodes';
        }
      }
    }
  }

  /** Two adds at location 0 make the head point to itself. */
  lemma ZeroLocationLoops(e: Entry)
    requires e.location == 0
    ensures var pool := seq(POOL_SIZE, i => ZERO_BLINK);
            && FirstFree(pool, 0)
            && var pool1 := Insert(pool, Null, 0, e);
            && FirstFree(pool1, 0)
            && Insert(pool1, Slot(0), 0, e)[0].next == Slot(0)
  {
    var pool := seq(POOL_SIZE, i => ZERO_BLINK);
    assert Insert(pool, Null, 0, e)[0].entry == e;
  }

  /** The link that leads to node k changed to lead past it, and the slot wiped. */
  function Unlinked(pool: seq<Blink>, prev: Link, slot: nat): seq<Blink>
    requires slot < |pool| && (prev.Slot? ==> prev.index < |pool|)
  {
    (if prev.Null? then pool else pool[prev.index := pool[prev.index].(next := pool[slot].next)])[slot := ZERO_BLINK]
  }

  ghost function Without<T>(s: seq<T>, k: nat): seq<T>
    requires k < |s|
  {
    s[..k] + s[k + 1..]
  }

  lemma Rest<T>(s: seq<T>, k: nat)
    requires k < |s|
    ensures |Without(s, k)| == |s| - 1
    ensures forall i :: 0 <= i < |s| - 1 ==> Without(s, k)[i] == s[if i < k then i else i + 1]
  {
  }

  lemma WithoutOne<T>(s: seq<T>, k: nat)
    requires k < |s| && Distinct(s)
    ensures forall x :: x in Without(s, k) <==> x in s && x != s[k]
  {
    forall x ensures x in Without(s, k) <==> x in s && x != s[k] {
      if x in s && x != s[k] {
        var j :| 0 <= j < |s| && s[j] == x;
        assert Without(s, k)[if j < k then j else j - 1] == x;
      }
    }
  }

  function Before(nodes: seq<nat>, k: nat): Link
    requires k <= |nodes|
  {
    if k == 0 then Null else Slot(nodes[k - 1])
  }

  lemma UnlinkChain(pool: seq<Blink>, head: Link, nodes: seq<nat>, nodes': seq<nat>, k: nat)
    requires Distinct(nodes) && Chain(pool, head, nodes) && k < |nodes| == |nodes'| + 1
    requires forall j :: 0 <= j < |nodes'| ==> nodes'[j] == nodes[if j < k then j else j + 1]
    ensures Chain(Unlinked(pool, Before(nodes, k), nodes[k]), if k == 0 then pool[nodes[0]].next else head, nodes')
    ensures Distinct(nodes')
    ensures forall j :: 0 <= j < |nodes'| ==> Unlinked(pool, Before(nodes, k), nodes[k])[nodes'[j]].entry == pool[nodes'[j]].entry
  {
    var pool' := Unlinked(pool, Before(nodes, k), nodes[k]);
    forall j | 0 <= j < |nodes'|
      ensures pool'[nodes'[j]].next == LinkTo(nodes', j + 1) && pool'[nodes'[j]].entry == pool[nodes'[j]].entry
    {
      var i := if j < k then j else j + 1;
      assert nodes'[j] == nodes[i] != nodes[k];
      assert pool[nodes[i]].next == LinkTo(nodes, i + 1);
      assert pool[nodes[k]].next == LinkTo(nodes, k + 1);
      if i + 1 != k {
        assert k > 0 ==> nodes[i] != nodes[k - 1];
      }
    }
  }

  lemma UnlinkMembers(pool: seq<Blink>, head: Link, nodes: seq<nat>, nodes': seq<nat>, k: nat)
    requires Members(pool, nodes) && InPool(pool, nodes) && k < |nodes|
    requires k > 0 ==> nodes[k - 1] != nodes[k]
    requires forall x :: x in nodes' <==> x in nodes && x != nodes[k]
    ensures Members(Unlinked(pool, Before(nodes, k), nodes[k]), nodes')
  {
    assert k > 0 ==> nodes[k - 1] in nodes;
  }

  /** Removing node k keeps the list sound, and removes exactly that entry. */
  lemma UnlinkKeepsList(pool: seq<Blink>, head: Link, nodes: seq<nat>, k: nat)
    requires ListInv(pool, head, nodes) && k < |nodes|
    ensures var pool' := Unlinked(pool, Before(nodes, k), nodes[k]);
            && ListInv(pool', if k == 0 then pool[nodes[0]].next else head, Without(nodes, k))
            && Entries(pool', Without(nodes, k)) == Without(Entries(pool, nodes), k)
  {
    var pool', nodes' := Unlinked(pool, Before(nodes, k), nodes[k]), Without(nodes, k);
    Rest(nodes, k);
    WithoutOne(nodes, k);
    UnlinkChain(pool, head, nodes, nodes', k);
    UnlinkMembers(pool, head, nodes, nodes', k);
    hide Members, Unlinked;
    EntriesOfUnlink(pool, pool', nodes, nodes', k);
  }

  /** Adding and at once removing gives back the very same pool, head and list. */
  lemma InsertThenUnlink(pool: seq<Blink>, head: Link, nodes: seq<nat>, slot: nat, e: Entry)
    requires ListInv(pool, head, nodes) && FirstFree(pool, slot) && e.location != 0
    ensures var pool1 := Insert(pool, head, slot, e);
            && IndexOf(Entries(pool1, [slot] + nodes), e.location) == 0
            && Unlinked(pool1, Null, slot) == pool && pool1[slot].next == head
            && Without([slot] + nodes, 0) == nodes
  {
    InsertKeepsList(pool, head, nodes, slot, e);
    assert slot !in nodes;
  }

  // ----- The driver -----

  /** The entry's character for its present state. */
  function Shown(e: Entry): byte {
    if IsOn(e) then e.onChar else e.offChar
  }

  /** What mp1_rtc_tasklet pokes for one entry: only an expiring countdown writes. */
  function Poke(vmem: seq<byte>, e: Entry): seq<byte>
    requires 2 * e.location < |vmem|
  {
    if Expires(e) then vmem[2 * e.location := Shown(Tick(e))] else vmem
  }

  ghost predicate OnScreen(vmem: seq<byte>, es: seq<Entry>) {
    forall k :: 0 <= k < |es| ==> 2 * es[k].location < |vmem|
  }

  ghost function PokeAll(vmem: seq<byte>, es: seq<Entry>): (r: seq<byte>)
    requires OnScreen(vmem, es)
    ensures |r| == |vmem|
  {
    if es == [] then vmem
    else
      var init, last := es[..|es| - 1], es[|es| - 1];
      Poke(PokeAll(vmem, init), last)
  }

  ghost function TickAll(es: seq<Entry>): (r: seq<Entry>)
    ensures |r| == |es| && forall k :: 0 <= k < |es| ==> r[k] == Tick(es[k])
  {
    seq(|es|, k requires 0 <= k < |es| => Tick(es[k]))
  }

  function CopyTiming(source: Entry, target: Entry): Entry {
    target.(onLength := source.onLength, offLength := source.offLength,
            countdown := source.countdown, status := source.status)
  }

  /** Rewriting one node's entry in place, at the same location, leaves the list sound. */
  lemma UpdateKeepsList(pool: seq<Blink>, head: Link, nodes: seq<nat>, k: nat, e: Entry)
    requires ListInv(pool, head, nodes) && k < |nodes| && e.location == pool[nodes[k]].entry.location
    ensures var pool' := pool[nodes[k] := Blink(e, pool[nodes[k]].next)];
            && ListInv(pool', head, nodes)
            && Entries(pool', nodes) == Entries(pool, nodes)[k := e]
  {
    var pool' := pool[nodes[k] := Blink(e, pool[nodes[k]].next)];
    assert Members(pool', nodes) by {
      hide Chain, Distinct;
      assert nodes[k] in nodes;
    }
    assert Chain(pool', head, nodes);
    hide Entries, Members, Chain;
    assert Entries(pool', nodes) == Entries(pool, nodes)[k := e];
  }

  lemma PokeNone(screen: seq<byte>)
    ensures PokeAll(screen, []) == screen
  {
  }

  lemma PokeNext(screen: seq<byte>, es: seq<Entry>, k: nat)
    requires k < |es| && OnScreen(screen, es[..k]) && 2 * es[k].location < |screen|
    ensures OnScreen(screen, es[..k + 1])
    ensures PokeAll(screen, es[..k + 1]) == Poke(PokeAll(screen, es[..k]), es[k])
  {
    var next := es[..k + 1];
    assert next[..k] == es[..k] && next[k] == es[k];
  }

  /** The first k entries have ticked, and those that expired have put their characters on the screen. */
  ghost predicate TickedTo(before: seq<Entry>, now: seq<Entry>, screen: seq<byte>, vmem: seq<byte>, k: nat) {
    && |now| == |before| && k <= |before|
    && (forall j :: 0 <= j < |before| ==> now[j] == if j < k then Tick(before[j]) else before[j])
    && OnScreen(screen, before[..k]) && vmem == PokeAll(screen, before[..k])
  }

  lemma TickedNone(before: seq<Entry>, screen: seq<byte>)
    ensures TickedTo(before, before, screen, screen, 0)
  {
    assert before[..0] == [];
    PokeNone(screen);
  }

  lemma TickedNext(before: seq<Entry>, now: seq<Entry>, screen: seq<byte>, vmem: seq<byte>, k: nat)
    requires TickedTo(before, now, screen, vmem, k) && k < |now| && 2 * now[k].location < |vmem|
    ensures TickedTo(before, now[k := Tick(now[k])], screen, Poke(vmem, now[k]), k + 1)
  {
    hide Tick, Poke;
    PokeNext(screen, before, k);
  }

  lemma TickedAll(before: seq<Entry>, now: seq<Entry>, screen: seq<byte>, vmem: seq<byte>)
    requires TickedTo(before, now, screen, vmem, |before|)
    ensures now == TickAll(before) && OnScreen(screen, before) && vmem == PokeAll(screen, before)
  {
    assert before[..|before|] == before;
    hide Tick, Poke, PokeAll;
  }

  class Driver {
    const pool: array<Blink>
    const vmem: array<byte>
    var head: Link
    // the slots of the list, and its contents, from the head on
    ghost var nodes: seq<nat>
    ghost var list: seq<Entry>

    ghost predicate Valid()
      reads this, pool
    {
      && pool.Length == POOL_SIZE && vmem.Length == 2 * POOL_SIZE
      && pool as object != vmem
      && ListInv(pool[..], head, nodes)
      && list == Entries(pool[..], nodes)
      && forall k :: 0 <= k < |list| ==> list[k].location < POOL_SIZE
    }

    constructor (vmem: array<byte>)
      requires vmem.Length == 2 * POOL_SIZE
      ensures Valid() && list == [] && this.vmem == vmem && fresh(pool)
    {
      this.vmem := vmem;
      pool := new Blink[POOL_SIZE](i => ZERO_BLINK);
      head := Null;
      nodes := [];
      list := [];
    }

    /** mp1_malloc */
    method Malloc() returns (slot: Link)
      requires pool.Length == POOL_SIZE
      ensures slot.Slot? ==> FirstFree(pool[..], slot.index)
      ensures slot.Null? ==> forall i :: 0 <= i < POOL_SIZE ==> pool[i].entry.location != 0
    {
      for i := 0 to POOL_SIZE
        invariant forall j :: 0 <= j < i ==> pool[j].entry.location != 0
      {
        if pool[i].entry.location == 0 {
          return Slot(i);
        }
      }
      return Null;
    }

    lemma AtHead()
      requires Valid()
      ensures |nodes| == |list| && head == LinkTo(nodes, 0) && Distinct(nodes) && InPool(pool[..], nodes)
    {
    }

    /** The k-th link, as the code follows it. */
    lemma AtNode(k: nat)
      requires Valid() && k < |nodes|
      ensures |nodes| == |list| && nodes[k] < pool.Length
      ensures pool[nodes[k]].entry == list[k] && pool[nodes[k]].next == LinkTo(nodes, k + 1)
    {
      assert pool[..][nodes[k]].next == LinkTo(nodes, k + 1);
    }

    /** mp1_find_helper: the first node of the list at a location. */
    method Find(location: u16) returns (found: Link, ghost k: nat)
      requires Valid()
      ensures k == IndexOf(list, location) && |list| == |nodes|
      ensures found == LinkTo(nodes, IndexOf(list, location))
    {
      found := head;
      k := 0;
      hide ListInv, Entries, Distinct, InPool;
      AtHead();
      while found != Null
        invariant k <= |nodes| && found == LinkTo(nodes, k)
        invariant forall j :: 0 <= j < k ==> list[j].location != location
        decreases |nodes| - k
      {
        AtNode(k);
        if pool[found.index].entry.location == location {
          break;
        }
        found := pool[found.index].next;
        k := k + 1;
      }
      IndexOfIs(list, location, k);
    }

    /** mp1_ioctl_add. A location beyond the screen or a full pool changes nothing. Otherwise the entry goes in
        front, which keeps the list sound exactly when its location is not zero. */
    method Add(u: Entry) returns (r: int)
      requires Valid()
      modifies this, pool, vmem
      ensures r == 0 || r == -1
      ensures r == 0 <==> u.location < POOL_SIZE && |old(list)| < POOL_SIZE
      ensures r == 0 && u.location != 0 ==> Valid() && list == [Started(u)] + old(list)
      ensures r == 0 && u.location == 0 ==> forall nodes' :: !ListInv(pool[..], head, nodes')
      ensures r == 0 ==> vmem[..] == old(vmem[..])[2 * u.location := u.onChar]
      ensures r != 0 ==> Valid() && list == old(list) && pool[..] == old(pool[..]) && vmem[..] == old(vmem[..])
    {
      hide ListInv, Entries;
      if u.location >= POOL_SIZE {
        return -1;
      }
      var e := u.(status := 1, countdown := u.onLength);
      var slot := Malloc();
      FullWhenNoneFree(pool[..], head, nodes);
      AtHead();
      if slot == Null {
        return -1;
      }
      InsertKeepsListIff(pool[..], head, nodes, slot.index, e);
      if e.location != 0 {
        InsertKeepsList(pool[..], head, nodes, slot.index, e);
      }
      ghost var pool' := Insert(pool[..], head, slot.index, e);
      pool[slot.index] := Blink(e, head);
      assert pool[..] == pool';
      head := slot;
      nodes := [slot.index] + nodes;
      list := [e] + list;
      vmem[2 * pool[slot.index].entry.location] := pool[slot.index].entry.onChar;
      return 0;
    }

    /** mp1_ioctl_remove */
    method Remove(location: u16) returns (r: int)
      requires Valid()
      modifies this, pool
      ensures Valid()
      ensures var k := IndexOf(old(list), location);
              if k < |old(list)| then r == 0 && list == Without(old(list), k)
              else r == -1 && list == old(list) && pool[..] == old(pool[..]) && head == old(head)
    {
      hide ListInv, Entries;
      var found, k := Find(location);
      if found == Null {
        return -1;
      }
      Unlink(found, k);
      return 0;
    }

    /** The walk along the links up to the one that leads to the node. */
    method Predecessor(found: Link, ghost k: nat) returns (prev: Link)
      requires Valid() && k < |nodes| && found == LinkTo(nodes, k)
      ensures prev == Before(nodes, k)
    {
      hide ListInv, Entries;
      AtHead();
      prev := Null;
      var link := head;
      ghost var j := 0;
      while link != found
        invariant j <= k && link == LinkTo(nodes, j) && prev == Before(nodes, j)
        decreases k - j
      {
        AtNode(j);
        prev := link;
        link := pool[link.index].next;
        j := j + 1;
      }
    }

    /** The node taken out of the list and of the pool. */
    method Unlink(found: Link, ghost k: nat)
      requires Valid() && k < |nodes| && found == LinkTo(nodes, k)
      modifies this, pool
      ensures Valid() && k < |old(list)| && list == Without(old(list), k)
    {
      hide ListInv, Entries, Without;
      AtHead();
      var prev := Predecessor(found, k);
      assert k > 0 ==> nodes[k - 1] < |pool[..]|;
      UnlinkKeepsList(pool[..], head, nodes, k);
      ghost var pool' := Unlinked(pool[..], prev, found.index);
      if prev == Null {
        head := pool[found.index].next;
      } else {
        pool[prev.index] := pool[prev.index].(next := pool[found.index].next);
      }
      pool[found.index] := ZERO_BLINK;
      assert pool[..] == pool';
      Rest(list, k);
      nodes := Without(nodes, k);
      list := Without(list, k);
    }

    /** The body of the tasklet's loop: one node counts down, and flips and pokes when its countdown expires. */
    method TickNode(cur: Link, ghost k: nat)
      requires Valid() && k < |nodes| == |list| && cur == LinkTo(nodes, k)
      modifies this, pool, vmem
      ensures Valid() && nodes == old(nodes)
      ensures 2 * old(list)[k].location < |old(vmem[..])|
      ensures list == old(list)[k := Tick(old(list)[k])]
      ensures vmem[..] == Poke(old(vmem[..]), old(list)[k])
    {
      hide ListInv, Entries;
      AtNode(k);
      var e := pool[cur.index].entry;
      UpdateKeepsList(pool[..], head, nodes, k, Tick(e));
      var c := (e.countdown + 0xFFFF) % 0x1_0000;
      if 0 < c < 0x8000 {
        e := e.(countdown := c);
      } else if e.status % 2 == 1 {
        vmem[2 * e.location] := e.offChar;
        e := e.(countdown := e.offLength, status := e.status - 1);
      } else {
        vmem[2 * e.location] := e.onChar;
        e := e.(countdown := e.onLength, status := e.status + 1);
      }
      ghost var pool' := pool[..][nodes[k] := Blink(e, pool[nodes[k]].next)];
      pool[cur.index] := pool[cur.index].(entry := e);
      assert pool[..] == pool';
      list := list[k := e];
    }

    /** mp1_rtc_tasklet: every entry of the list ticks once, whatever slots it is stored in. */
    method Tasklet()
      requires Valid()
      modifies this, pool, vmem
      ensures Valid() && list == TickAll(old(list)) && nodes == old(nodes)
      ensures OnScreen(old(vmem[..]), old(list))
      ensures vmem[..] == PokeAll(old(vmem[..]), old(list))
    {
      ghost var before, screen := list, vmem[..];
      AtHead();
      hide ListInv, Entries, Poke, PokeAll, TickAll, OnScreen, Tick, TickedTo;
      TickedNone(before, screen);
      var cur := head;
      ghost var k := 0;
      while cur != Null
        invariant Valid() && nodes == old(nodes) && |nodes| == |list| == |before|
        invariant k <= |nodes| && cur == LinkTo(nodes, k)
        invariant TickedTo(before, list, screen, vmem[..], k)
        decreases |nodes| - k
      {
        ghost var list0, vmem0 := list, vmem[..];
        TickNode(cur, k);
        TickedNext(before, list0, screen, vmem0, k);
        AtNode(k);
        cur := pool[cur.index].next;
        k := k + 1;
      }
      TickedAll(before, list, screen, vmem[..]);
    }

    /** mp1_ioctl_sync, with the source location in the high and the target location in the low 16 bits. */
    method Sync(arg: word) returns (r: int)
      requires Valid()
      modifies this, pool, vmem
      ensures Valid() && nodes == old(nodes)
      ensures var s, t := IndexOf(old(list), arg / 0x1_0000), IndexOf(old(list), arg % 0x1_0000);
              if s < |old(list)| && t < |old(list)| then
                && r == 0
                && list == old(list)[t := CopyTiming(old(list)[s], old(list)[t])]
                && vmem[..] == old(vmem[..])[2 * list[t].location := list[t].offChar]
              else r == -1 && list == old(list) && pool[..] == old(pool[..]) && vmem[..] == old(vmem[..])
    {
      hide ListInv, Entries;
      var src, s := Find(arg / 0x1_0000);
      if src == Null {
        return -1;
      }
      var tgt, t := Find(arg % 0x1_0000);
      if tgt == Null {
        return -1;
      }
      AtNode(s);
      AtNode(t);
      var e := CopyTiming(pool[src.index].entry, pool[tgt.index].entry);
      UpdateKeepsList(pool[..], head, nodes, t, e);
      ghost var pool' := pool[..][nodes[t] := Blink(e, pool[nodes[t]].next)];
      pool[tgt.index] := pool[tgt.index].(entry := e);
      assert pool[..] == pool';
      list := list[t := e];
      // the conditional move never happens, so the off character is what is shown
      vmem[2 * e.location] := e.offChar;
      return 0;
    }
  }
}
