/**
 Whole runs of the three line disciplines: keys, history moves and TAB go to the viewed terminal, terminal_read serves
 the scheduled one, and both change under way.
 */
module LineRuns {
  import opened Bytes
  import opened Keyboard
  import opened EditCursor
  import opened TabCompletion
  import opened Terminals

  /** A terminal's keyboard buffer with its history, and its key_flag. */
  datatype Line = Line(hist: Hist, entered: bool)

  /** What reaches one line. Enter brings the first bytes of the rows behind the history, TAB the directory's names and
      the byte behind the completion's rows: memory that the code reads but does not own. */
  datatype Stroke =
    | Press(k: Edit)
    | Enter(beyond: seq<byte>)
    | Read(nbytes: int)
    | Recall(m: Move)
    | Complete(names: seq<seq<byte>>, behind: byte)

  ghost predicate LineOk(l: Line) {
    HistSound(l.hist)
  }

  /** Mapped keys only; Enter and moves need room in the buffer; terminal_read returns only after Enter; a move up needs
      the draft slot in the history. */
  ghost predicate CanTake(l: Line, s: Stroke) {
    match s
    case Press(k) => k.Key? ==> k.c != NUL
    case Enter(beyond) => |l.hist.text| < BUF_SIZE && |beyond| == SCANNED - SLOTS
    case Read(n) => n > 0 ==> l.entered
    case Recall(m) => |l.hist.text| < BUF_SIZE && (m.MoveUp? ==> l.hist.draft < SLOTS)
    case Complete(names, _) => Completable(l.hist.text, names)
  }

  ghost function Take(l: Line, s: Stroke): Line
    requires LineOk(l) && CanTake(l, s)
  {
    var h := l.hist;
    match s
    case Press(k) => l.(hist := h.(text := if k.Key? then Typed(h.text, k.c) else Erased(h.text)))
    case Enter(beyond) => Line(Entered(h, beyond), true)
    case Read(n) => if n <= 0 then l else Line(h.(text := []), false)
    case Recall(m) => if h.draft >= SLOTS then l else l.(hist := if m.MoveUp? then Up(h) else Down(h))
    case Complete(names, _) => l.(hist := h.(text := Completed(h.text, names)))
  }

  /** What a read copies out. */
  ghost function Copied(l: Line, s: Stroke): seq<byte>
    requires LineOk(l)
  {
    if s.Read? && s.nbytes > 0 then SeenFrom(l.hist.text)[..Min(|SeenFrom(l.hist.text)|, s.nbytes)] else []
  }

  lemma TakeOk(l: Line, s: Stroke)
    requires LineOk(l) && CanTake(l, s)
    ensures LineOk(Take(l, s))
  {
    match s
    case Press(_) =>
    case Enter(beyond) => EnteredSound(l.hist, beyond);
    case Read(_) =>
    case Recall(_) => if l.hist.draft < SLOTS { MoveSound(l.hist); }
    case Complete(names, _) => CompletedNoNul(l.hist.text, names);
  }

  lemma MoveSound(h: Hist)
    requires HistSound(h) && HistOk(h)
    ensures HistSound(Up(h)) && HistSound(Down(h))
    ensures Up(h).draft == Down(h).draft == h.draft
    ensures forall i :: 0 <= i < h.draft ==> Up(h).slots[i] == Down(h).slots[i] == h.slots[i]
  {
    PaddedSlot(h.text);
  }

  ghost predicate StrokesOk(l: Line, ss: seq<Stroke>)
    requires LineOk(l)
    decreases |ss|
  {
    ss == [] || (CanTake(l, ss[0]) && (TakeOk(l, ss[0]); StrokesOk(Take(l, ss[0]), ss[1..])))
  }

  ghost function Final(l: Line, ss: seq<Stroke>): (r: Line)
    requires LineOk(l) && StrokesOk(l, ss)
    ensures LineOk(r)
    decreases |ss|
  {
    if ss == [] then l
    else
      TakeOk(l, ss[0]);
      Final(Take(l, ss[0]), ss[1..])
  }

  /** Everything the reads copy out, read by read. */
  ghost function Delivered(l: Line, ss: seq<Stroke>): seq<seq<byte>>
    requires LineOk(l) && StrokesOk(l, ss)
    decreases |ss|
  {
    if ss == [] then []
    else
      TakeOk(l, ss[0]);
      (if ss[0].Read? then [Copied(l, ss[0])] else []) + Delivered(Take(l, ss[0]), ss[1..])
  }

  // ----- One line: edit, Enter, read -----

  function Presses(ks: seq<Edit>): (ss: seq<Stroke>)
    ensures |ss| == |ks| && forall i :: 0 <= i < |ks| ==> ss[i] == Press(ks[i])
  {
    seq(|ks|, i requires 0 <= i < |ks| => Press(ks[i]))
  }

  predicate Mapped(ks: seq<Edit>) {
    forall k <- ks :: k.Key? ==> k.c != NUL
  }

  /** The line with another text in the buffer. */
  function WithText(l: Line, text: seq<byte>): Line {
    l.(hist := l.hist.(text := text))
  }

  lemma {:induction false} AfterPresses(l: Line, ks: seq<Edit>, rest: seq<Stroke>)
    requires LineOk(l) && |l.hist.text| < BUF_SIZE && Mapped(ks)
    ensures var l' := WithText(l, Edited(l.hist.text, ks));
            && |l'.hist.text| < BUF_SIZE && LineOk(l')
            && (StrokesOk(l, Presses(ks) + rest) <==> StrokesOk(l', rest))
            && (StrokesOk(l', rest) ==>
                && Final(l, Presses(ks) + rest) == Final(l', rest)
                && Delivered(l, Presses(ks) + rest) == Delivered(l', rest))
    decreases |ks|
  {
    var ss := Presses(ks) + rest;
    if ks == [] {
      assert ss == rest;
    } else {
      assert ks[0] in ks && forall k <- ks[1..] :: k in ks;
      assert Presses(ks)[1..] == Presses(ks[1..]);
      assert ss[0] == Press(ks[0]) && ss[1..] == Presses(ks[1..]) + rest;
      TakeOk(l, ss[0]);
      AfterPresses(Take(l, ss[0]), ks[1..], rest);
      hide SeenFrom, NoNul, LineOk;
    }
  }

  /** Any keys and backspaces on an empty line, then Enter, then terminal_read of n > 0 bytes: the read
      delivers the first n bytes of the edited line and its newline, unless the line fills the buffer and
      n asks for more than the buffer holds. The buffer is empty again. */
  lemma EnteredLineIsRead(l: Line, ks: seq<Edit>, beyond: seq<byte>, n: int)
    requires LineOk(l) && l.hist.text == [] && Mapped(ks) && |beyond| == SCANNED - SLOTS && n > 0
    ensures var line := Edited([], ks); var ss := Presses(ks) + [Enter(beyond), Read(n)];
            && StrokesOk(l, ss)
            && Final(l, ss).hist.text == [] && !Final(l, ss).entered
            && |Delivered(l, ss)| == 1
            && (Delivered(l, ss)[0] == (line + [NEWLINE])[..Min(|line| + 1, n)] <==> |line| <= 126 || n <= BUF_SIZE)
  {
    var line, rest := Edited([], ks), [Enter(beyond), Read(n)];
    AfterPresses(l, ks, rest);
    EnterThenRead(WithText(l, line), beyond, n);
    hide *;
  }

  lemma EnterThenRead(l: Line, beyond: seq<byte>, n: int)
    requires LineOk(l) && |l.hist.text| < BUF_SIZE && |beyond| == SCANNED - SLOTS && n > 0
    ensures var line, ss := l.hist.text, [Enter(beyond), Read(n)];
            && StrokesOk(l, ss)
            && Final(l, ss).hist.text == [] && !Final(l, ss).entered
            && |Delivered(l, ss)| == 1
            && (Delivered(l, ss)[0] == (line + [NEWLINE])[..Min(|line| + 1, n)] <==> |line| <= 126 || n <= BUF_SIZE)
  {
    var e := Enter(beyond);
    var ss := [e, Read(n)];
    TakeOk(l, e);
    var l1 := Take(l, e);
    assert l1.hist.text == l.hist.text + [NEWLINE] && l1.entered;
    TakeOk(l1, Read(n));
    ReadsEntered(l1, l.hist.text, n);
    var l2 := Take(l1, Read(n));
    assert ss[1..] == [Read(n)] && ss[1..][1..] == [];
    hide LineOk, SeenFrom, Entered;
    assert StrokesOk(l2, []) && Final(l2, []) == l2 && Delivered(l2, []) == [];
    assert StrokesOk(l1, [Read(n)]) && Final(l1, [Read(n)]) == l2 && Delivered(l1, [Read(n)]) == [Copied(l1, Read(n))] + [];
  }

  lemma ReadsEntered(l: Line, line: seq<byte>, n: int)
    requires LineOk(l) && l.hist.text == line + [NEWLINE] && |line| < BUF_SIZE && NoNul(line) && n > 0
    ensures Copied(l, Read(n)) == (line + [NEWLINE])[..Min(|line| + 1, n)] <==> |line| <= 126 || n <= BUF_SIZE
  {
    var text := line + [NEWLINE];
    SeenFromIff(text);
    if |line| == 127 {
      FullBufferSeen(text);
    }
  }

  // ----- Lines entered before -----

  /** Every Enter comes at the draft, or on a recalled line that is unchanged. */
  ghost predicate AllClean(l: Line, ss: seq<Stroke>)
    requires LineOk(l) && StrokesOk(l, ss)
    decreases |ss|
  {
    ss == [] || ((ss[0].Enter? ==> Clean(l.hist)) && (TakeOk(l, ss[0]); AllClean(Take(l, ss[0]), ss[1..])))
  }

  /** One stroke keeps every line entered before, unless it is an Enter on an edited recalled line. */
  lemma StrokeKeepsIff(l: Line, s: Stroke)
    requires LineOk(l) && CanTake(l, s)
    ensures (forall i :: 0 <= i < l.hist.draft && i < SLOTS ==> Take(l, s).hist.slots[i] == l.hist.slots[i]) <==>
            s.Enter? ==> Clean(l.hist)
    ensures (s.Enter? ==> Clean(l.hist)) ==> l.hist.draft <= Take(l, s).hist.draft
  {
    match s
    case Press(_) =>
    case Enter(beyond) =>
      EnterKeepsIff(l.hist, beyond);
      if Clean(l.hist) {
        CleanEnterMovesOn(l.hist, beyond);
      }
    case Read(_) =>
    case Recall(_) => if l.hist.draft < SLOTS { MoveSound(l.hist); }
    case Complete(_, _) =>
  }

  /** Over runs of keys, moves, TABs, reads and clean Enters no line entered before is lost or changed. */
  lemma {:induction false} SavedLinesSurvive(l: Line, ss: seq<Stroke>)
    requires LineOk(l) && StrokesOk(l, ss) && AllClean(l, ss)
    ensures l.hist.draft <= Final(l, ss).hist.draft
    ensures forall i :: 0 <= i < l.hist.draft && i < SLOTS ==> Final(l, ss).hist.slots[i] == l.hist.slots[i]
    decreases |ss|
  {
    if ss != [] {
      TakeOk(l, ss[0]);
      StrokeKeepsIff(l, ss[0]);
      SavedLinesSurvive(Take(l, ss[0]), ss[1..]);
      hide Take, CanTake;
    }
  }

  // ----- Browsing between edits -----

  /** A stroke more at the end of a run. */
  lemma {:induction false} OneMore(l: Line, ss: seq<Stroke>, s: Stroke)
    requires LineOk(l)
    ensures StrokesOk(l, ss + [s]) <==> StrokesOk(l, ss) && CanTake(Final(l, ss), s)
    ensures StrokesOk(l, ss + [s]) ==> Final(l, ss + [s]) == Take(Final(l, ss), s)
    decreases |ss|
  {
    if ss == [] {
      assert ([] + [s])[1..] == [] && ([] + [s])[0] == s;
      if CanTake(l, s) {
        TakeOk(l, s);
        assert StrokesOk(Take(l, s), []);
      }
    } else {
      assert (ss + [s])[0] == ss[0] && (ss + [s])[1..] == ss[1..] + [s];
      if CanTake(l, ss[0]) {
        TakeOk(l, ss[0]);
        OneMore(Take(l, ss[0]), ss[1..], s);
      }
      hide Take, CanTake, LineOk;
    }
  }

  /** The moves among the strokes. */
  function MovesOf(ss: seq<Stroke>): seq<Move> {
    if ss == [] then []
    else
      var last := ss[|ss| - 1];
      MovesOf(ss[..|ss| - 1]) + if last.Recall? then [last.m] else []
  }

  predicate NoEnter(ss: seq<Stroke>) {
    forall s <- ss :: !s.Enter?
  }

  /** The text shown when the draft position was last left, at first the one in the draft's slot. */
  ghost function DraftLeft(l: Line, ss: seq<Stroke>): seq<byte>
    requires LineOk(l) && |l.hist.slots| == SLOTS && 0 <= l.hist.draft < SLOTS && StrokesOk(l, ss)
  {
    if ss == [] then CString(l.hist.slots[l.hist.draft])
    else
      var init, last := ss[..|ss| - 1], ss[|ss| - 1];
      assert ss == init + [last];
      OneMore(l, init, last);
      var before := Final(l, init).hist;
      if last == Recall(MoveUp) && before.pos == before.draft then before.text else DraftLeft(l, init)
  }

  /** A move up always recalls, a move down only before the draft. */
  predicate Recalls(h: Hist, m: Move) {
    m.MoveUp? || h.pos < h.draft
  }

  /** h is the history `start` after browsing: at a position, with the draft's slot holding a text, and no other slot
      changed. */
  ghost predicate Browsed(start: Hist, h: Hist, pos: int, draft: seq<byte>) {
    && |start.slots| == |h.slots| == SLOTS && h.pos == pos && h.draft == start.draft && 0 <= h.draft < SLOTS
    && (forall i :: 0 <= i < SLOTS && i != h.draft ==> h.slots[i] == start.slots[i])
    && CString(h.slots[h.draft]) == draft
  }

  /** One stroke other than Enter. */
  lemma BrowsedNext(start: Hist, l: Line, s: Stroke, pos: int, draft: seq<byte>)
    requires LineOk(l) && CanTake(l, s) && !s.Enter? && Browsed(start, l.hist, pos, draft) && start.draft < SLOTS
    ensures s.Recall? ==>
      Browsed(start, Take(l, s).hist,
              if s.m.MoveUp? then (if pos > 0 then pos - 1 else pos) else if pos < start.draft then pos + 1 else pos,
              if s.m.MoveUp? && pos == start.draft then l.hist.text else draft)
    ensures !s.Recall? ==> Browsed(start, Take(l, s).hist, pos, draft)
  {
    if s.Recall? {
      MoveWalks(l.hist, s.m);
    }
  }

  /** From the draft, whatever keys, TABs and reads lie between the moves: the position is where the moves alone lead,
      no line entered before has changed, and the draft's slot holds the draft last left. */
  lemma {:induction false} EditsAndMoves(l: Line, ss: seq<Stroke>)
    requires LineOk(l) && l.hist.pos == l.hist.draft < SLOTS && StrokesOk(l, ss) && NoEnter(ss)
    ensures Browsed(l.hist, Final(l, ss).hist, Walk(l.hist.draft, MovesOf(ss)), DraftLeft(l, ss))
  {
    if ss != [] {
      var init, last := ss[..|ss| - 1], ss[|ss| - 1];
      assert ss == init + [last] && last in ss && forall s <- init :: s in ss;
      OneMore(l, init, last);
      OneMoreMeans(l, init, last);
      hide MovesOf, DraftLeft, Walk, Take, CanTake, LineOk, StrokesOk, Final;
      EditsAndMoves(l, init);
      BrowsedNext(l.hist, Final(l, init), last, Walk(l.hist.draft, MovesOf(init)), DraftLeft(l, init));
      WalkOn(l.hist.draft, MovesOf(init), if last.Recall? then [last.m] else []);
      assert Final(l, init).hist.pos == Walk(l.hist.draft, MovesOf(init)) && Final(l, init).hist.draft == l.hist.draft;
      hide Browsed;
    }
  }

  lemma OneMoreMeans(l: Line, init: seq<Stroke>, last: Stroke)
    requires LineOk(l) && 0 <= l.hist.draft < SLOTS && StrokesOk(l, init + [last])
    ensures MovesOf(init + [last]) == MovesOf(init) + if last.Recall? then [last.m] else []
    ensures StrokesOk(l, init)
    ensures var before := Final(l, init).hist;
            DraftLeft(l, init + [last]) ==
            if last == Recall(MoveUp) && before.pos == before.draft then before.text else DraftLeft(l, init)
  {
    OneMore(l, init, last);
    assert (init + [last])[..|init|] == init;
    hide LineOk, Take, CanTake, StrokesOk, Final;
  }

  lemma WalkOn(draft: int, ms: seq<Move>, more: seq<Move>)
    requires |more| <= 1
    ensures Walk(draft, ms + more) ==
            var p := Walk(draft, ms);
            if more == [] then p
            else if more[0].MoveUp? then (if p > 0 then p - 1 else p) else if p < draft then p + 1 else p
  {
    assert more == [] ==> ms + more == ms;
    assert more != [] ==> (ms + more)[..|ms|] == ms;
  }

  /** One move: a step on the walk; the draft is saved exactly when the draft position is left upwards. */
  lemma MoveWalks(h: Hist, m: Move)
    requires HistSound(h) && h.draft < SLOTS && |h.text| < BUF_SIZE
    ensures var r := if m.MoveUp? then Up(h) else Down(h);
            && HistOk(h) && r.draft == h.draft
            && r.pos == (if m.MoveUp? then (if h.pos > 0 then h.pos - 1 else h.pos)
                         else if h.pos < h.draft then h.pos + 1 else h.pos)
            && (forall i :: 0 <= i < SLOTS && i != h.draft ==> r.slots[i] == h.slots[i])
            && CString(r.slots[h.draft]) == (if m.MoveUp? && h.pos == h.draft then h.text else CString(h.slots[h.draft]))
            && r.text == if Recalls(h, m) then CString(r.slots[r.pos]) else h.text
  {
    PaddedSlot(h.text);
  }

  /** Right after a move that recalls, the buffer shows the line saved at the new position, or, at the draft position, the
      draft last left, whatever was typed in between. */
  lemma MoveShows(l: Line, ss: seq<Stroke>, m: Move)
    requires LineOk(l) && l.hist.pos == l.hist.draft < SLOTS && StrokesOk(l, ss + [Recall(m)]) && NoEnter(ss)
    ensures StrokesOk(l, ss)
    ensures var before, after := Final(l, ss).hist, Final(l, ss + [Recall(m)]).hist;
            Recalls(before, m) ==>
              && after.pos == Walk(l.hist.draft, MovesOf(ss) + [m])
              && after.text == if after.pos < l.hist.draft then CString(l.hist.slots[after.pos])
                               else DraftLeft(l, ss + [Recall(m)])
  {
    var all := ss + [Recall(m)];
    OneMore(l, ss, Recall(m));
    assert all[..|ss|] == ss && MovesOf(all) == MovesOf(ss) + [m];
    assert NoEnter(all);
    EditsAndMoves(l, all);
    EditsAndMoves(l, ss);
    MoveWalks(Final(l, ss).hist, m);
    hide Up, Down, LineOk, MovesOf, Walk, Final, DraftLeft;
  }

  // ----- A line is found again -----

  /** A line that is entered at the draft with the following row empty, and read, is what a move up shows next. */
  lemma EnteredLineIsRecalled(l: Line, beyond: seq<byte>, n: int)
    requires LineOk(l) && l.hist.pos == l.hist.draft < SLOTS - 1 && l.hist.text != [] && |l.hist.text| < BUF_SIZE
    requires CString(l.hist.slots[l.hist.draft + 1]) == [] && |beyond| == SCANNED - SLOTS && n > 0
    ensures var ss := [Enter(beyond), Read(n), Recall(MoveUp)];
            StrokesOk(l, ss) && Final(l, ss).hist.text == l.hist.text
  {
    var h, e := l.hist, Enter(beyond);
    var ss := [e, Read(n), Recall(MoveUp)];
    TakeOk(l, e);
    var l1 := Take(l, e);
    NextDraft(h, beyond);
    TakeOk(l1, Read(n));
    var l2 := Take(l1, Read(n));
    assert l2.hist.pos == l2.hist.draft == h.draft + 1 && l2.hist.slots[h.draft] == Padded(h.text) && l2.hist.text == [];
    PaddedSlot(h.text);
    TakeOk(l2, Recall(MoveUp));
    MoveWalks(l2.hist, MoveUp);
    var l3 := Take(l2, Recall(MoveUp));
    hide LineOk, Entered, Up, Down;
    assert ss[1..] == [Read(n), Recall(MoveUp)] && ss[1..][1..] == [Recall(MoveUp)] && ss[1..][1..][1..] == [];
    assert StrokesOk(l3, []) && Final(l3, []) == l3;
    assert StrokesOk(l2, [Recall(MoveUp)]) && Final(l2, [Recall(MoveUp)]) == l3;
    assert StrokesOk(l1, ss[1..]) && Final(l1, ss[1..]) == l3;
  }

  lemma NextDraft(h: Hist, beyond: seq<byte>)
    requires HistSound(h) && h.pos == h.draft < SLOTS - 1 && h.text != [] && |h.text| < BUF_SIZE
    requires CString(h.slots[h.draft + 1]) == [] && |beyond| == SCANNED - SLOTS
    ensures var r := Entered(h, beyond);
            && r.pos == r.draft == h.draft + 1 && r.slots == h.slots[h.draft := Padded(h.text)]
  {
    var slots := h.slots[h.draft := Padded(h.text)];
    PaddedSlot(h.text);
    assert forall i :: 0 <= i < SLOTS ==> SlotOk(slots[i]);
    StartsEmpty(slots);
    var rows := Starts(slots) + beyond;
    assert forall i :: 0 <= i < SLOTS ==> rows[i] == Starts(slots)[i];
    assert forall i :: 0 <= i <= h.draft ==> CString(slots[i]) != [];
    FirstEmptyIs(rows, h.draft + 1);
  }

  // ----- Three terminals -----

  /** Every terminal's line, the terminal on the screen, and the one whose process runs. */
  datatype Console = Console(lines: seq<Line>, viewed: nat, running: nat)

  datatype Event = Keyed(s: Stroke) | ReadBy(nbytes: int) | View(t: nat) | Schedule(t: nat)

  ghost predicate ConsoleOk(c: Console) {
    && |c.lines| == TERMINALS && c.viewed < TERMINALS && c.running < TERMINALS
    && forall l <- c.lines :: LineOk(l)
  }

  ghost predicate EventOk(c: Console, e: Event)
    requires ConsoleOk(c)
  {
    match e
    case Keyed(s) => !s.Read? && CanTake(c.lines[c.viewed], s)
    case ReadBy(n) => CanTake(c.lines[c.running], Read(n))
    case View(t) => t < TERMINALS
    case Schedule(t) => t < TERMINALS
  }

  ghost function Happen(c: Console, e: Event): (c': Console)
    requires ConsoleOk(c) && EventOk(c, e)
    ensures ConsoleOk(c')
  {
    match e
    case Keyed(s) =>
      TakeOk(c.lines[c.viewed], s);
      c.(lines := c.lines[c.viewed := Take(c.lines[c.viewed], s)])
    case ReadBy(n) =>
      TakeOk(c.lines[c.running], Read(n));
      c.(lines := c.lines[c.running := Take(c.lines[c.running], Read(n))])
    case View(t) => c.(viewed := t)
    case Schedule(t) => c.(running := t)
  }

  ghost predicate RunOk(c: Console, es: seq<Event>)
    requires ConsoleOk(c)
    decreases |es|
  {
    es == [] || (EventOk(c, es[0]) && RunOk(Happen(c, es[0]), es[1..]))
  }

  ghost function Happened(c: Console, es: seq<Event>): (c': Console)
    requires ConsoleOk(c) && RunOk(c, es)
    ensures ConsoleOk(c')
    decreases |es|
  {
    if es == [] then c else Happened(Happen(c, es[0]), es[1..])
  }

  /** What the reads of terminal t copy out during the run. */
  ghost function Outputs(c: Console, es: seq<Event>, t: nat): seq<seq<byte>>
    requires ConsoleOk(c) && RunOk(c, es)
    decreases |es|
  {
    if es == [] then []
    else
      (if es[0].ReadBy? && c.running == t then [Copied(c.lines[c.running], Read(es[0].nbytes))] else [])
      + Outputs(Happen(c, es[0]), es[1..], t)
  }

  /** What an event means to terminal t: keys reach it while it is viewed, reads while it runs. */
  function Own(c: Console, e: Event, t: nat): seq<Stroke> {
    match e
    case Keyed(s) => if c.viewed == t then [s] else []
    case ReadBy(n) => if c.running == t then [Read(n)] else []
    case _ => []
  }

  ghost function Strokes(c: Console, es: seq<Event>, t: nat): seq<Stroke>
    requires ConsoleOk(c) && RunOk(c, es)
    decreases |es|
  {
    if es == [] then [] else Own(c, es[0], t) + Strokes(Happen(c, es[0]), es[1..], t)
  }

  /** Under any interleaving, each terminal's line, and all that its reads copy out, is what its own strokes
      make of it. */
  lemma {:induction false} LinesArePrivate(c: Console, es: seq<Event>, t: nat)
    requires ConsoleOk(c) && RunOk(c, es) && t < TERMINALS
    ensures StrokesOk(c.lines[t], Strokes(c, es, t))
    ensures Happened(c, es).lines[t] == Final(c.lines[t], Strokes(c, es, t))
    ensures Outputs(c, es, t) == Delivered(c.lines[t], Strokes(c, es, t))
    decreases |es|
  {
    if es != [] {
      var c' := Happen(c, es[0]);
      LinesArePrivate(c', es[1..], t);
      var own, rest := Own(c, es[0], t), Strokes(c', es[1..], t);
      OwnStep(c, es[0], t);
      if own == [] {
        assert own + rest == rest;
      } else {
        assert (own + rest)[0] == own[0] && (own + rest)[1..] == rest;
      }
      hide Own, Take, CanTake, Happen, Copied, LineOk, EventOk;
    }
  }

  /** One event is, for terminal t, its own stroke or nothing. */
  lemma OwnStep(c: Console, e: Event, t: nat)
    requires ConsoleOk(c) && EventOk(c, e) && t < TERMINALS
    ensures var l, l', own := c.lines[t], Happen(c, e).lines[t], Own(c, e, t);
            && LineOk(l) && LineOk(l') && |own| <= 1
            && (own == [] ==> l' == l && !(e.ReadBy? && c.running == t))
            && (own != [] ==> CanTake(l, own[0]) && l' == Take(l, own[0]))
            && (own != [] ==> (own[0].Read? <==> e.ReadBy? && c.running == t))
            && (own != [] && own[0].Read? ==> own[0] == Read(e.nbytes))
  {
    hide Take, CanTake, HistSound;
  }

  // ----- The buffers in memory -----

  /** A terminal's buffers are sound, and its history holds terminated strings. */
  ghost predicate LineReady(line: TerminalLine)
    reads line, line.keyboardBuf, line.history
  {
    line.Valid() && HistSound(line.HistView())
  }

  ghost function LineOf(line: TerminalLine): Line
    reads line, line.history
  {
    Line(line.HistView(), line.keyFlag)
  }

  /** One stroke handled by the terminal's code. */
  method Handle(line: TerminalLine, s: Stroke) returns (out: seq<byte>)
    requires LineReady(line) && CanTake(LineOf(line), s)
    modifies line, line.keyboardBuf, line.history
    ensures LineReady(line) && LineOk(old(LineOf(line)))
    ensures LineOf(line) == Take(old(LineOf(line)), s) && out == Copied(old(LineOf(line)), s)
  {
    TakeOk(LineOf(line), s);
    out := [];
    match s
    case Press(k) =>
      if k.Key? {
        line.AddToBuf(k.c);
      } else {
        line.DeleteFromBuf();
      }
    case Enter(beyond) =>
      var _ := line.KeyboardReturn(beyond);
    case Read(n) =>
      var bytes, copied := line.TerminalRead(n);
      out := copied;
    case Recall(m) =>
      if m.MoveUp? {
        var _ := line.MoveUpHistory();
      } else {
        var _ := line.MoveDownHistory();
      }
    case Complete(names, behind) =>
      Autocomplete(line, names, behind);
  }

  /** Three terminals that share no memory. */
  ghost predicate Apart(ts: seq<TerminalLine>) {
    && |ts| == TERMINALS
    && forall t, u :: 0 <= t < u < TERMINALS ==>
      ts[t] != ts[u] && ts[t].keyboardBuf != ts[u].keyboardBuf && ts[t].history != ts[u].history
  }

  ghost predicate AllReady(ts: seq<TerminalLine>)
    reads ts, set t | t in ts :: t.keyboardBuf, set t | t in ts :: t.history
  {
    Apart(ts) && forall t :: 0 <= t < TERMINALS ==> LineReady(ts[t])
  }

  ghost function ConsoleOf(ts: seq<TerminalLine>, viewed: nat, running: nat): Console
    reads ts, set t | t in ts :: t.history
  {
    Console(seq(|ts|, t requires 0 <= t < |ts| reads ts, set t | t in ts :: t.history => LineOf(ts[t])), viewed, running)
  }

  /** A stroke on one terminal leaves the others alone. */
  method HandleOn(ts: seq<TerminalLine>, t: nat, s: Stroke, ghost viewed: nat, ghost running: nat)
    returns (out: seq<byte>)
    requires AllReady(ts) && t < TERMINALS && CanTake(LineOf(ts[t]), s)
    modifies ts, set t | t in ts :: t.keyboardBuf, set t | t in ts :: t.history
    ensures AllReady(ts) && LineOk(old(LineOf(ts[t]))) && out == Copied(old(LineOf(ts[t])), s)
    ensures var c := old(ConsoleOf(ts, viewed, running));
            ConsoleOf(ts, viewed, running) == c.(lines := c.lines[t := Take(c.lines[t], s)])
  {
    out := Handle(ts[t], s);
  }

  /** One event handled by the code; a switch and a scheduling step only change which terminal is meant. */
  method Occur(ts: seq<TerminalLine>, viewed: nat, running: nat, e: Event)
    returns (out: seq<byte>, viewed': nat, running': nat)
    requires AllReady(ts) && ConsoleOk(ConsoleOf(ts, viewed, running)) && EventOk(ConsoleOf(ts, viewed, running), e)
    modifies ts, set t | t in ts :: t.keyboardBuf, set t | t in ts :: t.history
    ensures AllReady(ts)
    ensures var c := old(ConsoleOf(ts, viewed, running));
            && ConsoleOf(ts, viewed', running') == Happen(c, e)
            && (e.ReadBy? ==> out == Copied(c.lines[running], Read(e.nbytes)))
  {
    out, viewed', running' := [], viewed, running;
    match e
    case Keyed(s) =>
      var _ := HandleOn(ts, viewed, s, viewed, running);
    case ReadBy(n) =>
      out := HandleOn(ts, running, Read(n), viewed, running);
    case View(t) =>
      viewed' := t;
    case Schedule(t) =>
      running' := t;
  }

  /** Every event handled by the code, one after the other: buffers and copied bytes are those of the model. */
  method Run(ts: seq<TerminalLine>, viewed: nat, running: nat, es: seq<Event>)
    returns (outs: seq<seq<seq<byte>>>)
    requires AllReady(ts)
    requires ConsoleOk(ConsoleOf(ts, viewed, running)) && RunOk(ConsoleOf(ts, viewed, running), es)
    modifies ts, set t | t in ts :: t.keyboardBuf, set t | t in ts :: t.history
    ensures AllReady(ts) && |outs| == TERMINALS
    ensures var c := old(ConsoleOf(ts, viewed, running));
            && ConsoleOf(ts, Happened(c, es).viewed, Happened(c, es).running) == Happened(c, es)
            && forall t :: 0 <= t < TERMINALS ==> outs[t] == Outputs(c, es, t)
    decreases |es|
  {
    if es == [] {
      outs := [[], [], []];
    } else {
      hide AllReady, ConsoleOf, Copied, EventOk, Happen;
      var out, v, r := Occur(ts, viewed, running, es[0]);
      outs := Run(ts, v, r, es[1..]);
      if es[0].ReadBy? {
        outs := outs[running := [out] + outs[running]];
      }
    }
  }

  /** So each terminal's buffer, and all that its reads copied out, are what its own strokes make of its line. */
  method RunPrivately(ts: seq<TerminalLine>, viewed: nat, running: nat, es: seq<Event>)
    returns (outs: seq<seq<seq<byte>>>)
    requires AllReady(ts)
    requires ConsoleOk(ConsoleOf(ts, viewed, running)) && RunOk(ConsoleOf(ts, viewed, running), es)
    modifies ts, set t | t in ts :: t.keyboardBuf, set t | t in ts :: t.history
    ensures AllReady(ts) && |outs| == TERMINALS
    ensures var c := old(ConsoleOf(ts, viewed, running));
            forall t :: 0 <= t < TERMINALS ==>
              && StrokesOk(c.lines[t], Strokes(c, es, t))
              && LineOf(ts[t]) == Final(c.lines[t], Strokes(c, es, t))
              && outs[t] == Delivered(c.lines[t], Strokes(c, es, t))
  {
    ghost var c := ConsoleOf(ts, viewed, running);
    outs := Run(ts, viewed, running, es);
    ghost var lines := ConsoleOf(ts, Happened(c, es).viewed, Happened(c, es).running).lines;
    forall t | 0 <= t < TERMINALS
      ensures StrokesOk(c.lines[t], Strokes(c, es, t))
      ensures lines[t] == Final(c.lines[t], Strokes(c, es, t)) && outs[t] == Delivered(c.lines[t], Strokes(c, es, t))
    {
      LinesArePrivate(c, es, t);
    }
    assert forall t :: 0 <= t < TERMINALS ==> lines[t] == LineOf(ts[t]);
  }
}
