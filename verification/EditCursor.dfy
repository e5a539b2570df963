/**
 Editing a line on the screen: the cursor and the cells follow the line although backspacing over a row
 start lets the column go negative instead of going up a row.
 */
module EditCursor {
  import opened Bytes
  import opened Screens
  import opened Keyboard
  import opened Terminals

  const MAX_LINE := BUF_SIZE - 1

  predicate Printable(c: byte) {
    c != NUL && c != NEWLINE && c != RETURN
  }

  /** Printing scrolls the screen exactly when it fills the last cell. */
  predicate Scrolls(s: Screen)
  {
    Cursor(s) == CELLS - 1
  }

  /** A printed character goes to the cursor's cell and moves the cursor to the next one; when that was the
      last one, everything moves up by a row. */
  lemma TypeLinear(s: Screen, c: byte)
    requires Wf(s) && Printable(c)
    ensures var s' := Put(s, c);
            && Cursor(s') == (if Scrolls(s) then Cursor(s) + 1 - COLS else Cursor(s) + 1)
            && s'.cells == (if Scrolls(s) then Scrolled(Write(s.cells, Cursor(s), c)) else Write(s.cells, Cursor(s), c))
  {
  }

  /** Backspace moves the cursor back by one cell exactly when the column is not already 79 to the left of
      the row start; there it jumps forward by 79 cells. */
  lemma BackspaceLinearIff(s: Screen)
    requires CanBackspace(s)
    ensures Cursor(Backspace(s)) == Cursor(s) - 1 <==> s.x != -79
    ensures s.x == -79 ==> Cursor(Backspace(s)) == Cursor(s) + 79
    ensures Backspace(s).cells == Write(s.cells, Cursor(Backspace(s)), NUL)
  {
  }

  // ----- Sessions -----

  datatype Edit = Key(c: byte) | Back

  /** The screen, the line being edited, and the cell of its first character. */
  datatype Session = Session(screen: Screen, line: seq<byte>, origin: int)

  /** One key: a character while there is room for it, or the last character taken back. */
  function Step(e: Session, k: Edit): Session
    requires Wf(e.screen) && (k.Back? && e.line != [] ==> CanBackspace(e.screen))
  {
    match k
    case Key(c) =>
      if |e.line| < MAX_LINE then
        Session(Put(e.screen, c), Typed(e.line, c), if Scrolls(e.screen) then e.origin - COLS else e.origin)
      else e
    case Back =>
      if e.line != [] then Session(Backspace(e.screen), Erased(e.line), e.origin) else e
  }

  ghost predicate LineShown(cells: seq<byte>, line: seq<byte>, origin: int)
    requires |cells| == SIZE
  {
    forall i {:trigger line[i]} :: 0 <= i < |line| && 0 <= origin + i < CELLS ==> cells[2 * (origin + i)] == line[i]
  }

  /** The line stands on the screen from its origin on, at column `column` of a row, and the cursor is just
      behind it; the row of the cursor is that of the origin or the next one. */
  ghost predicate InSession(e: Session, column: int) {
    && Wf(e.screen)
    && |e.line| <= MAX_LINE && (forall c <- e.line :: Printable(c))
    && 0 <= e.origin && Cursor(e.screen) == e.origin + |e.line|
    && (e.origin == COLS * e.screen.y + column || e.origin == COLS * (e.screen.y - 1) + column)
    && LineShown(e.screen.cells, e.line, e.origin)
  }

  lemma ShownAfterWrite(cells: seq<byte>, line: seq<byte>, origin: int, c: byte)
    requires |cells| == SIZE && 0 <= origin + |line| < CELLS && LineShown(cells, line, origin)
    ensures LineShown(Write(cells, origin + |line|, c), line + [c], origin)
  {
  }

  lemma ShownAfterScroll(cells: seq<byte>, line: seq<byte>, origin: int)
    requires |cells| == SIZE && LineShown(cells, line, origin) && origin + |line| <= CELLS
    ensures LineShown(Scrolled(cells), line, origin - COLS)
  {
    forall i | 0 <= i < |line| && 0 <= origin - COLS + i < CELLS
      ensures Scrolled(cells)[2 * (origin - COLS + i)] == line[i]
    {
      assert 2 * (origin - COLS + i) + 2 * COLS == 2 * (origin + i);
    }
  }

  /** From a column between 1 and 32, in particular the shell prompt's column 7, every key keeps the line
      and the cursor together. */
  lemma StepKeepsSession(e: Session, k: Edit, column: int)
    requires InSession(e, column) && 1 <= column <= 32 && (k.Key? ==> Printable(k.c))
    ensures k.Back? && e.line != [] ==> CanBackspace(e.screen)
    ensures InSession(Step(e, k), column)
  {
    match k
    case Key(c) =>
      if |e.line| < MAX_LINE {
        KeyKeepsSession(e, c, column);
      }
    case Back =>
      if e.line != [] {
        BackKeepsSession(e, column);
      }
  }

  lemma KeyKeepsSession(e: Session, c: byte, column: int)
    requires InSession(e, column) && 1 <= column <= 32 && Printable(c) && |e.line| < MAX_LINE
    ensures InSession(Step(e, Key(c)), column)
  {
    TypeLinear(e.screen, c);
    var written := Write(e.screen.cells, Cursor(e.screen), c);
    ShownAfterWrite(e.screen.cells, e.line, e.origin, c);
    if Scrolls(e.screen) {
      ShownAfterScroll(written, e.line + [c], e.origin);
    }
    hide LineShown, Write, Scrolled;
  }

  lemma BackKeepsSession(e: Session, column: int)
    requires InSession(e, column) && 1 <= column <= 32 && e.line != []
    ensures CanBackspace(e.screen) && InSession(Step(e, Back), column)
  {
    assert e.screen.x > -79;
    BackspaceLinearIff(e.screen);
    var line := e.line[..|e.line| - 1];
    assert forall i :: 0 <= i < |line| ==> line[i] == e.line[i];
    assert LineShown(Backspace(e.screen).cells, line, e.origin);
  }

  predicate KeysOk(ks: seq<Edit>) {
    forall k <- ks :: k.Key? ==> Printable(k.c)
  }

  /** What the keys make of the line alone. */
  function Edited(line: seq<byte>, ks: seq<Edit>): seq<byte>
    decreases |ks|
  {
    if ks == [] then line
    else
      match ks[0]
      case Key(c) => Edited(Typed(line, c), ks[1..])
      case Back => Edited(Erased(line), ks[1..])
  }

  function Keys(cs: seq<byte>): (ks: seq<Edit>)
    ensures |ks| == |cs| && forall i :: 0 <= i < |cs| ==> ks[i] == Key(cs[i])
  {
    seq(|cs|, i requires 0 <= i < |cs| => Key(cs[i]))
  }

  /** Letters alone are the line, as far as there is room for 127. */
  lemma {:induction false} TypedIsLine(line: seq<byte>, cs: seq<byte>)
    requires |line| <= 127
    ensures Edited(line, Keys(cs)) == if |line + cs| <= 127 then line + cs else (line + cs)[..127]
    decreases |cs|
  {
    if cs != [] {
      assert Keys(cs)[1..] == Keys(cs[1..]);
      TypedIsLine(Typed(line, cs[0]), cs[1..]);
      if |line| < 127 {
        assert (line + [cs[0]]) + cs[1..] == line + cs;
      }
    } else {
      assert line + cs == line;
    }
  }

  /** One backspace takes back the last letter typed, on an empty line it does nothing, and edits go on where others end. */
  lemma {:induction false} EditedInParts(line: seq<byte>, first: seq<Edit>, more: seq<Edit>)
    ensures Edited(line, first + more) == Edited(Edited(line, first), more)
    decreases |first|
  {
    if first == [] {
      assert first + more == more;
    } else {
      assert (first + more)[0] == first[0] && (first + more)[1..] == first[1..] + more;
      EditedInParts(if first[0].Key? then Typed(line, first[0].c) else Erased(line), first[1..], more);
    }
  }

  lemma BackTakesBack(line: seq<byte>, c: byte)
    requires |line| < 127
    ensures Edited(line, [Key(c), Back]) == line && Edited([], [Back]) == []
  {
    var ks := [Key(c), Back];
    assert ks[1..] == [Back] && [Back][1..] == [];
    assert (line + [c])[..|line|] == line;
  }

  ghost function RunSession(e: Session, ks: seq<Edit>, column: int): (r: Session)
    requires InSession(e, column) && 1 <= column <= 32 && KeysOk(ks)
    ensures InSession(r, column)
    decreases |ks|
  {
    if ks == [] then e
    else
      StepKeepsSession(e, ks[0], column);
      RunSession(Step(e, ks[0]), ks[1..], column)
  }

  /** After any keys the screen shows exactly the edited line from its origin on, with the cursor behind it. */
  lemma {:induction false} SessionShowsEdits(s: Screen, ks: seq<Edit>)
    requires Wf(s) && 1 <= s.x <= 32 && KeysOk(ks)
    ensures var e := RunSession(Session(s, [], Cursor(s)), ks, s.x);
            && e.line == Edited([], ks)
            && Cursor(e.screen) == e.origin + |Edited([], ks)|
            && LineShown(e.screen.cells, Edited([], ks), e.origin)
  {
    SessionLine(Session(s, [], Cursor(s)), ks, s.x);
  }

  lemma {:induction false} SessionLine(e: Session, ks: seq<Edit>, column: int)
    requires InSession(e, column) && 1 <= column <= 32 && KeysOk(ks)
    ensures RunSession(e, ks, column).line == Edited(e.line, ks)
    decreases |ks|
  {
    if ks != [] {
      StepKeepsSession(e, ks[0], column);
      SessionLine(Step(e, ks[0]), ks[1..], column);
    }
  }

  // ----- The keys handled by the code -----

  /** The session that the viewed screen and its keyboard buffer are in. */
  ghost function SessionOf(d: Display, line: TerminalLine, origin: int): Session
    requires d.Ok()
    reads d, d.mem, d.termX, d.termY, line
  {
    Session(ScreenAt(d.View(), d.currTerm), line.text, origin)
  }

  ghost predicate Ready(d: Display, line: TerminalLine)
    reads d, d.mem, d.termX, d.termY, line, line.keyboardBuf
  {
    d.Ok() && line.Valid() && line.keyboardBuf != d.mem
  }

  /** process_key for a printable letter, or the backspace case of the handler: buffer and screen together. */
  method PressKey(d: Display, line: TerminalLine, k: Edit, ghost origin: int, ghost column: int) returns (ghost origin': int)
    requires Ready(d, line) && InSession(SessionOf(d, line, origin), column) && 1 <= column <= 32
    requires k.Key? ==> Printable(k.c)
    modifies d.mem, d.termX, d.termY, line, line.keyboardBuf
    ensures Ready(d, line) && InSession(SessionOf(d, line, origin'), column)
    ensures SessionOf(d, line, origin') == Step(old(SessionOf(d, line, origin)), k)
    ensures OthersAs(old(d.View()), d.View())
  {
    ghost var v, e := d.View(), SessionOf(d, line, origin);
    StepKeepsSession(e, k, column);
    origin' := Step(e, k).origin;
    match k
    case Key(c) =>
      if line.bufIdx <= 126 {
        line.AddToBuf(c);
        PrivateStep(v, PutChar(c, d.currTerm));
        d.Putc(c, d.currTerm);
      }
    case Back =>
      if line.bufIdx >= 0 {
        if line.bufIdx > 0 {
          PrivateStep(v, EraseChar);
          d.Erase();
        }
        line.DeleteFromBuf();
      }
  }

  /** No screen differs but the viewed one. */
  ghost predicate OthersAs(v: Video, v': Video) {
    && Screens.Valid(v) && Screens.Valid(v') && v'.viewed == v.viewed
    && forall t :: Terminal(t) && t != v.viewed ==> ScreenAt(v', t) == ScreenAt(v, t)
  }

  lemma PrivateStep(v: Video, op: Op)
    requires CanApply(v, op) && ((op.PutChar? && op.t == v.viewed) || op.EraseChar?)
    ensures OthersAs(v, Apply(v, op))
    ensures ScreenAt(Apply(v, op), v.viewed) ==
            if op.EraseChar? then Backspace(ScreenAt(v, v.viewed)) else Put(ScreenAt(v, v.viewed), op.c)
  {
    forall t | Terminal(t) ensures Screens.Valid(Apply(v, op)) && (t != v.viewed ==> ScreenAt(Apply(v, op), t) == ScreenAt(v, t)) {
      ApplyIsPrivate(v, op, t);
    }
    ApplyIsPrivate(v, op, v.viewed);
    hide ScreenAt, Screens.Valid, Backspace, Put;
  }

  /** A whole line typed and edited through the code: screen and buffer stay together, the cursor is at the line's origin
      plus buf_idx, and no other terminal's screen changes. */
  method EditLine(d: Display, line: TerminalLine, ks: seq<Edit>, ghost origin: int, ghost column: int) returns (ghost origin': int)
    requires Ready(d, line) && InSession(SessionOf(d, line, origin), column) && 1 <= column <= 32 && KeysOk(ks)
    modifies d.mem, d.termX, d.termY, line, line.keyboardBuf
    ensures Ready(d, line) && SessionOf(d, line, origin') == RunSession(old(SessionOf(d, line, origin)), ks, column)
    ensures line.text == Edited(old(line.text), ks)
    ensures Cursor(ScreenAt(d.View(), d.currTerm)) == origin' + line.bufIdx
    ensures OthersAs(old(d.View()), d.View())
    decreases |ks|
  {
    origin' := origin;
    if ks != [] {
      SessionLine(SessionOf(d, line, origin), ks, column);
      assert KeysOk(ks[1..]);
      var next := PressKey(d, line, ks[0], origin, column);
      origin' := EditLine(d, line, ks[1..], next, column);
    }
  }

  // ----- Which columns a line may begin at -----

  /** After every key the cursor is as far behind the line's origin as the line is long. */
  ghost predicate Together(e: Session, ks: seq<Edit>)
    decreases |ks|
  {
    && Wf(e.screen) && Cursor(e.screen) == e.origin + |e.line|
    && (ks == [] ||
        ((ks[0].Back? && e.line != [] ==> CanBackspace(e.screen)) && Together(Step(e, ks[0]), ks[1..])))
  }

  lemma {:induction false} SessionTogether(e: Session, ks: seq<Edit>, column: int)
    requires InSession(e, column) && 1 <= column <= 32 && KeysOk(ks)
    ensures Together(e, ks)
    decreases |ks|
  {
    if ks != [] {
      StepKeepsSession(e, ks[0], column);
      SessionTogether(Step(e, ks[0]), ks[1..], column);
    }
  }

  const LETTER: byte := 97

  /** n letters, then m times backspace. */
  function TypeAndErase(n: nat, m: nat): (ks: seq<Edit>)
    ensures |ks| == n + m && KeysOk(ks)
  {
    if n > 0 then [Key(LETTER)] + TypeAndErase(n - 1, m) else if m > 0 then [Back] + TypeAndErase(0, m - 1) else []
  }

  /** Backspacing a line past the column -79 makes the cursor jump. */
  lemma {:induction false} ErasingBreaks(e: Session, m: nat)
    requires -79 <= e.screen.x == m - 79 < COLS && |e.line| > m
    ensures !Together(e, TypeAndErase(0, m + 1))
    decreases m
  {
    var ks := TypeAndErase(0, m + 1);
    assert ks[0] == Back && ks[1..] == TypeAndErase(0, m);
    if Together(e, ks) {
      BackspaceLinearIff(e.screen);
      if m > 0 {
        ErasingBreaks(Step(e, Back), m - 1);
      }
    }
  }

  /** Typing n letters first brings the cursor to the column (x + n) mod 80. */
  lemma {:induction false} TypingThenErasingBreaks(e: Session, n: nat, m: nat)
    requires 0 <= e.screen.x < COLS && |e.line| + n <= MAX_LINE && |e.line| + n > m
    requires e.screen.x + n - m + 79 in {0, COLS, 2 * COLS} && m - 79 < COLS
    requires m >= 79
    ensures !Together(e, TypeAndErase(n, m + 1))
    decreases n
  {
    var ks := TypeAndErase(n, m + 1);
    if n == 0 {
      ErasingBreaks(e, m);
    } else if Together(e, ks) {
      assert ks[0] == Key(LETTER) && ks[1..] == TypeAndErase(n - 1, m + 1);
      TypeLinear(e.screen, LETTER);
      TypingThenErasingBreaks(Step(e, Key(LETTER)), n - 1, m);
    }
  }

  /** The cursor keeps with the line under all keys exactly when the line begins at a column from 1 to 32. */
  lemma ColumnIff(s: Screen)
    requires Wf(s) && 0 <= s.x < COLS
    ensures (forall ks | KeysOk(ks) :: Together(Session(s, [], Cursor(s)), ks)) <==> 1 <= s.x <= 32
  {
    var e := Session(s, [], Cursor(s));
    if 1 <= s.x <= 32 {
      forall ks | KeysOk(ks) ensures Together(e, ks) {
        SessionTogether(e, ks, s.x);
      }
    } else {
      var n, m := if s.x == 0 then 80 else MAX_LINE, if s.x == 0 then 79 else s.x + 46;
      TypingThenErasingBreaks(e, n, m);
      assert KeysOk(TypeAndErase(n, m + 1));
    }
  }
}
