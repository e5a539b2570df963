/**
 Three virtual screens over one flat video memory: offset 0 is the video page at 0xB8000, page t + 1 backs
 terminal t. A private 80 x 25 screen is what each terminal is promised; the memory is shown to hold one each.
 */
module Screens {
  import opened Bytes
  import opened MemOps
  import opened Terminals

  const COLS := 80
  const ROWS := 25
  const CELLS := 2000
  const SIZE := 4000
  const PAGE := 0x1000
  const RETURN: byte := 13
  const ATTRIB: byte := 7

  // ----- A private screen -----

  datatype Screen = Screen(cells: seq<byte>, x: int, y: int)

  /** Position of the cursor counted along the rows. Backspacing across a row start makes x negative. */
  function Cursor(s: Screen): int {
    COLS * s.y + s.x
  }

  predicate Wf(s: Screen) {
    |s.cells| == SIZE && 0 <= s.y < ROWS && -COLS < s.x < COLS && 0 <= Cursor(s)
  }

  function Write(cells: seq<byte>, i: int, c: byte): (r: seq<byte>)
    requires |cells| == SIZE && 0 <= i < CELLS
    ensures |r| == SIZE
  {
    cells[2 * i := c][2 * i + 1 := ATTRIB]
  }

  function BlankCell(i: int): byte {
    if i % 2 == 0 then SPACE else ATTRIB
  }

  function Cleared(): (r: seq<byte>)
    ensures |r| == SIZE
  {
    seq(SIZE, i => BlankCell(i))
  }

  /** Every row moved up by one, the last one blank. */
  function Scrolled(cells: seq<byte>): (r: seq<byte>)
    requires |cells| == SIZE
    ensures |r| == SIZE
  {
    seq(SIZE, i requires 0 <= i < SIZE => if i < SIZE - 2 * COLS then cells[i + 2 * COLS] else BlankCell(i))
  }

  function Settle(s: Screen): Screen
    requires |s.cells| == SIZE
  {
    var s1 := if s.x >= COLS then s.(x := 0, y := s.y + 1) else s;
    if s1.y >= ROWS then Screen(Scrolled(s1.cells), 0, ROWS - 1) else s1
  }

  function Put(s: Screen, c: byte): (r: Screen)
    requires Wf(s)
    ensures Wf(r)
  {
    if c == NUL then s
    else if c == NEWLINE || c == RETURN then Settle(s.(x := 0, y := s.y + 1))
    else Settle(Screen(Write(s.cells, Cursor(s), c), s.x + 1, s.y))
  }

  function Clear(s: Screen): (r: Screen)
    requires Wf(s)
    ensures Wf(r)
  {
    Screen(Cleared(), 0, 0)
  }

  /** The remainder of C, which has the sign of the dividend. */
  function CMod(a: int, m: int): int
    requires m > 0
  {
    if a >= 0 then a % m else -((-a) % m)
  }

  function CDiv(a: int, m: int): int
    requires m > 0
  {
    if a >= 0 then a / m else -((-a) / m)
  }

  function BackX(s: Screen): int {
    CMod(s.x - 1, COLS)
  }

  /** There is a cell before the cursor, or the cursor is where the remainder makes it jump. */
  predicate CanBackspace(s: Screen) {
    Wf(s) && COLS * s.y + BackX(s) >= 0
  }

  function Backspace(s: Screen): (r: Screen)
    requires CanBackspace(s)
    ensures Wf(r)
  {
    var x := BackX(s);
    Screen(Write(s.cells, COLS * s.y + x, NUL), x, s.y)
  }

  /** Backspace never changes the row. */
  lemma SameRow(s: Screen)
    requires Wf(s)
    ensures CMod(s.y + CDiv(BackX(s), COLS), ROWS) == s.y
  {
  }

  // ----- Cell by cell -----

  /** Character and attribute in a row and column of the 80 x 25 grid, two bytes a cell. */
  function CellAt(cells: seq<byte>, row: int, col: int): (byte, byte)
    requires |cells| == 4000 && 0 <= row < 25 && 0 <= col < 80
  {
    (cells[160 * row + 2 * col], cells[160 * row + 2 * col + 1])
  }

  /** Every cell is the one a row below it, and the last row holds spaces on the plain attribute. */
  ghost predicate MovedUp(before: seq<byte>, after: seq<byte>) {
    && |before| == |after| == 4000
    && (forall row, col :: 0 <= row < 24 && 0 <= col < 80 ==> CellAt(after, row, col) == CellAt(before, row + 1, col))
    && (forall col :: 0 <= col < 80 ==> CellAt(after, 24, col) == (32, 7))
  }

  /** One cell holds a character on the plain attribute, every other cell is as before. */
  ghost predicate OneCell(before: seq<byte>, after: seq<byte>, row: int, col: int, c: byte)
    requires 0 <= row < 25 && 0 <= col < 80
  {
    && |before| == |after| == 4000
    && CellAt(after, row, col) == (c, 7)
    && forall r, k :: 0 <= r < 25 && 0 <= k < 80 && (r != row || k != col) ==> CellAt(after, r, k) == CellAt(before, r, k)
  }

  lemma ScrolledMovesUp(cells: seq<byte>)
    requires |cells| == SIZE
    ensures MovedUp(cells, Scrolled(cells))
  {
    var after := Scrolled(cells);
    forall row, col | 0 <= row < 24 && 0 <= col < 80 ensures CellAt(after, row, col) == CellAt(cells, row + 1, col) {
      assert 160 * row + 2 * col + 2 * COLS == 160 * (row + 1) + 2 * col;
    }
    forall col | 0 <= col < 80 ensures CellAt(after, 24, col) == (32, 7) {
      assert (160 * 24 + 2 * col) % 2 == 0 && (160 * 24 + 2 * col + 1) % 2 == 1;
    }
  }

  lemma WriteIsOneCell(cells: seq<byte>, row: int, col: int, c: byte)
    requires |cells| == SIZE && 0 <= row < 25 && 0 <= col < 80
    ensures OneCell(cells, Write(cells, 80 * row + col, c), row, col, c)
  {
  }

  /** A line feed or carriage return goes to the start of the next row; on the last row everything moves up instead. */
  lemma NewlineMeans(s: Screen, c: byte)
    requires Wf(s) && (c == NEWLINE || c == RETURN)
    ensures Cursor(Put(s, c)) == COLS * (if s.y < ROWS - 1 then s.y + 1 else ROWS - 1) && Put(s, c).x == 0
    ensures if s.y < ROWS - 1 then Put(s, c).cells == s.cells else MovedUp(s.cells, Put(s, c).cells)
  {
    ScrolledMovesUp(s.cells);
    hide MovedUp, Scrolled;
  }

  /** Any other character but NUL fills the cursor's cell and moves on by one column, at the end of a row to the start of the
      next one; behind the last cell of the screen everything moves up. */
  lemma PrintMeans(s: Screen, c: byte)
    requires Wf(s) && c != NUL && c != NEWLINE && c != RETURN && 0 <= s.x
    ensures var s' := Put(s, c); var written := Write(s.cells, 80 * s.y + s.x, c);
            && OneCell(s.cells, written, s.y, s.x, c)
            && (s.x < 79 ==> s' == Screen(written, s.x + 1, s.y))
            && (s.x == 79 && s.y < 24 ==> s' == Screen(written, 0, s.y + 1))
            && (s.x == 79 && s.y == 24 ==> s'.x == 0 && s'.y == 24 && MovedUp(written, s'.cells))
  {
    var written := Write(s.cells, 80 * s.y + s.x, c);
    WriteIsOneCell(s.cells, s.y, s.x, c);
    ScrolledMovesUp(written);
    hide MovedUp, Scrolled, OneCell, Write;
  }

  /** After a backspace over row starts the column is negative; the cell is then the one that far before the row. */
  lemma PrintLeftMeans(s: Screen, c: byte)
    requires Wf(s) && c != NUL && c != NEWLINE && c != RETURN && s.x < 0
    ensures s.y >= 1 && OneCell(s.cells, Put(s, c).cells, s.y - 1, 80 + s.x, c)
    ensures Put(s, c).x == s.x + 1 && Put(s, c).y == s.y
  {
    WriteIsOneCell(s.cells, s.y - 1, 80 + s.x, c);
    assert 80 * (s.y - 1) + (80 + s.x) == Cursor(s);
    hide OneCell, Write, Scrolled;
  }

  /** Clear leaves spaces on the plain attribute everywhere and the cursor in the corner. */
  lemma ClearMeans(s: Screen)
    requires Wf(s)
    ensures Clear(s).x == 0 && Clear(s).y == 0
    ensures forall row, col :: 0 <= row < 25 && 0 <= col < 80 ==> CellAt(Clear(s).cells, row, col) == (32, 7)
  {
    forall row, col | 0 <= row < 25 && 0 <= col < 80 ensures CellAt(Clear(s).cells, row, col) == (32, 7) {
      var j := 80 * row + col;
      assert 160 * row + 2 * col == 2 * j;
      assert BlankCell(2 * j) == 32 && BlankCell(2 * j + 1) == 7;
    }
  }

  /** Backspace empties exactly one cell: the one before the cursor, or, from the column -79, the row's first one. */
  lemma BackspaceMeans(s: Screen)
    requires CanBackspace(s)
    ensures var at := if s.x == -79 then 80 * s.y else 80 * s.y + s.x - 1;
            && 0 <= at < 2000 && Cursor(Backspace(s)) == at && Backspace(s).y == s.y
            && OneCell(s.cells, Backspace(s).cells, at / 80, at % 80, 0)
  {
    var at := if s.x == -79 then 80 * s.y else 80 * s.y + s.x - 1;
    assert COLS * s.y + BackX(s) == at;
    assert at == 80 * (at / 80) + at % 80;
    WriteIsOneCell(s.cells, at / 80, at % 80, NUL);
    hide OneCell, Write;
  }

  // ----- The flat memory -----

  datatype Video = Video(mem: seq<byte>, viewed: int, xs: seq<int>, ys: seq<int>)

  predicate Sized(v: Video) {
    |v.mem| == 4 * PAGE && |v.xs| == 3 && |v.ys| == 3 && Terminal(v.viewed)
  }

  /** Where terminal t's screen lies. */
  function Base(t: int, viewed: int): int {
    if t == viewed then 0 else (t + 1) * PAGE
  }

  function ScreenAt(v: Video, t: int): (s: Screen)
    requires Sized(v) && Terminal(t)
    ensures |s.cells| == SIZE
  {
    var b := Base(t, v.viewed);
    Screen(v.mem[b..b + SIZE], v.xs[t], v.ys[t])
  }

  function WithScreen(v: Video, t: int, s: Screen): (r: Video)
    requires Sized(v) && Terminal(t) && |s.cells| == SIZE
    ensures Sized(r)
  {
    v.(mem := Overwrite(v.mem, Base(t, v.viewed), s.cells), xs := v.xs[t := s.x], ys := v.ys[t := s.y])
  }

  predicate Valid(v: Video) {
    Sized(v) && forall t :: 0 <= t < 3 ==> Wf(ScreenAt(v, t))
  }

  /** Writing one terminal's screen leaves the others alone, whichever is in view: the pages do not overlap. */
  lemma WrittenScreen(v: Video, t: int, s: Screen, u: int)
    requires Sized(v) && Terminal(t) && Terminal(u) && |s.cells| == SIZE
    ensures ScreenAt(WithScreen(v, t, s), u) == if u == t then s else ScreenAt(v, u)
  {
    OverwriteSlice(v.mem, Base(t, v.viewed), s.cells, Base(u, v.viewed), SIZE);
  }

  /** Two copies: the page at 0 goes to old0, that at new0 to 0. */
  function CopiedPages(mem: seq<byte>, old0: nat, new0: nat): (r: seq<byte>)
    requires old0 + SIZE <= |mem| && new0 + SIZE <= |mem|
    ensures |r| == |mem|
  {
    var saved := Overwrite(mem, old0, mem[0..SIZE]);
    Overwrite(saved, 0, saved[new0..new0 + SIZE])
  }

  /** The two copies of switch_terminals: video page to the old backing page, new backing page to the video page. */
  function Switched(v: Video, next: int): (r: Video)
    requires Sized(v) && Terminal(next)
    ensures Sized(r)
  {
    if v.viewed == next then v
    else
      v.(mem := CopiedPages(v.mem, (v.viewed + 1) * PAGE, (next + 1) * PAGE), viewed := next)
  }

  /** Switching terminals changes no terminal's screen. */
  lemma SwitchKeepsScreens(v: Video, next: int, t: int)
    requires Sized(v) && Terminal(next) && Terminal(t)
    ensures ScreenAt(Switched(v, next), t) == ScreenAt(v, t)
  {
    hide CopiedPages, ScreenAt, Base;
    if v.viewed != next {
      PagesApart(t, v.viewed, next);
      var old0, new0, b, b' := (v.viewed + 1) * PAGE, (next + 1) * PAGE, Base(t, v.viewed), Base(t, next);
      var v' := Switched(v, next);
      assert |v.mem| == 4 * PAGE && v' == v.(mem := CopiedPages(v.mem, old0, new0), viewed := next);
      hide Switched, Terminal;
      CopiesKeep(v.mem, old0, new0, b, b');
      SameCells(v, v', t);
    }
  }

  lemma PagesApart(t: int, viewed: int, next: int)
    requires Terminal(t) && Terminal(viewed) && Terminal(next) && viewed != next
    ensures var old0, new0, b, b' := (viewed + 1) * PAGE, (next + 1) * PAGE, Base(t, viewed), Base(t, next);
            && PAGE <= old0 <= 3 * PAGE && PAGE <= new0 <= 3 * PAGE && (old0 + SIZE <= new0 || new0 + SIZE <= old0)
            && 0 <= b <= 3 * PAGE && 0 <= b' <= 3 * PAGE
            && ((b == 0 && b' == old0) || (b == new0 && b' == 0)
                || (PAGE <= b == b' && (b + SIZE <= old0 || old0 + SIZE <= b)))
  {
  }

  lemma SwitchKeepsValid(v: Video, next: int)
    requires Valid(v) && Terminal(next)
    ensures Sized(v) && CanApply(v, SwitchTo(next)) && Valid(Apply(v, SwitchTo(next)))
    ensures Apply(v, SwitchTo(next)) == if v.viewed == next then v
            else v.(mem := CopiedPages(v.mem, (v.viewed + 1) * PAGE, (next + 1) * PAGE), viewed := next)
  {
    hide Wf, ScreenAt, CopiedPages;
    assert Apply(v, SwitchTo(next)) == Switched(v, next);
    forall t | 0 <= t < 3 ensures Wf(ScreenAt(Switched(v, next), t)) {
      SwitchKeepsScreens(v, next, t);
    }
  }

  lemma SameCells(v: Video, v': Video, t: int)
    requires Sized(v) && Sized(v') && Terminal(t) && v'.xs == v.xs && v'.ys == v.ys
    requires v'.mem[Base(t, v'.viewed)..Base(t, v'.viewed) + SIZE] == v.mem[Base(t, v.viewed)..Base(t, v.viewed) + SIZE]
    ensures ScreenAt(v', t) == ScreenAt(v, t)
  {
  }

  /** The viewed screen moves from 0 to its page, the next one from its page to 0, another one stays. */
  lemma CopiesKeep(mem: seq<byte>, old0: nat, new0: nat, b: nat, b': nat)
    requires |mem| == 4 * PAGE && PAGE <= old0 && old0 + SIZE <= |mem| && PAGE <= new0 && new0 + SIZE <= |mem|
    requires old0 + SIZE <= new0 || new0 + SIZE <= old0
    requires (b == 0 && b' == old0) || (b == new0 && b' == 0)
          || (PAGE <= b == b' && b + SIZE <= |mem| && (b + SIZE <= old0 || old0 + SIZE <= b))
    ensures CopiedPages(mem, old0, new0)[b'..b' + SIZE] == mem[b..b + SIZE]
  {
    var saved := Overwrite(mem, old0, mem[0..SIZE]);
    OverwriteSlice(mem, old0, mem[0..SIZE], new0, SIZE);
    OverwriteSlice(mem, old0, mem[0..SIZE], b', SIZE);
    OverwriteSlice(saved, 0, saved[new0..new0 + SIZE], b', SIZE);
    hide Overwrite;
  }

  // ----- Whole runs -----

  datatype Op = PutChar(c: byte, t: int) | ClearScreen | EraseChar | SwitchTo(next: int)

  predicate CanApply(v: Video, op: Op) {
    && Valid(v)
    && match op
       case PutChar(_, t) => Terminal(t)
       case ClearScreen => true
       case EraseChar => CanBackspace(ScreenAt(v, v.viewed))
       case SwitchTo(next) => Terminal(next)
  }

  function Apply(v: Video, op: Op): (r: Video)
    requires CanApply(v, op)
    ensures Sized(r)
  {
    match op
    case PutChar(c, t) => WithScreen(v, t, Put(ScreenAt(v, t), c))
    case ClearScreen => WithScreen(v, v.viewed, Clear(ScreenAt(v, v.viewed)))
    case EraseChar => WithScreen(v, v.viewed, Backspace(ScreenAt(v, v.viewed)))
    case SwitchTo(next) => Switched(v, next)
  }

  predicate Runs(v: Video, ops: seq<Op>)
    decreases |ops|
  {
    ops == [] || (CanApply(v, ops[0]) && Runs(Apply(v, ops[0]), ops[1..]))
  }

  function Run(v: Video, ops: seq<Op>): Video
    requires Runs(v, ops)
    decreases |ops|
  {
    if ops == [] then v else Run(Apply(v, ops[0]), ops[1..])
  }

  /** What a terminal with a machine of its own would be told to do. */
  datatype Act = Type(c: byte) | Wipe | Rub

  /** The part of a run that concerns terminal t: clearing and erasing concern whichever terminal is in view. */
  function Mine(ops: seq<Op>, viewed: int, t: int): seq<Act> {
    if ops == [] then []
    else
      match ops[0]
      case PutChar(c, u) => (if u == t then [Type(c)] else []) + Mine(ops[1..], viewed, t)
      case ClearScreen => (if viewed == t then [Wipe] else []) + Mine(ops[1..], viewed, t)
      case EraseChar => (if viewed == t then [Rub] else []) + Mine(ops[1..], viewed, t)
      case SwitchTo(next) => Mine(ops[1..], next, t)
  }

  predicate ActsOk(s: Screen, acts: seq<Act>)
    decreases |acts|
  {
    && Wf(s)
    && (acts != [] ==> (acts[0].Rub? ==> CanBackspace(s)) && ActsOk(Do(s, acts[0]), acts[1..]))
  }

  function Do(s: Screen, a: Act): Screen
    requires Wf(s) && (a.Rub? ==> CanBackspace(s))
  {
    match a
    case Type(c) => Put(s, c)
    case Wipe => Clear(s)
    case Rub => Backspace(s)
  }

  function Replay(s: Screen, acts: seq<Act>): Screen
    requires ActsOk(s, acts)
    decreases |acts|
  {
    if acts == [] then s else Replay(Do(s, acts[0]), acts[1..])
  }

  /** One operation: the screen it is for changes as a private one would, the others do not change at all. */
  lemma ApplyIsPrivate(v: Video, op: Op, t: int)
    requires CanApply(v, op) && Terminal(t)
    ensures Valid(Apply(v, op))
    ensures var s, s' := ScreenAt(v, t), ScreenAt(Apply(v, op), t);
            match op
            case PutChar(c, u) => s' == if u == t then Put(s, c) else s
            case ClearScreen => s' == if v.viewed == t then Clear(s) else s
            case EraseChar => s' == if v.viewed == t then Backspace(s) else s
            case SwitchTo(_) => s' == s
  {
    forall u | Terminal(u)
      ensures op.PutChar? ==> ScreenAt(Apply(v, op), u) == if u == op.t then Put(ScreenAt(v, u), op.c) else ScreenAt(v, u)
      ensures op.ClearScreen? ==> ScreenAt(Apply(v, op), u) == if u == v.viewed then Clear(ScreenAt(v, u)) else ScreenAt(v, u)
      ensures op.EraseChar? ==> ScreenAt(Apply(v, op), u) == if u == v.viewed then Backspace(ScreenAt(v, u)) else ScreenAt(v, u)
      ensures op.SwitchTo? ==> ScreenAt(Apply(v, op), u) == ScreenAt(v, u)
    {
      match op
      case PutChar(c, w) => WrittenScreen(v, w, Put(ScreenAt(v, w), c), u);
      case ClearScreen => WrittenScreen(v, v.viewed, Clear(ScreenAt(v, v.viewed)), u);
      case EraseChar => WrittenScreen(v, v.viewed, Backspace(ScreenAt(v, v.viewed)), u);
      case SwitchTo(next) => SwitchKeepsScreens(v, next, u);
    }
  }

  /** Over any interleaving, each terminal's screen is what its own operations alone make of a private screen. */
  lemma {:induction false} ScreensArePrivate(v: Video, ops: seq<Op>, t: int)
    requires Valid(v) && Runs(v, ops) && Terminal(t)
    ensures ActsOk(ScreenAt(v, t), Mine(ops, v.viewed, t))
    ensures Sized(Run(v, ops))
    ensures ScreenAt(Run(v, ops), t) == Replay(ScreenAt(v, t), Mine(ops, v.viewed, t))
    decreases |ops|
  {
    if ops != [] {
      var op, v' := ops[0], Apply(v, ops[0]);
      ApplyIsPrivate(v, op, t);
      assert v'.viewed == if op.SwitchTo? then op.next else v.viewed;
      ScreensArePrivate(v', ops[1..], t);
      var acts, rest := Mine(ops, v.viewed, t), Mine(ops[1..], v'.viewed, t);
      if acts != rest {
        assert acts[1..] == rest;
      }
    }
  }

  // ----- The code -----

  /** The bytes of a page up to `moved` have come from one row below, those from there up to `done` are blank. */
  ghost predicate Shifted(before: seq<byte>, now: seq<byte>, base: nat, moved: nat, done: nat)
    requires |now| == |before| && moved <= done <= SIZE && moved <= SIZE - 2 * COLS && base + SIZE <= |before|
  {
    forall j {:trigger now[j]} :: 0 <= j < |now| ==>
      now[j] == if base <= j < base + moved then before[j + 2 * COLS]
                else if base + moved <= j < base + done then BlankCell(j - base)
                else before[j]
  }

  lemma MoveCell(before: seq<byte>, now: seq<byte>, base: nat, i: nat)
    requires |now| == |before| && i < CELLS - COLS && base + SIZE <= |before|
    requires Shifted(before, now, base, 2 * i, 2 * i)
    ensures Shifted(before, now[base + 2 * i := now[base + 2 * (COLS + i)]][base + 2 * i + 1 := now[base + 2 * (COLS + i) + 1]],
                    base, 2 * i + 2, 2 * i + 2)
  {
    assert now[base + 2 * (COLS + i)] == before[base + 2 * (COLS + i)];
    assert now[base + 2 * (COLS + i) + 1] == before[base + 2 * (COLS + i) + 1];
  }

  lemma BlankedCell(before: seq<byte>, now: seq<byte>, base: nat, i: nat)
    requires |now| == |before| && CELLS - COLS <= i < CELLS && base + SIZE <= |before|
    requires Shifted(before, now, base, SIZE - 2 * COLS, 2 * i)
    ensures Shifted(before, now[base + 2 * i := SPACE][base + 2 * i + 1 := ATTRIB], base, SIZE - 2 * COLS, 2 * i + 2)
  {
    assert BlankCell(2 * i) == SPACE && BlankCell(2 * i + 1) == ATTRIB;
  }

  lemma ShiftedAll(before: seq<byte>, now: seq<byte>, base: nat)
    requires |now| == |before| && base + SIZE <= |before| && Shifted(before, now, base, SIZE - 2 * COLS, SIZE)
    ensures now == Overwrite(before, base, Scrolled(before[base..base + SIZE]))
  {
    var cells := Scrolled(before[base..base + SIZE]);
    assert forall i :: 0 <= i < SIZE ==> cells[i] == now[base + i];
  }

  lemma Erasing(v: Video)
    requires CanApply(v, EraseChar)
    ensures var s := ScreenAt(v, v.viewed);
            && Wf(s) && Overwrite(v.mem, Base(v.viewed, v.viewed), s.cells) == v.mem
            && CMod(s.x - 1, COLS) == BackX(s) && CMod(s.y + CDiv(BackX(s), COLS), ROWS) == s.y
            && 0 <= COLS * s.y + BackX(s) < CELLS
            && Backspace(s) == Screen(Write(s.cells, COLS * s.y + BackX(s), NUL), BackX(s), s.y)
            && Apply(v, EraseChar) == WithScreen(v, v.viewed, Backspace(s)) && Valid(Apply(v, EraseChar))
  {
    ApplyIsPrivate(v, EraseChar, 0);
    OverwriteSelf(v.mem, 0, SIZE);
    SameRow(ScreenAt(v, v.viewed));
    hide Overwrite, Write, Valid, CMod, CDiv;
  }

  class Display {
    const mem: array<byte>
    const termX: array<int>
    const termY: array<int>
    var currTerm: int

    ghost function View(): Video
      reads this, mem, termX, termY
    {
      Video(mem[..], currTerm, termX[..], termY[..])
    }

    ghost predicate Ok()
      reads this, mem, termX, termY
    {
      termX != termY && Valid(View())
    }

    constructor ()
      ensures Ok() && forall t :: 0 <= t < 3 ==> termX[t] == 0 && termY[t] == 0
    {
      mem := new byte[4 * PAGE](_ => SPACE);
      termX := new int[3](_ => 0);
      termY := new int[3](_ => 0);
      currTerm := 0;
    }

    /** The first loop of vert_scroll: the rows move up in place. */
    method MoveRows(base: nat) returns (i: nat)
      requires base + SIZE <= mem.Length
      modifies mem
      ensures i == (ROWS - 1) * COLS && Shifted(old(mem[..]), mem[..], base, 2 * i, 2 * i)
    {
      ghost var before := mem[..];
      i := 0;
      assert Shifted(before, mem[..], base, 0, 0);
      hide Shifted;
      while i < (ROWS - 1) * COLS
        invariant i <= (ROWS - 1) * COLS && Shifted(before, mem[..], base, 2 * i, 2 * i)
      {
        MoveCell(before, mem[..], base, i);
        mem[base + 2 * i] := mem[base + 2 * (COLS + i)];
        mem[base + 2 * i + 1] := mem[base + 2 * (COLS + i) + 1];
        i := i + 1;
      }
    }

    /** The second loop: the last row is blanked. */
    method BlankRow(base: nat, start: nat, ghost before: seq<byte>)
      requires base + SIZE <= mem.Length == |before| && start == (ROWS - 1) * COLS
      requires Shifted(before, mem[..], base, 2 * start, 2 * start)
      modifies mem
      ensures Shifted(before, mem[..], base, SIZE - 2 * COLS, SIZE)
    {
      hide Shifted;
      var i := start;
      while i < ROWS * COLS
        invariant start <= i <= ROWS * COLS && Shifted(before, mem[..], base, SIZE - 2 * COLS, 2 * i)
      {
        BlankedCell(before, mem[..], base, i);
        mem[base + 2 * i] := SPACE;
        mem[base + 2 * i + 1] := ATTRIB;
        i := i + 1;
      }
    }

    /** vert_scroll, on the terminal's page. */
    method VertScroll(t: int)
      requires Sized(View()) && Terminal(t)
      modifies mem
      ensures mem[..] == Overwrite(old(mem[..]), Base(t, currTerm), Scrolled(old(mem[..])[Base(t, currTerm)..Base(t, currTerm) + SIZE]))
    {
      hide Shifted, Overwrite, Scrolled;
      var base: nat := if t == currTerm then 0 else (t + 1) * PAGE;
      ghost var before := mem[..];
      var i := MoveRows(base);
      BlankRow(base, i, before);
      ShiftedAll(before, mem[..], base);
    }

    /** Terminal t's part of the state is screen s, the rest is as in v. */
    ghost predicate Shows(v: Video, t: int, s: Screen)
      requires Sized(v) && Terminal(t) && |s.cells| == SIZE
      reads this, mem, termX, termY
    {
      && currTerm == v.viewed
      && mem[..] == Overwrite(v.mem, Base(t, v.viewed), s.cells)
      && termX[..] == v.xs[t := s.x] && termY[..] == v.ys[t := s.y]
    }

    /** One cell of terminal t's screen: character and attribute. */
    method WriteCell(t: int, i: int, c: byte, ghost v: Video, ghost s: Screen)
      requires Sized(v) && Terminal(t) && |s.cells| == SIZE && Shows(v, t, s) && 0 <= i < CELLS
      modifies mem
      ensures Shows(v, t, s.(cells := Write(s.cells, i, c)))
    {
      var base := if t == currTerm then 0 else (t + 1) * PAGE;
      OverwritePoint(v.mem, base, s.cells, 2 * i, c);
      OverwritePoint(v.mem, base, s.cells[2 * i := c], 2 * i + 1, ATTRIB);
      hide Overwrite;
      mem[base + 2 * i] := c;
      mem[base + 2 * i + 1] := ATTRIB;
    }

    method MoveCursor(t: int, x: int, y: int, ghost v: Video, ghost s: Screen)
      requires Sized(v) && Terminal(t) && |s.cells| == SIZE && Shows(v, t, s) && termX != termY
      modifies termX, termY
      ensures Shows(v, t, s.(x := x, y := y))
    {
      termX[t] := x;
      termY[t] := y;
    }

    lemma ShownCursor(v: Video, t: int, s: Screen)
      requires Sized(v) && Terminal(t) && |s.cells| == SIZE && Shows(v, t, s)
      ensures termX.Length == termY.Length == 3 && termX[t] == s.x && termY[t] == s.y && currTerm == v.viewed
    {
    }

    /** vert_scroll, as a change of terminal t's screen. */
    method ScrollUp(t: int, ghost v: Video, ghost s: Screen)
      requires Sized(v) && Terminal(t) && |s.cells| == SIZE && Shows(v, t, s)
      modifies mem
      ensures Shows(v, t, s.(cells := Scrolled(s.cells)))
    {
      ghost var b := Base(t, v.viewed);
      OverwriteSlice(v.mem, b, s.cells, b, SIZE);
      OverwriteTwice(v.mem, b, s.cells, Scrolled(s.cells));
      hide Overwrite, Scrolled;
      VertScroll(t);
    }

    /** The end of putc: wrap at the right edge, scroll at the bottom. */
    method WrapAndScroll(t: int, ghost v: Video, ghost s: Screen)
      requires Sized(v) && Terminal(t) && |s.cells| == SIZE && Shows(v, t, s) && termX != termY
      modifies mem, termX, termY
      ensures Shows(v, t, Settle(s))
    {
      ghost var s1 := s;
      ShownCursor(v, t, s);
      hide Shows, Scrolled;
      if termX[t] >= COLS {
        MoveCursor(t, 0, termY[t] + 1, v, s1);
        s1 := s1.(x := 0, y := s1.y + 1);
        ShownCursor(v, t, s1);
      }
      if termY[t] >= ROWS {
        ScrollUp(t, v, s1);
        s1 := s1.(cells := Scrolled(s1.cells));
        MoveCursor(t, 0, ROWS - 1, v, s1);
      }
    }

    /** putc */
    method Putc(c: byte, t: int)
      requires Ok() && Terminal(t)
      modifies mem, termX, termY
      ensures Ok() && View() == Apply(old(View()), PutChar(c, t))
    {
      ghost var v, s := View(), ScreenAt(View(), t);
      ApplyIsPrivate(v, PutChar(c, t), t);
      OverwriteSelf(v.mem, Base(t, currTerm), SIZE);
      assert Wf(s) && Shows(v, t, s);
      PutOnMemory(c, t, v, s);
      hide Valid;
    }

    method PutOnMemory(c: byte, t: int, ghost v: Video, ghost s: Screen)
      requires Sized(v) && Terminal(t) && Wf(s) && Shows(v, t, s) && termX != termY
      modifies mem, termX, termY
      ensures Shows(v, t, Put(s, c))
    {
      ShownCursor(v, t, s);
      hide Shows, Settle;
      if c == NUL {
        return;
      }
      ghost var s1 := s;
      if c == NEWLINE || c == RETURN {
        MoveCursor(t, 0, termY[t] + 1, v, s);
        s1 := s.(x := 0, y := s.y + 1);
      } else {
        WriteCell(t, COLS * termY[t] + termX[t], c, v, s);
        s1 := s.(cells := Write(s.cells, Cursor(s), c));
        ShownCursor(v, t, s1);
        MoveCursor(t, termX[t] + 1, termY[t], v, s1);
        s1 := s1.(x := s.x + 1);
      }
      WrapAndScroll(t, v, s1);
    }

    /** clear, on the terminal in view. */
    method ClearViewed()
      requires Ok()
      modifies mem, termX, termY
      ensures Ok() && View() == Apply(old(View()), ClearScreen)
    {
      ghost var v := View();
      ApplyIsPrivate(v, ClearScreen, 0);
      BlankVideo();
      hide Overwrite, Cleared;
      termX[currTerm] := 0;
      termY[currTerm] := 0;
    }

    /** The loop of clear over the video page. */
    method BlankVideo()
      requires mem.Length == 4 * PAGE
      modifies mem
      ensures mem[..] == Overwrite(old(mem[..]), 0, Cleared())
    {
      var i := 0;
      while i < ROWS * COLS
        invariant 0 <= i <= ROWS * COLS
        invariant forall j :: 0 <= j < mem.Length ==> mem[j] == if j < 2 * i then BlankCell(j) else old(mem[j])
      {
        mem[2 * i] := SPACE;
        mem[2 * i + 1] := ATTRIB;
        assert BlankCell(2 * i) == SPACE && BlankCell(2 * i + 1) == ATTRIB;
        i := i + 1;
      }
    }

    /** backspace, on the terminal in view. */
    method Erase()
      requires Ok() && CanBackspace(ScreenAt(View(), currTerm))
      modifies mem, termX, termY
      ensures Ok() && View() == Apply(old(View()), EraseChar)
    {
      ghost var v, s := View(), ScreenAt(View(), currTerm);
      Erasing(v);
      hide Valid, Overwrite, CMod, CDiv, BackX, Write, Wf, ScreenAt, Apply, CanBackspace, Backspace;
      var x := CMod(termX[currTerm] - 1, COLS);
      var y := CMod(termY[currTerm] + CDiv(x, COLS), ROWS);
      MoveCursor(currTerm, x, y, v, s);
      WriteCell(currTerm, COLS * y + x, NUL, v, s.(x := x));
    }

    method CopyPages(address: nat, old0: nat, new0: nat)
      requires mem.Length == 4 * PAGE && PAGE <= old0 <= 3 * PAGE && PAGE <= new0 <= 3 * PAGE
      modifies mem
      ensures mem[..] == CopiedPages(old(mem[..]), old0, new0)
    {
      hide Overwrite;
      Memcpy(mem, address, old0, 0, SIZE);
      Memcpy(mem, address, 0, new0, SIZE);
    }

    /** switch_terminals, with the memcpy of module MemOps; `address` is that of the first byte of video memory. */
    method SwitchTerminals(next: int, address: nat)
      requires Ok() && Terminal(next)
      modifies this, mem
      ensures Ok() && View() == Apply(old(View()), SwitchTo(next))
    {
      ghost var v := View();
      hide Overwrite, ScreenAt, Valid, Apply, Switched, CanApply, CopiedPages;
      SwitchKeepsValid(v, next);
      if currTerm == next {
        return;
      }
      CopyPages(address, (currTerm + 1) * PAGE, (next + 1) * PAGE);
      currTerm := next;
    }

    /** terminal_write: every byte of the buffer but NUL is printed on the running terminal. */
    method TerminalWrite(buf: seq<byte>, nbytes: int, running: int) returns (r: int)
      requires Ok() && Terminal(running) && nbytes <= |buf|
      modifies mem, termX, termY
      ensures Ok() && r == (if nbytes <= 0 then -1 else nbytes)
      ensures var ops := if nbytes <= 0 then [] else Printed(buf[..nbytes], running);
              Runs(old(View()), ops) && View() == Run(old(View()), ops)
    {
      ghost var v := View();
      if nbytes <= 0 {
        return -1;
      }
      var i := 0;
      assert Runs(v, Printed(buf[..i], running)) && View() == Run(v, Printed(buf[..i], running));
      hide Runs, Run, Printed, Apply, ScreenAt;
      while i < nbytes
        invariant 0 <= i <= nbytes && Ok()
        invariant Runs(v, Printed(buf[..i], running)) && View() == Run(v, Printed(buf[..i], running))
      {
        PrintNext(v, buf, i, running);
        if buf[i] != NUL {
          Putc(buf[i], running);
        }
        i := i + 1;
      }
      return nbytes;
    }
  }

  /** One operation carried out by the code; `address` is that of the first byte of video memory. */
  method Perform(d: Display, op: Op, address: nat)
    requires d.Ok() && CanApply(d.View(), op)
    modifies d, d.mem, d.termX, d.termY
    ensures d.Ok() && d.View() == Apply(old(d.View()), op)
  {
    match op
    case PutChar(c, t) => d.Putc(c, t);
    case ClearScreen => d.ClearViewed();
    case EraseChar => d.Erase();
    case SwitchTo(next) => d.SwitchTerminals(next, address);
  }

  /** Any sequence of operations carried out by the code on the one video memory: every terminal's screen and cursor are
      what its own operations make of a private screen. */
  method Performs(d: Display, ops: seq<Op>, address: nat)
    requires d.Ok() && Runs(d.View(), ops)
    modifies d, d.mem, d.termX, d.termY
    ensures d.Ok() && d.View() == Run(old(d.View()), ops)
    ensures var v := old(d.View());
            forall t :: Terminal(t) ==>
              && ActsOk(ScreenAt(v, t), Mine(ops, v.viewed, t))
              && ScreenAt(d.View(), t) == Replay(ScreenAt(v, t), Mine(ops, v.viewed, t))
    decreases |ops|
  {
    ghost var v := d.View();
    if ops != [] {
      Perform(d, ops[0], address);
      Performs(d, ops[1..], address);
    }
    forall t | Terminal(t)
      ensures ActsOk(ScreenAt(v, t), Mine(ops, v.viewed, t))
      ensures ScreenAt(Run(v, ops), t) == Replay(ScreenAt(v, t), Mine(ops, v.viewed, t))
    {
      ScreensArePrivate(v, ops, t);
    }
  }

  lemma PrintNext(v: Video, buf: seq<byte>, i: nat, t: int)
    requires i < |buf| && Terminal(t) && Runs(v, Printed(buf[..i], t)) && Valid(Run(v, Printed(buf[..i], t)))
    ensures Runs(v, Printed(buf[..i + 1], t))
    ensures var w := Run(v, Printed(buf[..i], t));
            && Run(v, Printed(buf[..i + 1], t)) == Apply(w, PutChar(buf[i], t))
            && (buf[i] == NUL ==> Apply(w, PutChar(buf[i], t)) == w)
  {
    assert buf[..i + 1][..i] == buf[..i];
    RunsOn(v, Printed(buf[..i], t), PutChar(buf[i], t));
    ApplyNul(Run(v, Printed(buf[..i], t)), t);
    hide Valid, Apply;
  }

  function Printed(buf: seq<byte>, t: int): (ops: seq<Op>)
    ensures |ops| == |buf| && forall i :: 0 <= i < |buf| ==> ops[i] == PutChar(buf[i], t)
  {
    if buf == [] then [] else Printed(buf[..|buf| - 1], t) + [PutChar(buf[|buf| - 1], t)]
  }

  lemma {:induction false} RunsOn(v: Video, ops: seq<Op>, op: Op)
    requires Runs(v, ops) && CanApply(Run(v, ops), op)
    ensures Runs(v, ops + [op]) && Run(v, ops + [op]) == Apply(Run(v, ops), op)
    decreases |ops|
  {
    if ops == [] {
      assert (ops + [op])[1..] == [];
    } else {
      assert (ops + [op])[1..] == ops[1..] + [op];
      RunsOn(Apply(v, ops[0]), ops[1..], op);
    }
  }

  lemma ApplyNul(v: Video, t: int)
    requires Valid(v) && Terminal(t)
    ensures Apply(v, PutChar(NUL, t)) == v
  {
    OverwriteSelf(v.mem, Base(t, v.viewed), SIZE);
  }
}