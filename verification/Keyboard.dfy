/**
 One terminal's line discipline: the 128-byte keyboard buffer, Enter and terminal_read, and the history of
 entered lines with its draft slot.
 */
module Keyboard {
  import opened Bytes
  import opened MemOps
  import opened Terminals

  const BUF_SIZE := 128
  const SLOTS := 100

  // ----- C strings in fixed buffers -----

  function Zeros(n: nat): (r: seq<byte>)
    ensures |r| == n && forall i :: 0 <= i < n ==> r[i] == NUL
  {
    seq(n, _ => NUL)
  }

  /** A text in a 128-byte buffer, filled up with NULs. */
  function Padded(text: seq<byte>): (r: seq<byte>)
    requires |text| <= BUF_SIZE
    ensures |r| == BUF_SIZE
  {
    text + Zeros(BUF_SIZE - |text|)
  }

  lemma CStringOfPadded(text: seq<byte>)
    requires |text| <= BUF_SIZE && NoNul(text)
    ensures CString(Padded(text)) == text
  {
    CStringIs(Padded(text), text);
  }

  /** strncpy of n bytes: the source's string as far as it fits, filled up with NULs. */
  method Strncpy(src: seq<byte>, n: nat) returns (dst: seq<byte>)
    requires n <= |src| || |CString(src)| < |src|
    ensures |dst| == n
    ensures var len := Min(|CString(src)|, n); dst == CString(src)[..len] + Zeros(n - len)
  {
    dst := [];
    var i := 0;
    while i < n && src[i] != NUL
      invariant 0 <= i <= n && i <= |CString(src)| && dst == CString(src)[..i]
    {
      assert src[i] == NUL || i < |CString(src)|;
      dst := dst + [src[i]];
      i := i + 1;
    }
    ghost var len := i;
    assert len == Min(|CString(src)|, n);
    while i < n
      invariant len <= i <= n && dst == CString(src)[..len] + Zeros(i - len)
    {
      dst := dst + [NUL];
      i := i + 1;
    }
  }

  /** strncpy between two whole keyboard buffers. */
  method CopyBuffer(src: seq<byte>) returns (dst: seq<byte>)
    requires |src| == BUF_SIZE
    ensures dst == Padded(CString(src))
  {
    dst := Strncpy(src, BUF_SIZE);
    assert CString(src)[..|CString(src)|] == CString(src);
  }

  // ----- The line discipline -----

  /** Little-endian bytes of a small non-negative int: what follows keyboard_buf in memory is buf_idx. */
  function IntBytes(n: nat): seq<byte>
    requires n < 0x100
  {
    [n, 0, 0, 0]
  }

  /** What strlen finds when it starts at the keyboard buffer. */
  function SeenFrom(text: seq<byte>): seq<byte>
    requires |text| <= BUF_SIZE
  {
    CString(Padded(text) + IntBytes(|text|))
  }

  function Min(a: int, b: int): int {
    if a < b then a else b
  }

  /** strlen stays inside the buffer exactly when there is room for the terminator. */
  lemma SeenFromIff(text: seq<byte>)
    requires |text| <= BUF_SIZE && NoNul(text)
    ensures SeenFrom(text) == text <==> |text| < BUF_SIZE
  {
    var mem := Padded(text) + IntBytes(|text|);
    if |text| < BUF_SIZE {
      CStringIs(mem, text);
    } else {
      CStringIs(mem, text + [BUF_SIZE]);
    }
  }

  /** A line of 127 characters and its newline has no terminator: strlen runs on into buf_idx. */
  lemma FullBufferSeen(text: seq<byte>)
    requires |text| == BUF_SIZE && NoNul(text)
    ensures SeenFrom(text) == text + [BUF_SIZE]
  {
    CStringIs(Padded(text) + IntBytes(|text|), text + [BUF_SIZE]);
  }

  /** A key adds a character while there is room for it and the newline; backspace takes the last one. */
  function Typed(text: seq<byte>, c: byte): seq<byte> {
    if |text| < BUF_SIZE - 1 then text + [c] else text
  }

  function Erased(text: seq<byte>): seq<byte> {
    if text == [] then [] else text[..|text| - 1]
  }

  // ----- The history of lines -----

  /** The saved buffers, the slot shown, the draft slot, and the text in the keyboard buffer. */
  datatype Hist = Hist(slots: seq<seq<byte>>, pos: int, draft: int, text: seq<byte>)

  /** A saved buffer holds a terminated string. */
  predicate SlotOk(b: seq<byte>) {
    |b| == BUF_SIZE && |CString(b)| < BUF_SIZE && b == Padded(CString(b))
  }

  predicate HistOk(h: Hist) {
    && |h.slots| == SLOTS && (forall i :: 0 <= i < SLOTS ==> SlotOk(h.slots[i]))
    && 0 <= h.pos <= h.draft < SLOTS
    && |h.text| < BUF_SIZE && NoNul(h.text)
  }

  lemma PaddedSlot(text: seq<byte>)
    requires |text| < BUF_SIZE && NoNul(text)
    ensures SlotOk(Padded(text)) && CString(Padded(text)) == text
  {
    CStringOfPadded(text);
  }

  /** move_up_history: leaving the draft slot saves the draft. */
  function Up(h: Hist): (r: Hist)
    requires HistOk(h)
    ensures HistOk(r)
  {
    PaddedSlot(h.text);
    var slots := if h.pos == h.draft then h.slots[h.pos := Padded(h.text)] else h.slots;
    var pos := if h.pos - 1 >= 0 then h.pos - 1 else 0;
    Hist(slots, pos, h.draft, CString(slots[pos]))
  }

  /** move_down_history */
  function Down(h: Hist): (r: Hist)
    requires HistOk(h)
    ensures HistOk(r)
  {
    if h.draft < h.pos + 1 || h.pos + 1 > 99 then h
    else Hist(h.slots, h.pos + 1, h.draft, CString(h.slots[h.pos + 1]))
  }

  datatype Move = MoveUp | MoveDown

  function Moves(h: Hist, ms: seq<Move>): (r: Hist)
    requires HistOk(h)
    ensures HistOk(r)
  {
    if ms == [] then h
    else
      var r := Moves(h, ms[..|ms| - 1]);
      if ms[|ms| - 1].MoveUp? then Up(r) else Down(r)
  }

  /** Position after the moves, walking between the oldest line and the draft. */
  function Walk(draft: int, ms: seq<Move>): int {
    if ms == [] then draft
    else
      var p := Walk(draft, ms[..|ms| - 1]);
      if ms[|ms| - 1].MoveUp? then (if p > 0 then p - 1 else p) else (if p < draft then p + 1 else p)
  }

  /** r is reached from the draft h: every saved line is as it was, the draft is saved when it is not shown, and
      the buffer shows the draft or the line at the position. */
  ghost predicate Browsing(h: Hist, r: Hist)
    requires HistOk(h) && HistOk(r)
  {
    && r.draft == h.draft
    && (forall i :: 0 <= i < SLOTS && i != h.draft ==> r.slots[i] == h.slots[i])
    && (r.pos < h.draft ==> r.slots[h.draft] == Padded(h.text))
    && r.text == if r.pos == h.draft then h.text else CString(h.slots[r.pos])
  }

  /** Whatever the moves from the draft: no saved line changes, and the buffer shows the draft at the draft
      position and otherwise the line saved at the position walked to. */
  lemma {:induction false} BrowsingKeepsLines(h: Hist, ms: seq<Move>)
    requires HistOk(h) && h.pos == h.draft
    ensures Moves(h, ms).pos == Walk(h.draft, ms) && Browsing(h, Moves(h, ms))
  {
    if ms != [] {
      var r := Moves(h, ms[..|ms| - 1]);
      BrowsingKeepsLines(h, ms[..|ms| - 1]);
      UpBrowses(h, r);
      DownBrowses(h, r);
      hide Browsing, Up, Down;
    }
  }

  lemma UpBrowses(h: Hist, r: Hist)
    requires HistOk(h) && h.pos == h.draft && HistOk(r) && Browsing(h, r)
    ensures Browsing(h, Up(r)) && Up(r).pos == if r.pos > 0 then r.pos - 1 else r.pos
  {
    PaddedSlot(h.text);
  }

  lemma DownBrowses(h: Hist, r: Hist)
    requires HistOk(h) && h.pos == h.draft && HistOk(r) && Browsing(h, r)
    ensures Browsing(h, Down(r)) && Down(r).pos == if r.pos < h.draft then r.pos + 1 else r.pos
  {
    PaddedSlot(h.text);
  }

  function Repeat(m: Move, k: nat): (r: seq<Move>)
    ensures |r| == k
  {
    if k == 0 then [] else Repeat(m, k - 1) + [m]
  }

  lemma {:induction false} WalkUp(draft: nat, k: nat)
    ensures Walk(draft, Repeat(MoveUp, k)) == if k < draft then draft - k else 0
  {
    if k > 0 {
      WalkUp(draft, k - 1);
      assert Repeat(MoveUp, k)[..k - 1] == Repeat(MoveUp, k - 1);
    }
  }

  lemma {:induction false} WalkUpDown(draft: nat, k: nat, j: nat)
    ensures Walk(draft, Repeat(MoveUp, k) + Repeat(MoveDown, j)) ==
            Min((if k < draft then draft - k else 0) + j, draft)
  {
    var ms := Repeat(MoveUp, k) + Repeat(MoveDown, j);
    if j == 0 {
      assert ms == Repeat(MoveUp, k);
      WalkUp(draft, k);
    } else {
      WalkUpDown(draft, k, j - 1);
      assert ms[..|ms| - 1] == Repeat(MoveUp, k) + Repeat(MoveDown, j - 1);
    }
  }

  /** k moves up and k moves down give the draft back, for every k. */
  lemma UpDownRestores(h: Hist, k: nat)
    requires HistOk(h) && h.pos == h.draft
    ensures var r := Moves(h, Repeat(MoveUp, k) + Repeat(MoveDown, k));
            r.text == h.text && r.pos == h.pos && r.draft == h.draft
  {
    BrowsingKeepsLines(h, Repeat(MoveUp, k) + Repeat(MoveDown, k));
    WalkUpDown(h.draft, k, k);
  }

  const SCANNED := 1000

  function FirstByte(slot: seq<byte>): byte {
    if slot == [] then NUL else slot[0]
  }

  /** First bytes of the saved buffers. */
  function Starts(slots: seq<seq<byte>>): (r: seq<byte>)
    ensures |r| == |slots| && forall i :: 0 <= i < |slots| ==> r[i] == FirstByte(slots[i])
  {
    seq(|slots|, i requires 0 <= i < |slots| => FirstByte(slots[i]))
  }

  /** Position of the first NUL, or the length. */
  function FirstEmpty(rows: seq<byte>): (n: nat)
    ensures n <= |rows| && Lacks(NUL, rows, 0, n) && (n < |rows| ==> rows[n] == NUL)
  {
    |CString(rows)|
  }

  lemma FirstEmptyIs(rows: seq<byte>, n: nat)
    requires n <= |rows| && Lacks(NUL, rows, 0, n) && (n < |rows| ==> rows[n] == NUL)
    ensures FirstEmpty(rows) == n
  {
    CStringIs(rows, rows[..n]);
  }

  /** The saved line keeps its place as long as it is not empty: as long as a row of the history is free, the draft
      slot stays within the history. */
  lemma DraftStays(slots: seq<seq<byte>>, beyond: seq<byte>)
    requires |slots| == SLOTS && forall i :: 0 <= i < SLOTS ==> SlotOk(slots[i])
    ensures var next := FirstEmpty(Starts(slots) + beyond);
            && (next < SLOTS <==> exists i :: 0 <= i < SLOTS && CString(slots[i]) == [])
            && (next < SLOTS ==> CString(slots[next]) == [] && forall i :: 0 <= i < next ==> CString(slots[i]) != [])
  {
    var rows := Starts(slots) + beyond;
    forall i | 0 <= i < SLOTS ensures rows[i] == FirstByte(slots[i]) && (rows[i] == NUL <==> CString(slots[i]) == []) {
      assert SlotOk(slots[i]);
    }
  }

  // ----- Enter -----

  /** A history as the code keeps it: the lines below the draft slot are not empty, and a draft slot that has left the
      history is the slot shown. */
  ghost predicate HistSound(h: Hist) {
    && |h.slots| == SLOTS && (forall i :: 0 <= i < SLOTS ==> SlotOk(h.slots[i]))
    && 0 <= h.pos <= h.draft && (h.draft >= SLOTS ==> h.pos == h.draft)
    && |h.text| <= BUF_SIZE && NoNul(h.text)
    && forall i :: 0 <= i < h.draft && i < SLOTS ==> CString(h.slots[i]) != []
  }

  /** keyboard_return, with the first bytes of the rows behind the history. */
  function Entered(h: Hist, beyond: seq<byte>): Hist
    requires |h.slots| == SLOTS && 0 <= h.pos && |h.text| < BUF_SIZE
  {
    var text := h.text + [NEWLINE];
    if h.pos >= SLOTS then h.(text := text)
    else
      var slots := h.slots[h.pos := Padded(h.text)];
      var next := FirstEmpty(Starts(slots) + beyond);
      if next < SCANNED then Hist(slots, next, next, text) else h.(slots := slots, text := text)
  }

  lemma EnteredSound(h: Hist, beyond: seq<byte>)
    requires HistSound(h) && |h.text| < BUF_SIZE && |beyond| == SCANNED - SLOTS
    ensures HistSound(Entered(h, beyond))
  {
    if h.pos < SLOTS {
      PaddedSlot(h.text);
      var slots := h.slots[h.pos := Padded(h.text)];
      assert forall i :: 0 <= i < SLOTS ==> SlotOk(slots[i]);
      FilledBefore(slots, beyond);
      hide SlotOk, FirstEmpty, Starts, CString, Padded;
    }
  }

  /** The rows of the history before the one that is found are not empty. */
  lemma FilledBefore(slots: seq<seq<byte>>, beyond: seq<byte>)
    requires |slots| == SLOTS && (forall i :: 0 <= i < SLOTS ==> SlotOk(slots[i])) && |beyond| == SCANNED - SLOTS
    ensures FirstEmpty(Starts(slots) + beyond) <= SCANNED
    ensures forall i :: 0 <= i < SLOTS && i < FirstEmpty(Starts(slots) + beyond) ==> CString(slots[i]) != []
  {
    StartsEmpty(slots);
    var rows := Starts(slots) + beyond;
    assert forall i :: 0 <= i < SLOTS ==> rows[i] == Starts(slots)[i];
    hide SlotOk, CString, Starts;
  }

  lemma StartsEmpty(slots: seq<seq<byte>>)
    requires |slots| == SLOTS && forall i :: 0 <= i < SLOTS ==> SlotOk(slots[i])
    ensures forall i :: 0 <= i < SLOTS ==> (Starts(slots)[i] == NUL <==> CString(slots[i]) == [])
  {
    forall i | 0 <= i < SLOTS ensures Starts(slots)[i] == NUL <==> CString(slots[i]) == [] {
      assert SlotOk(slots[i]);
    }
  }

  lemma SlotsEqual(b: seq<byte>, text: seq<byte>)
    requires SlotOk(b) && |text| < BUF_SIZE && NoNul(text)
    ensures Padded(text) == b <==> text == CString(b)
  {
    PaddedSlot(text);
  }

  /** Enter keeps every line that was entered before exactly when the draft is shown or the recalled line is unchanged:
      an edited recalled line takes its own place in the history. */
  lemma EnterKeepsIff(h: Hist, beyond: seq<byte>)
    requires HistSound(h) && |h.text| < BUF_SIZE && |beyond| == SCANNED - SLOTS
    ensures (forall i :: 0 <= i < h.draft && i < SLOTS ==> Entered(h, beyond).slots[i] == h.slots[i]) <==> Clean(h)
  {
    if h.pos < SLOTS {
      assert SlotOk(h.slots[h.pos]);
      SlotsEqual(h.slots[h.pos], h.text);
      var slots := Entered(h, beyond).slots;
      assert slots[h.pos] == Padded(h.text);
      assert forall i :: 0 <= i < SLOTS && i != h.pos ==> slots[i] == h.slots[i];
    }
  }

  predicate Clean(h: Hist)
    requires |h.slots| == SLOTS && 0 <= h.pos <= h.draft && (h.draft >= SLOTS ==> h.pos == h.draft)
  {
    h.pos == h.draft || h.text == CString(h.slots[h.pos])
  }

  /** After a clean Enter the draft slot has not moved up. */
  lemma CleanEnterMovesOn(h: Hist, beyond: seq<byte>)
    requires HistSound(h) && |h.text| < BUF_SIZE && |beyond| == SCANNED - SLOTS && Clean(h)
    ensures h.draft <= Entered(h, beyond).draft
  {
    EnterKeepsIff(h, beyond);
    EnteredSound(h, beyond);
    if h.pos < SLOTS {
      var slots := Entered(h, beyond).slots;
      var rows := Starts(slots) + beyond;
      StartsEmpty(slots);
      assert forall i :: 0 <= i < h.draft && i < SLOTS ==> slots[i] == h.slots[i] && rows[i] == Starts(slots)[i] != NUL;
      hide Starts, FirstEmpty, SlotOk;
    }
  }

  ghost predicate HasEmpty(slots: seq<seq<byte>>) {
    exists i :: 0 <= i < |slots| && CString(slots[i]) == []
  }

  /** Where the next draft slot is does not depend on the memory behind the history exactly when that history is no longer
      written or has an empty row once the line is saved. */
  lemma EnterPrivateIff(h: Hist)
    requires HistSound(h) && |h.text| < BUF_SIZE
    ensures (forall b, c: seq<byte> :: |b| == |c| == SCANNED - SLOTS ==> Entered(h, b) == Entered(h, c)) <==>
            h.pos >= SLOTS || HasEmpty(h.slots[h.pos := Padded(h.text)])
  {
    if h.pos < SLOTS {
      PaddedSlot(h.text);
      var slots := h.slots[h.pos := Padded(h.text)];
      assert forall i :: 0 <= i < SLOTS ==> SlotOk(slots[i]);
      if i :| 0 <= i < SLOTS && CString(slots[i]) == [] {
        forall b, c: seq<byte> | |b| == |c| == SCANNED - SLOTS ensures Entered(h, b) == Entered(h, c) {
          SameNext(slots, b, c, i);
        }
      } else {
        var zeros := Zeros(SCANNED - SLOTS);
        var other := zeros[0 := NEWLINE];
        DraftStays(slots, zeros);
        StartsEmpty(slots);
        FirstEmptyIs(Starts(slots) + zeros, SLOTS);
        FirstEmptyIs(Starts(slots) + other, SLOTS + 1);
        assert Entered(h, zeros) != Entered(h, other);
      }
    }
  }

  lemma SameNext(slots: seq<seq<byte>>, b: seq<byte>, c: seq<byte>, i: nat)
    requires |slots| == SLOTS && (forall j :: 0 <= j < SLOTS ==> SlotOk(slots[j])) && i < SLOTS && CString(slots[i]) == []
    ensures FirstEmpty(Starts(slots) + b) == FirstEmpty(Starts(slots) + c)
  {
    StartsEmpty(slots);
    var rb, rc := Starts(slots) + b, Starts(slots) + c;
    var n := FirstEmpty(rb);
    assert rb[i] == Starts(slots)[i] == NUL;
    assert n <= i;
    assert forall j :: 0 <= j < SLOTS ==> rb[j] == Starts(slots)[j] == rc[j];
    FirstEmptyIs(rc, n);
  }

  // ----- The history in the memory of the three terminals -----

  const HISTORY_AT := 184        // bytes of a terminal's record before its history
  const RECORD := 184 + SLOTS * BUF_SIZE

  /** Address of row i of terminal t's history, counted from the first record on. */
  function RowAddress(t: nat, i: nat): nat {
    t * RECORD + HISTORY_AT + i * BUF_SIZE
  }

  /** No byte of the record of a terminal other than t differs. */
  ghost predicate OthersKept(t: nat, mem: seq<byte>, mem': seq<byte>)
    requires |mem| == |mem'|
  {
    forall a :: 0 <= a < |mem| && a < TERMINALS * RECORD && !(t * RECORD <= a < (t + 1) * RECORD) ==> mem'[a] == mem[a]
  }

  /** The draft saved by move_up_history in row i: whatever the text and the memory, no other terminal's record changes,
      exactly when the row lies in the history, or behind the last terminal. */
  lemma SavedDraftPrivateIff(t: nat, i: nat, size: nat)
    requires t < TERMINALS && RowAddress(t, i) + BUF_SIZE <= size && TERMINALS * RECORD <= size
    ensures (forall mem: seq<byte>, text: seq<byte> :: |mem| == size && |text| < BUF_SIZE && NoNul(text) ==>
              OthersKept(t, mem, Overwrite(mem, RowAddress(t, i), Padded(text)))) <==>
            i < SLOTS || RowAddress(t, i) >= TERMINALS * RECORD
  {
    var at := RowAddress(t, i);
    RowPlace(t, i);
    hide RowAddress, Padded;
    if i >= SLOTS && at < TERMINALS * RECORD {
      SpoilsAnother(t, at, size);
    } else {
      forall mem: seq<byte>, text: seq<byte> | |mem| == size && |text| < BUF_SIZE && NoNul(text)
        ensures OthersKept(t, mem, Overwrite(mem, at, Padded(text)))
      {
        hide Overwrite, NoNul;
      }
    }
  }

  /** A row of the history lies in its own record, any other row behind it. */
  lemma RowPlace(t: nat, i: nat)
    requires t < TERMINALS
    ensures RowAddress(t, i) >= t * RECORD
    ensures i < SLOTS ==> RowAddress(t, i) + BUF_SIZE <= (t + 1) * RECORD
    ensures i >= SLOTS ==> RowAddress(t, i) >= (t + 1) * RECORD
  {
  }

  lemma SpoilsAnother(t: nat, at: nat, size: nat)
    requires t < TERMINALS && (t + 1) * RECORD <= at < TERMINALS * RECORD <= size && at + BUF_SIZE <= size
    ensures exists mem: seq<byte>, text: seq<byte> :: |mem| == size && |text| < BUF_SIZE && NoNul(text)
              && !OthersKept(t, mem, Overwrite(mem, at, Padded(text)))
  {
    var mem := seq(size, _ => NEWLINE);
    var mem' := Overwrite(mem, at, Padded([]));
    assert mem'[at] == Padded([])[0] == NUL != mem[at];
    assert NoNul([]) && !OthersKept(t, mem, mem');
  }

  class TerminalLine {
    const keyboardBuf: array<byte>
    const history: array<seq<byte>>
    var activePid: nat  // the int just before keyboard_buf in memory
    var bufIdx: int
    var keyFlag: bool
    var historyIdx: int
    var absoluteIdx: int
    // the text in the buffer
    ghost var text: seq<byte>

    ghost predicate Valid()
      reads this, keyboardBuf
    {
      && keyboardBuf.Length == BUF_SIZE && history.Length == SLOTS
      && |text| <= BUF_SIZE && NoNul(text)
      && keyboardBuf[..] == Padded(text) && bufIdx == |text|
    }

    constructor ()
      ensures Valid() && text == [] && !keyFlag && historyIdx == absoluteIdx == 0
      ensures forall i :: 0 <= i < SLOTS ==> history[i] == Padded([])
    {
      keyboardBuf := new byte[BUF_SIZE](_ => NUL);
      history := new seq<byte>[SLOTS](_ => Padded([]));
      activePid := 0;
      bufIdx := 0;
      keyFlag := false;
      historyIdx := 0;
      absoluteIdx := 0;
      text := [];
    }

    /** The end of process_key with add_to_buf: a key that has no letter puts a NUL in the buffer, and then
        buf_idx is no longer the length of the string. */
    method AddToBuf(letter: byte)
      requires Valid()
      modifies this, keyboardBuf
      ensures unchanged(`keyFlag) && unchanged(`historyIdx) && unchanged(`absoluteIdx)
      ensures letter != NUL ==> Valid() && text == Typed(old(text), letter)
      ensures letter == NUL && |old(text)| < BUF_SIZE - 1 ==> bufIdx == |CString(keyboardBuf[..])| + 1
    {
      if bufIdx <= 126 {
        if bufIdx < BUF_SIZE - 1 {
          keyboardBuf[bufIdx] := letter;
          bufIdx := bufIdx + 1;
          if letter == NUL {
            assert keyboardBuf[..] == Padded(text);
            CStringOfPadded(text);
          } else {
            text := text + [letter];
            assert keyboardBuf[..] == Padded(text);
          }
        }
      }
    }

    /** delete_from_buf. On an empty line the NUL lands on the byte before the buffer, the top byte of
        active_pid, which is zero anyway. */
    method DeleteFromBuf()
      requires Valid()
      modifies this, keyboardBuf
      ensures unchanged(`keyFlag) && unchanged(`historyIdx) && unchanged(`absoluteIdx)
      ensures Valid() && text == Erased(old(text))
      ensures old(activePid) < 0x100_0000 ==> activePid == old(activePid)
    {
      bufIdx := bufIdx - 1;
      if bufIdx >= 0 {
        keyboardBuf[bufIdx] := NUL;
      } else {
        activePid := activePid % 0x100_0000;
      }
      if bufIdx < 0 {
        bufIdx := 0;
      }
      text := Erased(text);
      assert keyboardBuf[..] == Padded(text);
    }

    /** clear_keyboard_buf */
    method ClearKeyboardBuf()
      requires keyboardBuf.Length == BUF_SIZE && history.Length == SLOTS
      modifies this, keyboardBuf
      ensures unchanged(`keyFlag) && unchanged(`historyIdx) && unchanged(`absoluteIdx)
      ensures Valid() && text == []
    {
      for i := 0 to BUF_SIZE
        invariant forall j :: 0 <= j < i ==> keyboardBuf[j] == NUL
        invariant unchanged(this)
      {
        keyboardBuf[i] := NUL;
      }
      bufIdx := 0;
      text := [];
      assert keyboardBuf[..] == Padded(text);
    }

    /** terminal_read, whose waiting loop ends once Enter has been pressed. */
    method TerminalRead(nbytes: int) returns (bytes: int, out: seq<byte>)
      requires Valid() && (nbytes > 0 ==> keyFlag)
      modifies this, keyboardBuf
      ensures nbytes <= 0 ==> bytes == -1 && out == [] && unchanged(this) && unchanged(keyboardBuf)
      ensures nbytes > 0 ==>
        && Valid() && text == [] && !keyFlag && unchanged(`historyIdx) && unchanged(`absoluteIdx)
        && bytes == Min(|SeenFrom(old(text))|, nbytes) && out == SeenFrom(old(text))[..bytes]
    {
      if nbytes <= 0 {
        return -1, [];
      }
      ghost var seen := SeenFrom(text);
      var mem := keyboardBuf[..] + IntBytes(bufIdx);
      assert |seen| < |mem| by {
        assert mem[|mem| - 1] == NUL;
      }
      assert forall i :: 0 <= i < |seen| ==> mem[i] == seen[i] != NUL;
      var strlen := 0;
      while mem[strlen] != NUL
        invariant 0 <= strlen <= |seen| < |mem| && mem == Padded(text) + IntBytes(|text|)
        decreases |seen| - strlen
      {
        strlen := strlen + 1;
      }
      assert strlen == |seen|;
      bytes := if strlen < nbytes then strlen else nbytes;
      out := mem[..bytes];
      ClearKeyboardBuf();
      keyFlag := false;
    }

    ghost function HistView(): Hist
      reads this, history
    {
      Hist(history[..], historyIdx, absoluteIdx, text)
    }

    /** strncpy of a saved buffer into the keyboard buffer, then buf_idx = strlen. */
    method Recall(slot: int)
      requires Valid() && 0 <= slot < SLOTS && SlotOk(history[slot])
      modifies this, keyboardBuf
      ensures unchanged(`keyFlag) && unchanged(`historyIdx) && unchanged(`absoluteIdx)
      ensures Valid() && text == CString(history[slot])
    {
      var src := history[slot];
      var copy := CopyBuffer(src);
      for i := 0 to BUF_SIZE
        invariant forall j :: 0 <= j < i ==> keyboardBuf[j] == copy[j]
        invariant unchanged(this)
      {
        keyboardBuf[i] := copy[i];
      }
      text := CString(src);
      assert keyboardBuf[..] == Padded(text);
      var strlen := 0;
      while keyboardBuf[strlen] != NUL
        invariant 0 <= strlen <= |text| < BUF_SIZE && keyboardBuf[..] == Padded(text) && NoNul(text)
        invariant text == CString(src) && unchanged(`keyFlag) && unchanged(`historyIdx) && unchanged(`absoluteIdx)
        decreases |text| - strlen
      {
        assert keyboardBuf[..][strlen] == Padded(text)[strlen];
        strlen := strlen + 1;
      }
      assert keyboardBuf[..][strlen] == Padded(text)[strlen];
      bufIdx := strlen;
    }

    /** move_up_history; the number of characters erased from the screen is returned. */
    method MoveUpHistory() returns (erased: int)
      requires Valid() && HistOk(HistView())
      modifies this, keyboardBuf, history
      ensures Valid() && HistView() == Up(old(HistView())) && erased == |old(text)|
      ensures unchanged(`keyFlag)
    {
      PaddedSlot(text);
      if absoluteIdx == historyIdx {
        history[historyIdx] := CopyBuffer(keyboardBuf[..]);
      }
      if historyIdx - 1 >= 0 {
        historyIdx := historyIdx - 1;
      } else {
        historyIdx := 0;
      }
      erased := bufIdx;
      assert SlotOk(history[..][historyIdx]);
      Recall(historyIdx);
    }

    /** move_down_history */
    method MoveDownHistory() returns (erased: int)
      requires Valid() && (HistOk(HistView()) || historyIdx == absoluteIdx >= SLOTS)
      modifies this, keyboardBuf
      ensures Valid()
      ensures HistView() == if old(absoluteIdx) >= SLOTS then old(HistView()) else Down(old(HistView()))
      ensures unchanged(`keyFlag)
    {
      erased := 0;
      if absoluteIdx < historyIdx + 1 || historyIdx + 1 > 99 {
        return;
      }
      historyIdx := historyIdx + 1;
      erased := bufIdx;
      assert SlotOk(history[..][historyIdx]);
      Recall(historyIdx);
    }

    /** The first half of keyboard_return: the line is saved, and the next draft slot is the first row of the history
        whose first byte is NUL. The scan goes on for 1000 rows; `beyond` holds the bytes it finds at the starts of
        the 900 rows that lie behind the history in memory. When there is none at all, nothing moves. */
    method SaveLine(beyond: seq<byte>)
      requires Valid() && |text| < BUF_SIZE && 0 <= historyIdx < SLOTS && |beyond| == SCANNED - SLOTS
      requires forall i :: 0 <= i < SLOTS ==> SlotOk(history[i])
      modifies history, `historyIdx, `absoluteIdx
      ensures Valid()
      ensures history[..] == old(history[..])[old(historyIdx) := Padded(text)]
      ensures var next := FirstEmpty(Starts(history[..]) + beyond);
        if next < SCANNED then historyIdx == absoluteIdx == next
        else historyIdx == old(historyIdx) && absoluteIdx == old(absoluteIdx)
      ensures forall i :: 0 <= i < SLOTS ==> SlotOk(history[i])
    {
      PaddedSlot(text);
      history[historyIdx] := CopyBuffer(keyboardBuf[..]);
      ghost var rows := Starts(history[..]) + beyond;
      assert forall i :: 0 <= i < SLOTS ==> SlotOk(history[i]) && |history[i]| == BUF_SIZE;
      hide SlotOk, CString, Starts;
      for i := 0 to SCANNED
        invariant forall j :: 0 <= j < i ==> rows[j] != NUL
      {
        assert i < SLOTS ==> |history[i]| == BUF_SIZE && rows[i] == FirstByte(history[..][i]);
        var first := if i < SLOTS then history[i][0] else beyond[i - SLOTS];
        if first == NUL {
          FirstEmptyIs(rows, i);
          historyIdx := i;
          absoluteIdx := i;
          return;
        }
      }
      FirstEmptyIs(rows, SCANNED);
    }

    /** keyboard_return: the line is saved while the draft slot lies in the history, and the newline goes into the
        buffer. */
    method KeyboardReturn(beyond: seq<byte>) returns (newline: bool)
      requires Valid() && |text| < BUF_SIZE && 0 <= historyIdx && |beyond| == SCANNED - SLOTS
      requires forall i :: 0 <= i < SLOTS ==> SlotOk(history[i])
      modifies this, keyboardBuf, history
      ensures Valid() && text == old(text) + [NEWLINE] && keyFlag
      ensures HistView() == Entered(old(HistView()), beyond)
      ensures old(historyIdx) >= SLOTS ==> unchanged(history) && unchanged(`historyIdx) && unchanged(`absoluteIdx)
      ensures old(historyIdx) < SLOTS ==>
        && history[..] == old(history[..])[old(historyIdx) := Padded(old(text))]
        && var next := FirstEmpty(Starts(history[..]) + beyond);
           if next < SCANNED then historyIdx == absoluteIdx == next
           else historyIdx == old(historyIdx) && absoluteIdx == old(absoluteIdx)
      ensures forall i :: 0 <= i < SLOTS ==> SlotOk(history[i])
      ensures newline == (old(text) == [] || old(text)[0] != NEWLINE)
    {
      if historyIdx <= 99 {
        SaveLine(beyond);
      }
      hide SlotOk, CString, FirstEmpty, Starts;
      newline := keyboardBuf[0] != NEWLINE;
      keyboardBuf[bufIdx] := NEWLINE;
      bufIdx := bufIdx + 1;
      keyFlag := true;
      text := text + [NEWLINE];
      assert keyboardBuf[..] == Padded(text);
    }
  }
}
