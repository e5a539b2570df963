/**
 Number formatting: itoa collects the digits lowest first and reverses them in place; printf's %#x pads to
 eight digits by writing zeros in front of them, %d negates in 32 bits.
 */
module Numerals {
  import opened Arith
  import opened Bytes
  import opened MemOps

  const ZERO: byte := 48
  const MINUS: byte := 45

  predicate Radix(r: int) {
    2 <= r <= 36
  }

  /** "0123456789ABCDEFGHIJKLMNOPQRSTUVWXYZ"[i] */
  function Lookup(i: nat): (b: byte)
    requires i < 36
  {
    if i < 10 then 48 + i else 55 + i
  }

  // ----- What a numeral denotes -----

  /** The value of a digit character, 36 for anything else. */
  function DigitValue(c: byte): nat {
    if 48 <= c < 58 then c - 48 else if 65 <= c < 91 then c - 55 else 36
  }

  /** Positional value, highest place first. */
  function Value(s: seq<byte>, r: nat): nat {
    if s == [] then 0 else Value(s[..|s| - 1], r) * r + DigitValue(s[|s| - 1])
  }

  /** The lookup string: the digits in the order of their values. */
  const DECIMALS := "0123456789"
  const LETTERS := "ABCDEFGHIJKLMNOPQRSTUVWXYZ"

  lemma DecimalsInOrder(i: nat)
    requires i < 10
    ensures |DECIMALS| == 10 && DECIMALS[i] as int == 48 + i
  {
    assert DECIMALS == ['0', '1', '2', '3', '4', '5', '6', '7', '8', '9'];
  }

  lemma LettersInOrder(i: nat)
    requires i < 26
    ensures |LETTERS| == 26 && LETTERS[i] as int == 65 + i
  {
    assert LETTERS == ['A', 'B', 'C', 'D', 'E', 'F', 'G', 'H', 'I', 'J', 'K', 'L', 'M',
                       'N', 'O', 'P', 'Q', 'R', 'S', 'T', 'U', 'V', 'W', 'X', 'Y', 'Z'];
  }

  lemma DigitsInOrder(i: nat)
    requires i < 36
    ensures |DECIMALS + LETTERS| == 36 && Lookup(i) == (DECIMALS + LETTERS)[i] as int && DigitValue(Lookup(i)) == i
  {
    DecimalsInOrder(if i < 10 then i else 0);
    LettersInOrder(if i < 10 then 0 else i - 10);
    assert i < 10 ==> (DECIMALS + LETTERS)[i] == DECIMALS[i];
    assert i >= 10 ==> (DECIMALS + LETTERS)[i] == LETTERS[i - 10];
  }

  // ----- What itoa writes -----

  /** The digit that v % r selects, and v / r. */
  function LowDigit(v: nat, r: nat): byte
    requires Radix(r)
  {
    Lookup(v % r)
  }

  function Higher(v: nat, r: nat): nat
    requires Radix(r)
  {
    v / r
  }

  /** The digits of v, highest first, none for 0. */
  function Digits(v: nat, r: nat): (s: seq<byte>)
    requires Radix(r)
    decreases v
  {
    if v == 0 then []
    else
      assert Higher(v, r) < v by { Shrinks(v, r); }
      Digits(Higher(v, r), r) + [LowDigit(v, r)]
  }

  lemma Shrinks(v: nat, r: nat)
    requires Radix(r) && v > 0
    ensures v / r == Higher(v, r) < v
  {
    assert v == v / r * r + v % r;
    MulMono(v / r, 2, r);
  }

  lemma MulMono(a: nat, b: nat, c: nat)
    requires b <= c
    ensures a * b <= a * c && b * a <= c * a
  {
    assert a * (c - b) >= 0;
    assert a * c == a * b + a * (c - b);
  }

  function Numeral(v: nat, r: nat): seq<byte>
    requires Radix(r)
  {
    if v == 0 then [ZERO] else Digits(v, r)
  }

  lemma ValueSnoc(s: seq<byte>, r: nat, c: byte)
    ensures Value(s + [c], r) == Value(s, r) * r + DigitValue(c)
  {
    assert (s + [c])[..|s|] == s;
  }

  lemma LookupValue(d: nat)
    requires d < 36
    ensures DigitValue(Lookup(d)) == d && (Lookup(d) == ZERO <==> d == 0)
  {
  }

  predicate DigitsBelow(s: seq<byte>, r: nat) {
    forall i :: 0 <= i < |s| ==> DigitValue(s[i]) < r
  }

  lemma {:induction false} DigitsDenote(v: nat, r: nat)
    requires Radix(r)
    ensures Value(Digits(v, r), r) == v
    ensures DigitsBelow(Digits(v, r), r)
    ensures v > 0 ==> Digits(v, r) != [] && Digits(v, r)[0] != ZERO
    decreases v
  {
    if v > 0 {
      Shrinks(v, r);
      hide Value, DigitValue, Lookup, LowDigit, Higher, DigitsBelow;
      DigitsDenote(Higher(v, r), r);
      OneMoreDigit(Digits(Higher(v, r), r), v, r);
    }
  }

  lemma OneMoreDigit(high: seq<byte>, v: nat, r: nat)
    requires Radix(r) && v > 0 && DigitsBelow(high, r) && Value(high, r) == Higher(v, r)
    requires Higher(v, r) > 0 ==> high != [] && high[0] != ZERO
    requires Higher(v, r) == 0 ==> high == []
    ensures DigitsBelow(high + [LowDigit(v, r)], r) && Value(high + [LowDigit(v, r)], r) == v
    ensures (high + [LowDigit(v, r)])[0] != ZERO
  {
    hide Value;
    var d := v % r;
    LookupValue(d);
    ValueSnoc(high, r, Lookup(d));
    assert v == v / r * r + d;
    if v / r == 0 {
      assert v == d;
    }
  }

  /** A numeral parses back to its number and has no leading zero, except that of 0 itself. */
  lemma NumeralDenotes(v: nat, r: nat)
    requires Radix(r)
    ensures Numeral(v, r) != [] && DigitsBelow(Numeral(v, r), r) && Value(Numeral(v, r), r) == v
    ensures Numeral(v, r)[0] == ZERO <==> v == 0
    ensures NoNul(Numeral(v, r)) && MINUS !in Numeral(v, r)
  {
    DigitsDenote(v, r);
    ZeroDenotes(r);
    NothingSpecial(Numeral(v, r), r);
    hide Value, Digits, DigitsBelow, NoNul;
  }

  lemma ZeroDenotes(r: nat)
    requires Radix(r)
    ensures Value([ZERO], r) == 0 && DigitsBelow([ZERO], r)
  {
    ValueSnoc([], r, ZERO);
    assert [] + [ZERO] == [ZERO];
  }

  lemma NothingSpecial(s: seq<byte>, r: nat)
    requires Radix(r) && DigitsBelow(s, r)
    ensures NoNul(s) && MINUS !in s
  {
    assert DigitValue(NUL) == DigitValue(MINUS) == 36;
  }

  /** Places are determined by the value: the last digit and the value of the rest. */
  lemma LastPlace(init: seq<byte>, c: byte, r: nat)
    requires Radix(r) && DigitValue(c) < r
    ensures Value(init + [c], r) / r == Value(init, r) && Value(init + [c], r) % r == DigitValue(c)
    ensures Value(init + [c], r) > 0 <==> Value(init, r) > 0 || DigitValue(c) > 0
  {
    ValueSnoc(init, r, c);
    DivModUnique(Value(init + [c], r), r, Value(init, r), DigitValue(c));
    if Value(init, r) > 0 {
      MulMono(r, 1, Value(init, r));
    }
  }

  /** Numerals without leading zero are determined by their value: it is the one itoa writes. */
  lemma {:induction false} DigitsUnique(s: seq<byte>, r: nat)
    requires Radix(r) && DigitsBelow(s, r) && (s != [] ==> s[0] != ZERO)
    ensures s == Digits(Value(s, r), r) && (s != [] ==> Value(s, r) > 0)
  {
    if s != [] {
      var init, c := s[..|s| - 1], s[|s| - 1];
      assert s == init + [c];
      assert DigitValue(c) < r && (init == [] ==> DigitValue(c) > 0) && Lookup(DigitValue(c)) == c;
      hide DigitValue, Lookup, Value;
      DigitsUnique(init, r);
      LastPlace(init, c, r);
    }
  }

  /** What itoa writes is the one numeral of v: digits below the radix that denote v, no leading zero. */
  lemma NumeralIff(s: seq<byte>, v: nat, r: nat)
    requires Radix(r)
    ensures s == Numeral(v, r) <==>
      s != [] && DigitsBelow(s, r) && Value(s, r) == v && (s[0] == ZERO ==> s == [ZERO])
  {
    NumeralDenotes(v, r);
    if s != [] && DigitsBelow(s, r) && s[0] != ZERO {
      DigitsUnique(s, r);
    }
    ZeroDenotes(r);
    hide Value, Digits, DigitsBelow, NoNul;
  }

  function Power(r: nat, n: nat): nat {
    if n == 0 then 1 else Power(r, n - 1) * r
  }

  /** A number below r^n has at most n digits. */
  lemma {:induction false} DigitsLength(v: nat, r: nat, n: nat)
    requires Radix(r) && v < Power(r, n)
    ensures |Digits(v, r)| <= n
    decreases n
  {
    if v > 0 {
      QuotientBelow(v, r, Power(r, n - 1));
      DigitsLength(v / r, r, n - 1);
    }
  }

  lemma QuotientBelow(v: nat, r: nat, p: nat)
    requires Radix(r) && v < p * r
    ensures v / r < p
  {
    assert v == v / r * r + v % r;
    if p <= v / r {
      MulMono(r, p, v / r);
    }
  }

  lemma {:induction false} PowerMono(r: nat, n: nat)
    requires r >= 2
    ensures Power(2, n) <= Power(r, n)
  {
    if n > 0 {
      PowerMono(r, n - 1);
      MulMono(Power(2, n - 1), 2, r);
      MulMono(r, Power(2, n - 1), Power(r, n - 1));
    }
  }

  lemma Powers()
    ensures Power(2, 32) == 0x1_0000_0000 && Power(16, 8) == 0x1_0000_0000
  {
    assert Power(2, 8) == 256;
    assert Power(2, 16) == 65536;
    assert Power(2, 24) == 0x100_0000;
    assert Power(16, 4) == 65536;
  }

  /** Any 32-bit number has at most 32 digits, and at most 8 hexadecimal ones. */
  lemma NumeralLength(v: word, r: nat)
    requires Radix(r)
    ensures 1 <= |Numeral(v, r)| <= 32
    ensures r == 16 ==> |Numeral(v, r)| <= 8
  {
    Powers();
    PowerMono(r, 32);
    DigitsLength(v, r, 32);
    NumeralDenotes(v, r);
    if r == 16 {
      DigitsLength(v, 16, 8);
    }
  }

  // ----- The loops -----

  function Reversed(s: seq<byte>): (r: seq<byte>)
    ensures |r| == |s| && forall i :: 0 <= i < |s| ==> r[i] == s[|s| - 1 - i]
  {
    seq(|s|, i requires 0 <= i < |s| => s[|s| - 1 - i])
  }

  /** Memory with the string at `from` reversed. */
  function StringReversed(mem: seq<byte>, from: nat): seq<byte>
    requires from <= |mem|
  {
    Overwrite(mem, from, Reversed(CString(mem[from..])))
  }

  /** Reverses the string at s + from, up to its terminator, in place. */
  method Strrev(s: array<byte>, from: nat)
    requires exists k :: from <= k < s.Length && s[k] == NUL
    modifies s
    ensures s[..] == StringReversed(old(s[..]), from)
  {
    hide CString, StringReversed, Turned;
    ghost var was := s[..];
    var len := Strlen(s, from);
    ghost var text := was[from..from + len];
    TextAt(was, from, len);
    TurnedNone(was, from, text);
    var beg: int, end: int := 0, (len as int) - 1;
    while beg < end
      invariant 0 <= beg && beg + end + 1 == len && beg <= end + 2
      invariant Turned(s[..], was, from, text, beg)
    {
      TurnedNext(s[..], was, from, text, beg);
      ghost var mem := s[..];
      s[from + end], s[from + beg] := s[from + beg], s[from + end];
      assert s[..] == mem[from + end := mem[from + beg]][from + beg := mem[from + end]];
      beg, end := beg + 1, end - 1;
    }
    TurnedAll(s[..], was, from, text, beg);
  }

  lemma TextAt(mem: seq<byte>, from: nat, len: nat)
    requires from + len < |mem| && mem[from + len] == NUL && Lacks(NUL, mem, from, from + len)
    ensures CString(mem[from..]) == mem[from..from + len]
  {
    CStringIs(mem[from..], mem[from..from + len]);
  }

  /** The text at `from` with the outer n characters on both sides exchanged, the rest of memory as it was. */
  predicate Turned(mem: seq<byte>, was: seq<byte>, from: nat, text: seq<byte>, n: nat) {
    && from + |text| <= |was| && |mem| == |was|
    && (forall k :: 0 <= k < |was| ==>
        mem[k] == if k < from || from + |text| <= k then was[k]
                  else if k < from + n || from + |text| - n <= k then text[from + |text| - 1 - k]
                  else text[k - from])
  }

  lemma TurnedNone(was: seq<byte>, from: nat, text: seq<byte>)
    requires from + |text| <= |was| && was[from..from + |text|] == text
    ensures Turned(was, was, from, text, 0)
  {
    assert forall k :: from <= k < from + |text| ==> was[k] == was[from..from + |text|][k - from];
  }

  lemma TurnedNext(mem: seq<byte>, was: seq<byte>, from: nat, text: seq<byte>, n: nat)
    requires Turned(mem, was, from, text, n) && 2 * n + 1 < |text|
    ensures from + |text| <= |mem|
    ensures var end := from + |text| - 1 - n;
      Turned(mem[end := mem[from + n]][from + n := mem[end]], was, from, text, n + 1)
  {
  }

  lemma TurnedText(mem: seq<byte>, was: seq<byte>, from: nat, text: seq<byte>, n: nat)
    requires Turned(mem, was, from, text, n) && 2 * n + 1 >= |text|
    ensures mem == Overwrite(was, from, Reversed(text))
  {
  }

  lemma TurnedAll(mem: seq<byte>, was: seq<byte>, from: nat, text: seq<byte>, n: nat)
    requires Turned(mem, was, from, text, n) && 2 * n + 1 >= |text| && text == CString(was[from..])
    ensures mem == StringReversed(was, from)
  {
    TurnedText(mem, was, from, text, n);
    hide Turned, Overwrite, Reversed, CString;
  }

  lemma ReversedSnoc(high: seq<byte>, c: byte, low: seq<byte>)
    ensures (high + [c]) + Reversed(low) == high + Reversed(low + [c])
  {
  }

  lemma OverwriteSnoc(mem: seq<byte>, at: nat, bs: seq<byte>, c: byte)
    requires at + |bs| < |mem|
    ensures Overwrite(mem, at, bs)[at + |bs| := c] == Overwrite(mem, at, bs + [c])
  {
  }

  /** Reversing a string in place, its terminator staying where it is. */
  lemma ReverseTerminated(mem: seq<byte>, at: nat, low: seq<byte>)
    requires at + |low| < |mem| && NoNul(Reversed(low))
    ensures CString(Overwrite(mem, at, low + [NUL])[at..]) == low
    ensures Overwrite(Overwrite(mem, at, low + [NUL]), at, Reversed(low)) == Overwrite(mem, at, Reversed(low) + [NUL])
  {
    var s := Overwrite(mem, at, low + [NUL]);
    assert forall i :: 0 <= i < |low| ==> low[i] == Reversed(low)[|low| - 1 - i];
    assert s[at..][..|low|] == low;
    assert s[at..][|low|] == NUL;
    CStringIs(s[at..], low);
  }

  /** itoa's loop: the digits, lowest place first. */
  method CollectDigits(value: word, s: array<byte>, at: nat, radix: nat) returns (n: nat, ghost low: seq<byte>)
    requires Radix(radix) && value > 0 && at + |Numeral(value, radix)| < s.Length
    modifies s
    ensures n == |low| && at + n < s.Length && HoldsLow(s[..], old(s[..]), at, low, value, 0, radix)
  {
    ghost var was := s[..];
    hide *;
    NoneYet(was, at, value, radix);
    var newval: nat := value;
    n, low := 0, [];
    while newval > 0
      invariant n == |low| && at + n < s.Length
      invariant HoldsLow(s[..], was, at, low, value, newval, radix)
    {
      NextDigit(s[..], was, at, low, value, newval, radix);
      s[at + n] := LowDigit(newval, radix);
      low, n, newval := low + [LowDigit(newval, radix)], n + 1, Higher(newval, radix);
    }
  }

  /** The end of itoa: the terminator, and the digits turned round. */
  method TurnRound(s: array<byte>, at: nat, n: nat, ghost was: seq<byte>, ghost low: seq<byte>, ghost value: nat, radix: nat)
    requires Radix(radix) && value > 0 && n == |low| && at + n < s.Length
    requires HoldsLow(s[..], was, at, low, value, 0, radix)
    modifies s
    ensures s[..] == Overwrite(was, at, Numeral(value, radix) + [NUL])
  {
    hide *;
    AllDigits(s[..], was, at, low, value, radix);
    s[at + n] := NUL;
    assert s[at + n] == NUL;
    Strrev(s, at);
  }

  /** The numeral of `value` and its terminator, written at s + at. */
  method Itoa(value: word, s: array<byte>, at: nat, radix: nat)
    requires Radix(radix) && at + |Numeral(value, radix)| < s.Length
    modifies s
    ensures s[..] == Overwrite(old(s[..]), at, Numeral(value, radix) + [NUL])
  {
    ghost var was := s[..];
    hide *;
    if value == 0 {
      NoneYet(was, at, value, radix);
      s[at], s[at + 1] := ZERO, NUL;
      return;
    }
    var n, low := CollectDigits(value, s, at, radix);
    TurnRound(s, at, n, was, low, value, radix);
  }

  /** The low digits of v are stored from `at` on, lowest first; the digits of `left` are still to come. */
  predicate HoldsLow(mem: seq<byte>, was: seq<byte>, at: nat, low: seq<byte>, v: nat, left: nat, r: nat)
    requires Radix(r)
  {
    && at + |low| < |was| && mem == Overwrite(was, at, low)
    && Digits(v, r) == Digits(left, r) + Reversed(low)
  }

  lemma NoneYet(was: seq<byte>, at: nat, v: nat, r: nat)
    requires Radix(r) && at < |was|
    ensures HoldsLow(was, was, at, [], v, v, r) && |Numeral(v, r)| >= 1
    ensures v > 0 ==> Numeral(v, r) == Digits(v, r)
    ensures v == 0 && at + 1 < |was| ==> was[at := ZERO][at + 1 := NUL] == Overwrite(was, at, Numeral(v, r) + [NUL])
  {
    DigitsDenote(v, r);
  }

  lemma NextDigit(mem: seq<byte>, was: seq<byte>, at: nat, low: seq<byte>, v: nat, left: nat, r: nat)
    requires Radix(r) && left > 0 && HoldsLow(mem, was, at, low, v, left, r)
    requires at + |Digits(v, r)| < |was|
    ensures |mem| == |was| && at + |low| + 1 < |was| && Higher(left, r) < left
    ensures var c := LowDigit(left, r); HoldsLow(mem[at + |low| := c], was, at, low + [c], v, Higher(left, r), r)
  {
    Shrinks(left, r);
    ReversedSnoc(Digits(Higher(left, r), r), LowDigit(left, r), low);
    assert |Digits(v, r)| == |Digits(left, r)| + |low|;
    OverwriteSnoc(was, at, low, LowDigit(left, r));
    hide Reversed, LowDigit, Higher, Overwrite;
  }

  lemma AllDigits(mem: seq<byte>, was: seq<byte>, at: nat, low: seq<byte>, v: nat, r: nat)
    requires Radix(r) && v > 0 && HoldsLow(mem, was, at, low, v, 0, r)
    ensures |mem| == |was| && at + |low| < |was|
    ensures StringReversed(mem[at + |low| := NUL], at) == Overwrite(was, at, Numeral(v, r) + [NUL])
  {
    NumeralDenotes(v, r);
    assert Digits(0, r) + Reversed(low) == Reversed(low);
    OverwriteSnoc(was, at, low, NUL);
    ReverseTerminated(was, at, low);
  }

  // ----- printf's conversions -----

  /** The signed reading of a 32-bit word. */
  function Signed(w: word): int {
    if w < 0x8000_0000 then w else w - 0x1_0000_0000
  }

  /** It is the one 32-bit two's complement integer that the word represents. */
  lemma SignedIff(w: word, v: int)
    ensures v == Signed(w) <==> -0x8000_0000 <= v < 0x8000_0000 && (v == w || v == w - 0x1_0000_0000)
  {
  }

  /** The integer a shown numeral stands for, with an optional minus sign. */
  function Denoted(s: seq<byte>, r: nat): int {
    if s != [] && s[0] == MINUS then 0 - (Value(s[1..], r) as int) else Value(s, r)
  }

  function Zeros(n: nat): seq<byte> {
    seq(n, _ => ZERO)
  }

  lemma {:induction false} PaddingDenotes(n: nat, s: seq<byte>, r: nat)
    requires Radix(r)
    ensures Value(Zeros(n) + s, r) == Value(s, r)
    decreases |s| + n
  {
    if s != [] {
      var init, c := s[..|s| - 1], s[|s| - 1];
      assert s == init + [c];
      assert Zeros(n) + s == (Zeros(n) + init) + [c];
      PaddingDenotes(n, init, r);
      ValueSnoc(init, r, c);
      ValueSnoc(Zeros(n) + init, r, c);
      hide Value, DigitValue;
    } else if n > 0 {
      assert Zeros(n) + s == (Zeros(n - 1) + []) + [ZERO];
      PaddingDenotes(n - 1, [], r);
      ValueSnoc(Zeros(n - 1) + [], r, ZERO);
      assert Value([], r) * r == 0;
      hide Value;
    }
  }

  /** The string that a numeral written at s + from ends, `pre` standing before it. */
  lemma Written(mem: seq<byte>, from: nat, pre: seq<byte>, text: seq<byte>)
    requires |pre| <= from && from + |text| < |mem| && NoNul(text) && NoNul(pre) && mem[from - |pre|..from] == pre
    ensures CString(Overwrite(mem, from, text + [NUL])[from - |pre|..]) == pre + text
  {
    var tail := Overwrite(mem, from, text + [NUL])[from - |pre|..];
    assert tail[..|pre| + |text|] == pre + text;
    CStringIs(tail, pre + text);
  }

  /** The eight characters: the numeral behind as many zeros as it lacks. */
  lemma PaddedIs(w: word, shown: seq<byte>)
    requires |Numeral(w, 16)| <= 8 && shown == Zeros(8 - |Numeral(w, 16)|) + Numeral(w, 16)
    ensures |shown| == 8 && DigitsBelow(shown, 16) && Value(shown, 16) == w
  {
    NumeralDenotes(w, 16);
    PaddingDenotes(8 - |Numeral(w, 16)|, Numeral(w, 16), 16);
    hide Value, Numeral;
  }

  /** %#x: what puts shows is exactly eight hexadecimal digits denoting the word. */
  method HexPadded(w: word) returns (shown: seq<byte>)
    ensures |shown| == 8 && DigitsBelow(shown, 16) && Value(shown, 16) == w
  {
    hide Value, Numeral, DigitsBelow, Overwrite, CString;
    var buf := new byte[64];
    NumeralLength(w, 16);
    NumeralDenotes(w, 16);
    ghost var num := Numeral(w, 16);
    ghost var was := buf[..];
    Itoa(w, buf, 8, 16);
    var len := StrlenOf(buf, 8, was, num);
    var i := len;
    OverwriteSelf(buf[..], len, 0);
    ghost var mem := buf[..];
    while i < 8
      invariant len <= i <= 8
      invariant buf[..] == Overwrite(mem, len, Zeros(i - len))
    {
      OverwriteSnoc(mem, len, Zeros(i - len), ZERO);
      assert Zeros(i - len) + [ZERO] == Zeros(i + 1 - len);
      buf[i] := ZERO;
      i := i + 1;
    }
    shown := CString(buf[len..]);
    ZerosBefore(was, num);
    assert buf[len..] == buf[..][len..];
    PaddedIs(w, shown);
  }

  /** strlen finds the string just written. */
  method StrlenOf(s: array<byte>, from: nat, ghost was: seq<byte>, ghost text: seq<byte>) returns (len: nat)
    requires |was| == s.Length && from + |text| < s.Length && NoNul(text)
    requires s[..] == Overwrite(was, from, text + [NUL])
    ensures len == |text|
  {
    assert s[from + |text|] == NUL;
    len := Strlen(s, from);
    assert forall i :: 0 <= i < |text| ==> s[from + i] == text[i];
  }

  lemma ZerosBefore(was: seq<byte>, num: seq<byte>)
    requires |was| == 64 && |num| <= 8 && NoNul(num)
    ensures var mem := Overwrite(was, 8, num + [NUL]);
      CString(Overwrite(mem, |num|, Zeros(8 - |num|))[|num|..]) == Zeros(8 - |num|) + num
  {
    var mem := Overwrite(was, 8, num + [NUL]);
    var tail := Overwrite(mem, |num|, Zeros(8 - |num|))[|num|..];
    var text := Zeros(8 - |num|) + num;
    assert tail[..|text|] == text;
    CStringIs(tail, text);
  }

  /** %u and %x: the numeral without leading zeros. */
  method Unsigned(w: word, r: nat) returns (shown: seq<byte>)
    requires r == 10 || r == 16
    ensures DigitsBelow(shown, r) && Value(shown, r) == w && |shown| > 0
    ensures w > 0 ==> shown[0] != ZERO
  {
    hide Value, Numeral, DigitsBelow, Overwrite, CString;
    var buf := new byte[if r == 10 then 36 else 64];
    NumeralLength(w, r);
    NumeralDenotes(w, r);
    Written(buf[..], 0, [], Numeral(w, r));
    Itoa(w, buf, 0, r);
    assert buf[0..] == buf[..][0..];
    shown := CString(buf[0..]);
    assert shown == Numeral(w, r);
  }

  /** %d: the numeral of every signed word, the smallest included, whose negation wraps to itself. */
  method Decimal(w: word) returns (shown: seq<byte>)
    ensures Denoted(shown, 10) == Signed(w)
    ensures Signed(w) < 0 <==> |shown| > 0 && shown[0] == MINUS
    ensures DigitsBelow(if Signed(w) < 0 then shown[1..] else shown, 10)
  {
    if Signed(w) < 0 {
      var buf := new byte[36];
      buf[0] := MINUS;
      var negated: word := (0x1_0000_0000 - w) % 0x1_0000_0000;
      ghost var num := Numeral(negated, 10);
      MinusDenotes(w, num);
      hide Value, Numeral, DigitsBelow, Overwrite, CString, Signed, Denoted, NoNul;
      assert buf[..][0..1] == [MINUS];
      Written(buf[..], 1, [MINUS], num);
      Itoa(negated, buf, 1, 10);
      assert buf[0..] == buf[..][0..];
      shown := CString(buf[0..]);
    } else {
      shown := Unsigned(w, 10);
      NotMinus(shown);
    }
  }

  lemma MinusDenotes(w: word, num: seq<byte>)
    requires Signed(w) < 0 && num == Numeral((0x1_0000_0000 - w) % 0x1_0000_0000, 10)
    ensures Denoted([MINUS] + num, 10) == Signed(w) && |num| <= 32
    ensures ([MINUS] + num)[1..] == num && DigitsBelow(num, 10) && NoNul(num) && NoNul([MINUS])
  {
    hide Value, Numeral, DigitsBelow;
    var negated: word := (0x1_0000_0000 - w) % 0x1_0000_0000;
    assert negated == 0x1_0000_0000 - w;
    NumeralLength(negated, 10);
    NumeralDenotes(negated, 10);
    assert ([MINUS] + num)[1..] == num;
  }

  lemma NotMinus(shown: seq<byte>)
    requires DigitsBelow(shown, 10)
    ensures MINUS !in shown
  {
    assert DigitValue(MINUS) == 36;
  }
}
