/**
 TAB completion. The code compares neighbouring matches only; the least common prefix of neighbours is shown to
 be the longest common prefix of all names that extend the word.
 */
module TabCompletion {
  import opened Bytes
  import opened Directory
  import opened Keyboard

  const ROW := 33

  // ----- Prefixes -----

  predicate IsPrefix(p: seq<byte>, s: seq<byte>) {
    |p| <= |s| && s[..|p|] == p
  }

  /** p is the longest string that starts every one of the names. */
  ghost predicate LongestCommonPrefix(p: seq<byte>, names: seq<seq<byte>>) {
    && (forall n <- names :: IsPrefix(p, n))
    && forall q: seq<byte> :: (forall n <- names :: IsPrefix(q, n)) ==> |q| <= |p|
  }

  /** Length of the common prefix of two strings. */
  function Lcp(a: seq<byte>, b: seq<byte>): (l: nat)
    ensures l <= |a| && l <= |b| && a[..l] == b[..l]
    ensures l < |a| && l < |b| ==> a[l] != b[l]
  {
    if a == [] || b == [] || a[0] != b[0] then 0
    else
      var l := Lcp(a[1..], b[1..]);
      assert a[..l + 1] == [a[0]] + a[1..][..l] && b[..l + 1] == [b[0]] + b[1..][..l];
      l + 1
  }

  lemma LcpLongest(a: seq<byte>, b: seq<byte>, k: nat)
    requires k <= |a| && k <= |b| && a[..k] == b[..k]
    ensures k <= Lcp(a, b)
  {
    assert forall i :: 0 <= i < k ==> a[i] == a[..k][i] && b[i] == b[..k][i];
  }

  /** Least common prefix length of neighbours. */
  function AdjMin(names: seq<seq<byte>>): nat
    requires |names| >= 2
  {
    var n := |names|;
    var l := Lcp(names[n - 2], names[n - 1]);
    if n == 2 then l else Min(AdjMin(names[..n - 1]), l)
  }

  /** The first l bytes of every name are those of the first one. */
  ghost predicate Common(names: seq<seq<byte>>, l: nat) {
    names != [] ==>
      && l <= |names[0]|
      && forall i :: 0 <= i < |names| ==> l <= |names[i]| && names[i][..l] == names[0][..l]
  }

  lemma Shorter(a: seq<byte>, b: seq<byte>, k: nat, l: nat)
    requires l <= k <= |a| && k <= |b| && a[..k] == b[..k]
    ensures a[..l] == b[..l]
  {
    assert a[..l] == a[..k][..l] && b[..l] == b[..k][..l];
  }

  lemma {:induction false} CommonToAll(names: seq<seq<byte>>)
    requires |names| >= 2
    ensures Common(names, AdjMin(names))
  {
    var n, l := |names|, AdjMin(names);
    var init, m := names[..n - 1], Lcp(names[n - 2], names[n - 1]);
    Shorter(names[n - 2], names[n - 1], m, l);
    if n > 2 {
      CommonToAll(init);
      forall i | 0 <= i < n - 1 ensures l <= |names[i]| && names[i][..l] == names[0][..l] {
        assert init[i] == names[i] && init[0] == names[0];
        Shorter(names[i], names[0], AdjMin(init), l);
      }
    }
  }

  lemma {:induction false} NothingLonger(names: seq<seq<byte>>, q: seq<byte>)
    requires |names| >= 2 && forall i :: 0 <= i < |names| ==> IsPrefix(q, names[i])
    ensures |q| <= AdjMin(names)
  {
    var n := |names|;
    LcpLongest(names[n - 2], names[n - 1], |q|);
    if n > 2 {
      NothingLonger(names[..n - 1], q);
    }
  }

  /** Neighbours suffice: the least common prefix of neighbours is common to all, and nothing longer is. */
  lemma NeighboursSuffice(names: seq<seq<byte>>)
    requires |names| >= 2
    ensures Common(names, AdjMin(names))
    ensures AdjMin(names) <= |names[0]| && LongestCommonPrefix(names[0][..AdjMin(names)], names)
  {
    CommonToAll(names);
    var l := AdjMin(names);
    assert l <= |names[0]|;
    var p := names[0][..l];
    forall m | m in names ensures IsPrefix(p, m) {
      var i :| 0 <= i < |names| && names[i] == m;
    }
    forall q: seq<byte> | forall m <- names :: IsPrefix(q, m) ensures |q| <= |p| {
      assert forall i :: 0 <= i < |names| ==> names[i] in names;
      NothingLonger(names, q);
    }
  }

  // ----- What TAB does to the line -----

  /** Start of the last word: behind the last space that is not the final character. */
  function WordStart(text: seq<byte>, i: nat): (r: nat)
    requires i < |text|
    ensures r <= i
    ensures r > 0 ==> r < |text| && text[r - 1] == SPACE
    ensures forall k :: r <= k < i ==> text[k] != SPACE
  {
    if i == 0 then 0
    else if text[i - 1] == SPACE then i
    else WordStart(text, i - 1)
  }

  /** The names that start with the word, in directory order. */
  function Extending(names: seq<seq<byte>>, word: seq<byte>): (r: seq<seq<byte>>)
    ensures forall n :: n in r <==> n in names && IsPrefix(word, n)
  {
    if names == [] then []
    else
      var last := names[|names| - 1];
      assert names == names[..|names| - 1] + [last];
      Extending(names[..|names| - 1], word) + if IsPrefix(word, last) then [last] else []
  }

  /** What the word becomes, given the names that extend it: the only one, or as much as neighbours share. */
  function Choice(ms: seq<seq<byte>>, word: seq<byte>): seq<byte>
    requires ms != []
  {
    if |ms| == 1 then ms[0]
    else if |word| < AdjMin(ms) <= |ms[0]| then ms[0][..AdjMin(ms)]
    else word
  }

  /** The line after TAB. */
  function Completed(text: seq<byte>, names: seq<seq<byte>>): seq<byte> {
    if text == [] then text
    else
      var start := WordStart(text, |text| - 1);
      var word := text[start..];
      var ms := Extending(names, word);
      if word in names || ms == [] then text else text[..start] + Choice(ms, word)
  }

  lemma LongestIsUnique(p: seq<byte>, q: seq<byte>, names: seq<seq<byte>>)
    requires names != [] && LongestCommonPrefix(p, names) && LongestCommonPrefix(q, names)
    ensures p == q
  {
    assert names[0] in names && IsPrefix(p, names[0]) && IsPrefix(q, names[0]);
  }

  lemma OnlyName(p: seq<byte>, n: seq<byte>)
    requires LongestCommonPrefix(p, [n])
    ensures p == n
  {
    assert n in [n];
    assert IsPrefix(p, n);
    assert forall m <- [n] :: IsPrefix(n, m);
  }

  lemma ChoiceIsLongest(ms: seq<seq<byte>>, word: seq<byte>, p: seq<byte>)
    requires ms != [] && LongestCommonPrefix(p, ms) && forall n <- ms :: IsPrefix(word, n)
    ensures Choice(ms, word) == p
  {
    if |ms| == 1 {
      assert ms == [ms[0]];
      OnlyName(p, ms[0]);
    } else {
      NeighboursSuffice(ms);
      LongestIsUnique(p, ms[0][..AdjMin(ms)], ms);
      assert |word| <= |p|;
      if |word| == |p| {
        assert ms[0] in ms && IsPrefix(word, ms[0]) && IsPrefix(p, ms[0]);
      }
    }
  }

  /** When some name extends the word, TAB replaces the word by the longest common prefix of all names that do,
      unless a name equals the word; what precedes the word stays. */
  lemma TabCompletes(text: seq<byte>, names: seq<seq<byte>>, p: seq<byte>)
    requires text != []
    requires var word := text[WordStart(text, |text| - 1)..];
      Extending(names, word) != [] && LongestCommonPrefix(p, Extending(names, word))
    ensures var start := WordStart(text, |text| - 1);
            Completed(text, names) == if text[start..] in names then text else text[..start] + p
  {
    var start := WordStart(text, |text| - 1);
    var word := text[start..];
    ChoiceIsLongest(Extending(names, word), word, p);
  }

  /** TAB leaves the line as it is exactly when the line is empty, a name equals the word, no name extends it, or
      the names that do have no more in common than the word. */
  lemma TabKeepsIff(text: seq<byte>, names: seq<seq<byte>>)
    ensures Completed(text, names) == text <==>
      || text == []
      || var word := text[WordStart(text, |text| - 1)..];
         || word in names || Extending(names, word) == []
         || LongestCommonPrefix(word, Extending(names, word))
  {
    if text != [] {
      var start := WordStart(text, |text| - 1);
      var word := text[start..];
      var ms := Extending(names, word);
      assert text == text[..start] + word;
      if word !in names && ms != [] {
        if LongestCommonPrefix(word, ms) {
          ChoiceIsLongest(ms, word, word);
        } else {
          ChoiceDiffers(ms, word);
          assert text[..start] + Choice(ms, word) != text;
        }
      }
    }
  }

  lemma ChoiceDiffers(ms: seq<seq<byte>>, word: seq<byte>)
    requires ms != [] && !LongestCommonPrefix(word, ms) && forall n <- ms :: IsPrefix(word, n)
    ensures Choice(ms, word) != word
  {
    if |ms| == 1 {
      assert ms == [ms[0]] && ms[0] in ms;
      assert forall n <- ms :: n == ms[0];
    } else {
      NeighboursSuffice(ms);
      var p := ms[0][..AdjMin(ms)];
      assert |word| <= |p|;
      assert ms[0] in ms && IsPrefix(word, ms[0]);
      assert word != p;
    }
  }

  // ----- The code -----

  /** A name in its 33-byte row. */
  function Row(name: seq<byte>): (r: seq<byte>)
    requires |name| < ROW
    ensures |r| == ROW
  {
    name + Zeros(ROW - |name|)
  }

  /** A directory name as the code has it: at most 32 bytes, and a NUL behind them. */
  predicate NameOk(n: seq<byte>) {
    |n| <= FILENAME_LEN && NoNul(n)
  }

  /** The search for the last word, from the end of the line. */
  method FindWordStart(buf: array<byte>, text: seq<byte>) returns (start: int)
    requires text != [] && |text| <= buf.Length && buf[..|text|] == text
    ensures start == WordStart(text, |text| - 1)
  {
    var i := |text| - 1;
    while i >= 0
      invariant -1 <= i < |text|
      invariant WordStart(text, |text| - 1) == if i >= 0 then WordStart(text, i) else 0
    {
      assert i >= 1 ==> buf[i - 1] == buf[..|text|][i - 1];
      if i >= 1 && buf[i - 1] == SPACE {
        break;
      }
      i := i - 1;
    }
    return if i == -1 then 0 else i;
  }

  lemma RowStarts(word: seq<byte>, name: seq<byte>)
    requires NameOk(name) && NoNul(word) && |word| <= 32
    ensures IsPrefix(word, name) <==> Row(name)[..|word|] == word
  {
    var row := Row(name);
    if |word| <= |name| {
      assert row[..|word|] == name[..|word|];
    } else {
      assert row[..|word|][|name|] == row[|name|] == NUL;
    }
  }

  lemma CStringOfRow(name: seq<byte>)
    requires NameOk(name)
    ensures CString(Row(name)) == name
    ensures name != [] ==> Row(name)[0] != NUL
  {
    CStringIs(Row(name), name);
  }

  /** Where two names first differ, and that it is before their last byte when both are 32 long. */
  lemma FirstDifference(a: seq<byte>, b: seq<byte>)
    requires NameOk(a) && NameOk(b) && a != b
    ensures var l := Lcp(a, b);
            && l <= Min(|a|, |b|) && l < FILENAME_LEN && Row(a)[l] != Row(b)[l]
            && forall i :: 0 <= i < l ==> Row(a)[i] == Row(b)[i]
  {
    var l := Lcp(a, b);
    assert a[..|a|] == a && b[..|b|] == b;
    assert forall i :: 0 <= i < l ==> Row(a)[i] == a[..l][i] && Row(b)[i] == b[..l][i];
  }

  lemma PairRows(ra: seq<byte>, rb: seq<byte>, a: seq<byte>, b: seq<byte>)
    requires NameOk(a) && NameOk(b) && a != b
    requires |ra| == |rb| == ROW + 1 && ra[..ROW] == Row(a) && rb[..ROW] == Row(b)
    ensures |CString(ra[..ROW])| == |a| <= FILENAME_LEN && |CString(rb[..ROW])| == |b| <= FILENAME_LEN
    ensures var l := Lcp(a, b);
            && l <= |a| && l <= |b| && l < FILENAME_LEN && ra[l] != rb[l]
            && forall i :: 0 <= i < l ==> ra[i] == rb[i]
  {
    FirstDifference(a, b);
    CStringOfRow(a);
    CStringOfRow(b);
    hide Row, Lcp, CString;
    assert forall i :: 0 <= i < ROW ==> ra[i] == ra[..ROW][i] && rb[i] == rb[..ROW][i];
  }

  /** One pair of neighbours: every position at which they differ, less one, bounds the minimum. The loop reads one
      byte behind a row that is full; `ra` and `rb` are the rows with that byte. By then the minimum is smaller. */
  method ComparePair(ra: seq<byte>, rb: seq<byte>, before: int, ghost a: seq<byte>, ghost b: seq<byte>) returns (min: int)
    requires NameOk(a) && NameOk(b) && a != b && 0 < Lcp(a, b)
    requires |ra| == |rb| == ROW + 1 && ra[..ROW] == Row(a) && rb[..ROW] == Row(b)
    ensures min == Min(before, Lcp(a, b) - 1)
  {
    ghost var l := Lcp(a, b);
    PairRows(ra, rb, a, b);
    assert Min(before, l - 1) == if before < l then before else l - 1;
    hide *;
    min := before;
    var lenA, lenB := |CString(ra[..ROW])|, |CString(rb[..ROW])|;
    var relMin := if lenA < lenB then lenA else lenB;
    var j := 0;
    while j <= relMin
      invariant 0 <= j <= relMin + 1
      invariant min == if j < l || before < l then before else l - 1
    {
      if ra[j + 1] != rb[j + 1] {
        min := if j < min then j else min;
      }
      j := j + 1;
    }
  }

  lemma AdjMinNext(ms: seq<seq<byte>>, k: nat)
    requires 1 <= k < |ms|
    ensures AdjMin(ms[..k + 1]) == if k == 1 then Lcp(ms[0], ms[1]) else Min(AdjMin(ms[..k]), Lcp(ms[k - 1], ms[k]))
  {
    var upTo := ms[..k + 1];
    assert upTo[..k] == ms[..k] && upTo[k - 1] == ms[k - 1] && upTo[k] == ms[k];
  }

  /** The matches as they stand in the rows: first the names, then empty rows. */
  ghost predicate InRows(ls: seq<seq<byte>>, ms: seq<seq<byte>>) {
    && |ms| <= |ls| == ROW
    && (forall k :: 0 <= k < |ms| ==> NameOk(ms[k]) && ms[k] != [] && ls[k] == Row(ms[k]))
    && forall k :: |ms| <= k < ROW ==> ls[k] == Row([])
  }

  /** Neighbours differ, but not at once. */
  ghost predicate Comparable(ms: seq<seq<byte>>) {
    forall k :: 1 <= k < |ms| ==> ms[k - 1] != ms[k] && 0 < Lcp(ms[k - 1], ms[k])
  }

  /** The running minimum before row `index` is compared with the row above. */
  function SoFar(ms: seq<seq<byte>>, index: nat): int
    requires |ms| >= 2 && index >= 1
  {
    if index == 1 then 10000000 else AdjMin(ms[..Min(index, |ms|)]) - 1
  }

  lemma SoFarNext(ms: seq<seq<byte>>, index: nat)
    requires |ms| >= 2 && index >= 1 && (forall m <- ms :: |m| <= FILENAME_LEN)
    ensures SoFar(ms, index + 1) == if index < |ms| then Min(SoFar(ms, index), Lcp(ms[index - 1], ms[index]) - 1) else SoFar(ms, index)
  {
    if index < |ms| {
      AdjMinNext(ms, index);
      assert ms[0] in ms;
    }
  }

  lemma SoFarEnds(ms: seq<seq<byte>>, n: nat)
    requires 2 <= |ms| <= n
    ensures SoFar(ms, 1) == 10000000 && SoFar(ms, n) == AdjMin(ms) - 1
  {
    assert ms[..|ms|] == ms;
  }

  lemma RowAt(ls: seq<seq<byte>>, ms: seq<seq<byte>>, i: nat)
    requires InRows(ls, ms) && i < ROW
    ensures |ls[i]| == ROW && (ls[i][0] != NUL <==> i < |ms|)
    ensures i < |ms| ==> NameOk(ms[i]) && ls[i] == Row(ms[i])
  {
    if i < |ms| {
      CStringOfRow(ms[i]);
    }
  }

  /** What the comparison of row k with the row above it needs and contributes. */
  lemma NeighboursAt(ls: seq<seq<byte>>, ms: seq<seq<byte>>, k: nat)
    requires InRows(ls, ms) && Comparable(ms) && 2 <= |ms| && 1 <= k < ROW
    ensures |ls[k - 1]| == ROW && |ls[k]| == ROW
    ensures ls[k - 1][0] != NUL && ls[k][0] != NUL <==> k < |ms|
    ensures k < |ms| ==>
      && NameOk(ms[k - 1]) && ls[k - 1] == Row(ms[k - 1]) && NameOk(ms[k]) && ls[k] == Row(ms[k])
      && ms[k - 1] != ms[k] && 0 < Lcp(ms[k - 1], ms[k])
    ensures SoFar(ms, k + 1) == if k < |ms| then Min(SoFar(ms, k), Lcp(ms[k - 1], ms[k]) - 1) else SoFar(ms, k)
  {
    RowAt(ls, ms, k - 1);
    RowAt(ls, ms, k);
    assert forall m <- ms :: |m| <= FILENAME_LEN by { hide Row, Comparable, AdjMin; }
    hide InRows, Row, Lcp, AdjMin;
    SoFarNext(ms, k);
  }

  /** One row against the row above it, unless one of them is empty; `behind` follows the row in memory. */
  method CompareRows(above: seq<byte>, row: seq<byte>, behind: byte, before: int,
                     ghost ls: seq<seq<byte>>, ghost ms: seq<seq<byte>>, ghost k: nat)
    returns (min: int)
    requires InRows(ls, ms) && Comparable(ms) && 2 <= |ms| && 1 <= k < ROW && above == ls[k - 1] && row == ls[k]
    requires before == SoFar(ms, k)
    ensures min == SoFar(ms, k + 1)
  {
    NeighboursAt(ls, ms, k);
    hide *;
    if above[0] != NUL && row[0] != NUL {
      var ra, rb := above + [row[0]], row + [behind];
      assert ra[..ROW] == above && rb[..ROW] == row;
      min := ComparePair(ra, rb, before, ms[k - 1], ms[k]);
      assert min == Min(before, Lcp(ms[k - 1], ms[k]) - 1);
    } else {
      min := before;
    }
  }

  /** The least position, over all neighbouring rows, of the character before their first difference; `behind` is the
      byte that follows the last row in memory. */
  method LeastDifference(ls: array<seq<byte>>, n: int, behind: byte, ghost ms: seq<seq<byte>>) returns (min: int)
    requires InRows(ls[..], ms) && Comparable(ms) && 2 <= |ms| <= n <= ROW
    ensures min == AdjMin(ms) - 1
  {
    min := 10000000;
    var index := 1;
    SoFarEnds(ms, n);
    assert ls.Length == ROW && forall i :: 0 <= i < ROW ==> |ls[i]| == ROW;
    hide *;
    while index < n
      invariant 1 <= index <= n && min == SoFar(ms, index)
    {
      var after := if index + 1 < ROW then ls[index + 1][0] else behind;
      min := CompareRows(ls[index - 1], ls[index], after, min, ls[..], ms, index);
      index := index + 1;
    }
  }

  lemma {:induction false} ExtendingDistinct(names: seq<seq<byte>>, word: seq<byte>)
    requires Distinct(names)
    ensures Distinct(Extending(names, word))
    ensures |Extending(names, word)| <= |names|
  {
    if names != [] {
      var init, last := names[..|names| - 1], names[|names| - 1];
      ExtendingDistinct(init, word);
      var ms := Extending(init, word);
      assert last !in ms by {
        assert last !in init;
      }
      forall i, j | 0 <= i < j < |Extending(names, word)| ensures Extending(names, word)[i] != Extending(names, word)[j] {
        assert ms + [last] == Extending(names, word) || ms == Extending(names, word);
      }
    }
  }

  lemma ExtendingComparable(names: seq<seq<byte>>, word: seq<byte>)
    requires Distinct(names) && word != []
    ensures Comparable(Extending(names, word))
  {
    var ms := Extending(names, word);
    ExtendingDistinct(names, word);
    forall k | 1 <= k < |ms| ensures ms[k - 1] != ms[k] && 0 < Lcp(ms[k - 1], ms[k]) {
      assert ms[k - 1] in ms && ms[k] in ms;
      LcpLongest(ms[k - 1], ms[k], |word|);
    }
  }

  /** What `best` holds after the matches so far: the last one over whatever a longer one left behind. */
  ghost predicate BestOk(best: seq<byte>, ms: seq<seq<byte>>) {
    && |best| == ROW
    && (ms == [] ==> best == Row([]))
    && (ms != [] ==> var last := ms[|ms| - 1]; IsPrefix(last, best))
    && (|ms| == 1 ==> |ms[0]| < ROW && best == Row(ms[0]))
  }

  /** The rows and `best` after the matches ms. */
  ghost predicate Collected(ls: seq<seq<byte>>, best: seq<byte>, ms: seq<seq<byte>>) {
    InRows(ls, ms) && BestOk(best, ms)
  }

  method CopyFront(best: array<byte>, s: seq<byte>, n: nat)
    requires n <= |s| && n <= best.Length
    modifies best
    ensures best[..] == s[..n] + old(best[..])[n..]
  {
    for j := 0 to n
      invariant forall i :: 0 <= i < best.Length ==> best[i] == if i < j then s[i] else old(best[i])
    {
      best[j] := s[j];
    }
  }

  lemma MatchAdded(names: seq<seq<byte>>, word: seq<byte>, i: nat)
    requires i < |names|
    ensures Extending(names[..i + 1], word) == Extending(names[..i], word) + if IsPrefix(word, names[i]) then [names[i]] else []
  {
    assert names[..i + 1][..i] == names[..i];
  }

  lemma BestAdded(best: seq<byte>, ms: seq<seq<byte>>, name: seq<byte>)
    requires BestOk(best, ms) && NameOk(name)
    ensures BestOk(Row(name)[..|name|] + best[|name|..], ms + [name])
  {
    var best' := Row(name)[..|name|] + best[|name|..];
    assert Row(name)[..|name|] == name && best'[..|name|] == name;
    if ms == [] {
      assert best' == Row(name);
    }
  }

  lemma RowsAdded(ls: seq<seq<byte>>, ms: seq<seq<byte>>, name: seq<byte>)
    requires InRows(ls, ms) && NameOk(name) && name != [] && |ms| < ROW
    ensures InRows(ls[|ms| := Row(name)], ms + [name])
  {
  }

  /** A match is copied over `best` and into the next row. */
  method Record(ls: array<seq<byte>>, best: array<byte>, k: nat, name: seq<byte>, ghost ms: seq<seq<byte>>)
    requires k == |ms| < ROW && Collected(ls[..], best[..], ms) && NameOk(name) && name != []
    modifies ls, best
    ensures Collected(ls[..], best[..], ms + [name])
  {
    var fname := Row(name);
    CStringOfRow(name);
    BestAdded(best[..], ms, name);
    RowsAdded(ls[..], ms, name);
    assert ls.Length == ROW && best.Length == ROW;
    hide InRows, BestOk, Row;
    ghost var ls', best' := ls[..][k := fname], fname[..|name|] + best[..][|name|..];
    CopyFront(best, fname, |CString(fname)|);
    assert best[..] == best';
    ls[k] := fname;
    assert ls[..] == ls';
  }

  /** Whether a name's first characters are the word. */
  method Matches(word: seq<byte>, name: seq<byte>) returns (same: bool)
    requires NameOk(name) && NoNul(word) && |word| <= 32
    ensures same == IsPrefix(word, name)
  {
    var fname := Row(name);
    var check := fname[..|word|];
    RowStarts(word, name);
    assert check[..|word|] == check && word[..|word|] == word;
    var diff := Strncmp(word, check, |word|);
    same := diff == 0;
    assert !exists k :: 0 <= k < |word| && EndsAt(word, check, k);
  }

  /** One directory entry: an exact match, a match to record, or neither. */
  method Consider(ls: array<seq<byte>>, best: array<byte>, k: nat, word: seq<byte>, name: seq<byte>, ghost ms: seq<seq<byte>>)
    returns (exact: bool, k': nat)
    requires k == |ms| < ROW && Collected(ls[..], best[..], ms) && NameOk(name)
    requires word != [] && |word| <= 32 && NoNul(word)
    modifies ls, best
    ensures exact <==> name == word
    ensures var ms' := ms + if IsPrefix(word, name) then [name] else [];
            !exact ==> k' == |ms'| && Collected(ls[..], best[..], ms')
  {
    hide Collected, Row;
    var same := Matches(word, name);
    if !same {
      assert ms + [] == ms;
      assert name != word;
      return false, k;
    }
    CStringOfRow(name);
    if |word| == |CString(Row(name))| {
      return true, k;
    }
    Record(ls, best, k, name, ms);
    return false, k + 1;
  }

  /** The 33 rows have room for the matches, and the loop over as many rows as there are names, which two matches
      start, stays within them. */
  predicate Fits(names: seq<seq<byte>>, word: seq<byte>) {
    |names| <= ROW || |Extending(names, word)| <= 1
  }

  lemma {:induction false} ExtendingGrows(names: seq<seq<byte>>, word: seq<byte>, i: nat)
    requires i <= |names|
    ensures |Extending(names[..i], word)| <= |Extending(names, word)|
    ensures |Extending(names[..i], word)| <= i
    ensures Fits(names, word) && i < |names| ==> |Extending(names[..i], word)| < ROW
    decreases |names|
  {
    var init := names[..|names| - (if names == [] then 0 else 1)];
    if i == |names| {
      assert names[..i] == names;
      if i > 0 {
        ExtendingGrows(init, word, i - 1);
        assert init[..i - 1] == init;
      }
    } else {
      assert init[..i] == names[..i];
      ExtendingGrows(init, word, i);
    }
  }

  lemma NothingCollected(ls: seq<seq<byte>>, best: seq<byte>, names: seq<seq<byte>>, word: seq<byte>)
    requires |ls| == ROW && (forall k :: 0 <= k < ROW ==> ls[k] == Row([])) && best == Row([])
    ensures Extending(names[..0], word) == [] && Collected(ls, best, [])
  {
  }

  /** The pass over the directory: stops at a name that equals the word, otherwise collects the matches. */
  method Collect(names: seq<seq<byte>>, word: seq<byte>) returns (exact: bool, k: nat, ls: array<seq<byte>>, best: array<byte>)
    requires Fits(names, word) && forall i :: 0 <= i < |names| ==> NameOk(names[i])
    requires word != [] && |word| <= 32 && NoNul(word)
    ensures fresh(ls) && fresh(best)
    ensures exact <==> word in names
    ensures !exact ==> k == |Extending(names, word)| && Collected(ls[..], best[..], Extending(names, word))
  {
    ls := new seq<byte>[ROW](_ => Row([]));
    best := new byte[ROW](_ => NUL);
    k := 0;
    exact := false;
    var i := 0;
    assert best[..] == Row([]);
    NothingCollected(ls[..], best[..], names, word);
    hide *;
    while i < |names|
      invariant 0 <= i <= |names| && fresh(ls) && fresh(best) && !exact
      invariant forall j :: 0 <= j < i ==> names[j] != word
      invariant k == |Extending(names[..i], word)| && Collected(ls[..], best[..], Extending(names[..i], word))
    {
      ExtendingGrows(names, word, i);
      MatchAdded(names, word, i);
      exact, k := Consider(ls, best, k, word, names[i], Extending(names[..i], word));
      if exact {
        return;
      }
      i := i + 1;
    }
    assert names[..i] == names;
  }

  /** What `best` is cut to when neighbours share more than the word. */
  lemma BestCut(best: seq<byte>, ms: seq<seq<byte>>, l: nat)
    requires BestOk(best, ms) && |ms| >= 2 && l == AdjMin(ms) < ROW && forall i :: 0 <= i < |ms| ==> NameOk(ms[i])
    ensures l <= |ms[0]| && CString(best[l := NUL]) == ms[0][..l]
  {
    CommonToAll(ms);
    var last := ms[|ms| - 1];
    Shorter(best, last, |last|, l);
    var cut := best[l := NUL];
    assert cut[..l] == best[..l];
    assert last[..|last|] == last;
    CStringIs(cut, ms[0][..l]);
  }

  lemma ShortNames(ms: seq<seq<byte>>)
    requires |ms| >= 2 && forall i :: 0 <= i < |ms| ==> NameOk(ms[i])
    ensures AdjMin(ms) <= FILENAME_LEN
  {
    CommonToAll(ms);
  }

  /** The choice of what to insert, once the matches are known; nothing when there is no more to add. */
  method Choose(ls: array<seq<byte>>, best: array<byte>, k: nat, n: nat, word: seq<byte>, behind: byte, ghost ms: seq<seq<byte>>)
    returns (found: bool)
    requires Collected(ls[..], best[..], ms) && Comparable(ms) && 1 <= k == |ms| && (k > 1 ==> k <= n <= ROW)
    modifies best
    ensures found ==> CString(best[..]) == Choice(ms, word) && best.Length == ROW && |Choice(ms, word)| < ROW
    ensures !found ==> Choice(ms, word) == word
  {
    if k > 1 {
      ShortNames(ms);
      var min := LeastDifference(ls, n, behind, ms);
      if |word| - 1 < min {
        BestCut(best[..], ms, min + 1);
        best[min + 1] := NUL;
        return true;
      }
      return false;
    }
    CStringOfRow(ms[0]);
    return true;
  }

  /** The result over the buffer from the word's start on, with its terminator, and the new length. */
  method Replace(line: TerminalLine, start: nat, best: array<byte>)
    requires line.Valid() && best.Length == ROW && best != line.keyboardBuf
    requires start <= |line.text| <= start + |CString(best[..])|
    requires |CString(best[..])| < ROW && start + |CString(best[..])| < BUF_SIZE
    modifies line`text, line`bufIdx, line.keyboardBuf
    ensures line.Valid() && line.text == old(line.text)[..start] + CString(best[..])
  {
    var src := best[..];
    var s := CString(src);
    ghost var before := line.keyboardBuf[..];
    var j := 0;
    for i := start to start + 1 + |s|
      invariant j == i - start && best[..] == src
      invariant forall x :: 0 <= x < BUF_SIZE ==> line.keyboardBuf[x] == if start <= x < i then src[x - start] else before[x]
      invariant unchanged(line)
    {
      line.keyboardBuf[i] := best[j];
      j := j + 1;
    }
    Replaced(before, line.text, line.keyboardBuf[..], start, src);
    line.text := line.text[..start] + s;
    CStringOfPadded(line.text);
    line.bufIdx := |CString(line.keyboardBuf[..])|;
  }

  lemma Replaced(before: seq<byte>, text: seq<byte>, after: seq<byte>, start: nat, src: seq<byte>)
    requires |text| < BUF_SIZE && before == Padded(text) && NoNul(text) && |after| == BUF_SIZE && |src| == ROW
    requires var s := CString(src); start <= |text| <= start + |s| && |s| < ROW && start + |s| < BUF_SIZE
    requires forall x :: 0 <= x < BUF_SIZE ==> after[x] == if start <= x < start + 1 + |CString(src)| then src[x - start] else before[x]
    ensures after == Padded(text[..start] + CString(src)) && NoNul(text[..start] + CString(src))
  {
    var s := CString(src);
    assert forall x :: 0 <= x < |s| ==> s[x] == src[x];
  }

  /** The line with the word from `start` on completed. */
  function WordCompleted(text: seq<byte>, start: nat, names: seq<seq<byte>>): seq<byte>
    requires start <= |text|
  {
    var word := text[start..];
    var ms := Extending(names, word);
    if word in names || ms == [] then text else text[..start] + Choice(ms, word)
  }

  /** The part of autocomplete from the directory pass on. */
  method CompleteWord(line: TerminalLine, start: nat, word: seq<byte>, names: seq<seq<byte>>, behind: byte)
    requires line.Valid() && start < |line.text| < BUF_SIZE && line.text[start..] == word && |word| <= 32
    requires Fits(names, word) && Distinct(names) && forall i :: 0 <= i < |names| ==> NameOk(names[i])
    requires |WordCompleted(line.text, start, names)| < BUF_SIZE
    modifies line`text, line`bufIdx, line.keyboardBuf
    ensures line.Valid() && line.text == WordCompleted(old(line.text), start, names)
  {
    assert NoNul(word);
    var exact, k, ls, best := Collect(names, word);
    if exact || k == 0 {
      return;
    }
    ghost var ms := Extending(names, word);
    ExtendingComparable(names, word);
    ExtendingDistinct(names, word);
    ChoiceLonger(ms, word);
    var found := Choose(ls, best, k, |names|, word, behind, ms);
    hide Extending, Choice, Collected;
    if !found {
      assert line.text[..start] + word == line.text;
      return;
    }
    Replace(line, start, best);
  }

  /** What the code's rows and buffers have room for: distinct names, a word no longer than a name, and a completed line
      that leaves room for the newline. */
  ghost predicate Completable(text: seq<byte>, names: seq<seq<byte>>) {
    && |text| < BUF_SIZE && Distinct(names) && (forall i :: 0 <= i < |names| ==> NameOk(names[i]))
    && (text != [] ==> var word := text[WordStart(text, |text| - 1)..]; |word| <= 32 && Fits(names, word))
    && |Completed(text, names)| < BUF_SIZE
  }

  lemma CompletedNoNul(text: seq<byte>, names: seq<seq<byte>>)
    requires NoNul(text) && forall i :: 0 <= i < |names| ==> NameOk(names[i])
    ensures NoNul(Completed(text, names))
  {
    if text != [] {
      var ms := Extending(names, text[WordStart(text, |text| - 1)..]);
      assert forall m <- ms :: m in names && NoNul(m);
      if ms != [] {
        assert ms[0] in ms;
        assert |ms| >= 2 ==> AdjMin(ms) <= |ms[0]| by {
          if |ms| >= 2 {
            NeighboursSuffice(ms);
          }
        }
      }
    }
  }

  /** autocomplete, when it does not list: the line becomes the completed one, whatever byte lies behind the rows. */
  method Autocomplete(line: TerminalLine, names: seq<seq<byte>>, behind: byte)
    requires line.Valid() && Completable(line.text, names)
    modifies line`text, line`bufIdx, line.keyboardBuf
    ensures line.Valid() && line.text == Completed(old(line.text), names)
  {
    if line.keyboardBuf[0] == NUL {
      assert line.text == [] by {
        assert line.keyboardBuf[0] == Padded(line.text)[0];
      }
      return;
    }
    CStringOfPadded(line.text);
    var text := CString(line.keyboardBuf[..]);
    assert text == line.text && text != [] && line.keyboardBuf[..|text|] == text;
    var start := FindWordStart(line.keyboardBuf, text);
    hide Extending, Choice;
    CompleteWord(line, start, text[start..], names, behind);
  }

  lemma ChoiceLonger(ms: seq<seq<byte>>, word: seq<byte>)
    requires ms != [] && forall n <- ms :: IsPrefix(word, n)
    ensures |Choice(ms, word)| >= |word|
  {
    assert ms[0] in ms;
  }
}
