/**
 grep's line matcher: a 1024-byte buffer that is refilled, scanned line by line,
 and whose unfinished last line is carried down to the front with an overlapping
 string copy. The specification reads the whole file at once.
 */
module Grep {
  import opened Bytes

  const BUFSIZE := 1024
  const COLON: byte := 58

  // ----- What grep is for: split the file into lines, keep those that match -----

  /** Index of the first newline in s, or |s|. */
  function NewlineAt(s: seq<byte>): (n: nat)
    ensures n <= |s|
    ensures forall i :: 0 <= i < n ==> s[i] != NEWLINE
    ensures n < |s| ==> s[n] == NEWLINE
  {
    if s == [] || s[0] == NEWLINE then 0 else 1 + NewlineAt(s[1..])
  }

  /** The lines of a text; a last line without newline counts when it is not empty. */
  function Lines(text: seq<byte>): seq<seq<byte>>
    decreases |text|
  {
    if text == [] then []
    else
      var n := NewlineAt(text);
      [text[..n]] + if n == |text| then [] else Lines(text[n + 1..])
  }

  predicate OccursAt(pat: seq<byte>, line: seq<byte>, k: nat) {
    k + |pat| <= |line| && line[k..k + |pat|] == pat
  }

  predicate Occurs(pat: seq<byte>, line: seq<byte>) {
    exists k :: 0 <= k <= |line| && OccursAt(pat, line, k)
  }

  function Emit(fname: seq<byte>, line: seq<byte>): seq<byte> {
    fname + [COLON] + line + [NEWLINE]
  }

  /** The report on lines of which exactly those satisfying `Occurs` are printed. */
  function Report(pat: seq<byte>, fname: seq<byte>, lines: seq<seq<byte>>): seq<byte> {
    if lines == [] then []
    else (if Occurs(pat, lines[0]) then Emit(fname, lines[0]) else []) + Report(pat, fname, lines[1..])
  }

  // ----- What the code computes, for lines of any length -----

  /** The code compares the first pattern byte as a signed char with an unsigned
      data byte, so a pattern that starts at or above 0x80 never matches. */
  predicate Hit(pat: seq<byte>, line: seq<byte>) {
    pat != [] && pat[0] < 0x80 && Occurs(pat, line)
  }

  /** Length of the piece the buffer can see: up to a newline, but at most BUFSIZE. */
  function PieceLen(text: seq<byte>): (n: nat)
    requires text != []
    ensures n <= |text| && n <= BUFSIZE
  {
    var n := NewlineAt(text);
    if n < BUFSIZE then n else BUFSIZE
  }

  function AfterPiece(text: seq<byte>): (rest: seq<byte>)
    requires text != []
    ensures |rest| < |text|
  {
    var n := NewlineAt(text);
    if n < BUFSIZE then (if n == |text| then [] else text[n + 1..]) else text[BUFSIZE..]
  }

  function EmitIf(pat: seq<byte>, fname: seq<byte>, line: seq<byte>): seq<byte> {
    if Hit(pat, line) then Emit(fname, line) else []
  }

  /** `out` followed by the report on text. */
  function Scan(pat: seq<byte>, fname: seq<byte>, out: seq<byte>, text: seq<byte>): seq<byte>
    decreases |text|
  {
    if text == [] then out
    else Scan(pat, fname, out + EmitIf(pat, fname, text[..PieceLen(text)]), AfterPiece(text))
  }

  // ----- The support library's string routines -----

  /** The overlapping, downward string copy: everything from `src` up to and including
      the first NUL (at `end`) moves to the front of the same buffer. */
  method StrcpyDown(s: array<byte>, src: nat, ghost end: nat)
    requires 0 < src <= end < s.Length
    requires s[end] == NUL && Lacks(NUL, s[..], src, end)
    modifies s
    ensures s[..] == old(s[..])[src..end + 1] + old(s[..])[end - src + 1..]
  {
    ghost var before := s[..];
    var k := 0;
    s[0] := s[src];
    assert MovedDown(before, s[..], src, 0);
    hide MovedDown;
    while s[k] != NUL
      invariant 0 <= k <= end - src && MovedDown(before, s[..], src, k) && s[k] == before[src + k]
      decreases end - src - k
    {
      assert k != end - src;
      MovedNext(before, s[..], src, k);
      k := k + 1;
      s[k] := s[src + k];
    }
    MovedAll(before, s[..], src, end);
  }

  /** Bytes 0 to k have come from src on, the others are as before. */
  ghost predicate MovedDown(before: seq<byte>, now: seq<byte>, src: nat, k: nat) {
    && |now| == |before| && src + k < |before|
    && (forall i :: 0 <= i <= k ==> now[i] == before[src + i])
    && (forall i :: k < i < |now| ==> now[i] == before[i])
  }

  lemma MovedNext(before: seq<byte>, now: seq<byte>, src: nat, k: nat)
    requires 0 < src && MovedDown(before, now, src, k) && src + k + 1 < |before|
    ensures MovedDown(before, now[k + 1 := now[src + (k + 1)]], src, k + 1)
    ensures now[k] == before[src + k] && now[src + (k + 1)] == before[src + (k + 1)]
  {
  }

  lemma MovedAll(before: seq<byte>, now: seq<byte>, src: nat, end: nat)
    requires src <= end < |before| && MovedDown(before, now, src, end - src)
    ensures now == before[src..end + 1] + before[end - src + 1..]
  {
    forall i | 0 <= i < |now| ensures now[i] == (before[src..end + 1] + before[end - src + 1..])[i] {
      if i <= end - src {
        assert now[i] == before[src + i] == before[src..end + 1][i];
      } else {
        assert now[i] == before[i] == before[end - src + 1..][i - (end - src + 1)];
      }
    }
  }

  /** strncmp of the NUL-terminated line at data[at..end] with the whole pattern: zero for a match, otherwise the
      difference of the first unequal bytes, the line's terminator included. */
  method Strncmp(data: array<byte>, at: nat, ghost end: nat, pat: seq<byte>) returns (diff: int)
    requires at <= end < data.Length && data[end] == NUL && Lacks(NUL, data[..], at, end)
    requires NoNul(pat)
    ensures diff == 0 <==> OccursAt(pat, data[at..end], 0)
    ensures diff != 0 ==>
      (exists k :: 0 <= k < |pat| && at + k <= end && data[at..at + k] == pat[..k] && diff == data[at + k] as int - pat[k] as int)
  {
    ghost var line := data[at..end];
    var n: int := |pat|;
    if n == 0 {
      return 0;
    }
    var k := 0;
    while data[at + k] == pat[k]
      invariant 0 <= k < |pat| && n == |pat| - k && at + k <= end
      invariant line[..k] == pat[..k]
      decreases |pat| - k
    {
      assert at + k < end && line[k] == pat[k];
      if data[at + k] == NUL {
        return 0;
      }
      n := n - 1;
      k := k + 1;
      if n == 0 {
        return 0;
      }
    }
    assert at + k < end ==> line[k] == data[at + k];
    assert data[at..at + k] == line[..k];
    return data[at + k] as int - pat[k] as int;
  }

  // ----- Reading and searching -----

  /** A read that is short only at the end of the file. */
  method Read(file: seq<byte>, pos: nat, data: array<byte>, at: nat, n: nat) returns (cnt: nat)
    requires pos <= |file| && at + n <= data.Length
    modifies data
    ensures cnt == if |file| - pos < n then |file| - pos else n
    ensures data[..] == old(data[..])[..at] + file[pos..pos + cnt] + old(data[..])[at + cnt..]
  {
    ghost var before := data[..];
    cnt := if |file| - pos < n then |file| - pos else n;
    assert FilledIn(before, data[..], at, file, pos, 0);
    hide FilledIn;
    for i := 0 to cnt
      invariant FilledIn(before, data[..], at, file, pos, i)
    {
      OneByteRead(before, data[..], at, file, pos, i);
      data[at + i] := file[pos + i];
    }
    AllRead(before, data[..], at, file, pos, cnt);
  }

  /** The first i bytes of the file from pos on stand from `at` on, the others are as before. */
  ghost predicate FilledIn(before: seq<byte>, now: seq<byte>, at: nat, file: seq<byte>, pos: nat, i: nat) {
    && |now| == |before| && at + i <= |now| && pos + i <= |file|
    && forall j :: 0 <= j < |now| ==> now[j] == if at <= j < at + i then file[pos + (j - at)] else before[j]
  }

  lemma OneByteRead(before: seq<byte>, now: seq<byte>, at: nat, file: seq<byte>, pos: nat, i: nat)
    requires FilledIn(before, now, at, file, pos, i) && at + i < |now| && pos + i < |file|
    ensures FilledIn(before, now[at + i := file[pos + i]], at, file, pos, i + 1)
  {
  }

  lemma AllRead(before: seq<byte>, now: seq<byte>, at: nat, file: seq<byte>, pos: nat, n: nat)
    requires FilledIn(before, now, at, file, pos, n)
    ensures now == before[..at] + file[pos..pos + n] + before[at + n..]
  {
  }

  /** The search of one NUL-terminated line, data[start..end]. */
  method SearchLine(pat: seq<byte>, data: array<byte>, start: nat, end: nat) returns (found: bool)
    requires start <= end < data.Length && data[end] == NUL && Lacks(NUL, data[..], start, end)
    requires NoNul(pat)
    ensures found == Hit(pat, data[start..end])
  {
    ghost var line := data[start..end];
    var check := start;
    while check < end
      invariant start <= check <= end
      invariant pat != [] && pat[0] < 0x80 ==> forall k :: 0 <= k < check - start ==> !OccursAt(pat, line, k)
    {
      ghost var at := check - start;
      assert data[check..end] == line[at..];
      OccursInSuffix(pat, line, at);
      // s[0] is a signed char: only a byte below 0x80 compares equal to a data byte
      if pat != [] && pat[0] < 0x80 && pat[0] == data[check] {
        var diff := Strncmp(data, check, end, pat);
        if diff == 0 {
          return true;
        }
      }
      check := check + 1;
    }
    return false;
  }

  lemma OccursInSuffix(pat: seq<byte>, line: seq<byte>, k: nat)
    requires k < |line|
    ensures OccursAt(pat, line, k) <==> OccursAt(pat, line[k..], 0)
    ensures pat != [] && OccursAt(pat, line, k) ==> pat[0] == line[k]
  {
    if k + |pat| <= |line| {
      assert line[k..][..|pat|] == line[k..k + |pat|];
    }
  }

  // ----- do_one_file -----

  lemma PieceOf(line: seq<byte>, rest: seq<byte>)
    requires line + rest != [] && |line| <= BUFSIZE && NEWLINE !in line
    requires rest == [] || |line| == BUFSIZE || rest[0] == NEWLINE
    ensures PieceLen(line + rest) == |line|
    ensures AfterPiece(line + rest) == if rest != [] && |line| < BUFSIZE then rest[1..] else rest
  {
    var text, n := line + rest, |line|;
    var m := NewlineAt(text);
    assert forall i :: 0 <= i < n ==> line[i] == text[i];
    assert m >= n;
    if n < |text| && n < BUFSIZE {
      assert text[n] == rest[0];
      assert m == n && text[n + 1..] == rest[1..];
    } else {
      assert text[n..] == rest;
    }
  }

  /** One line found in the buffer: either ended by a newline, or the last of the file, or filling
      the whole buffer. Its report is the first step of Scan. */
  lemma ScanStep(pat: seq<byte>, fname: seq<byte>, out: seq<byte>, line: seq<byte>, rest: seq<byte>)
    requires |line| <= BUFSIZE && NEWLINE !in line
    requires rest == [] || |line| == BUFSIZE || rest[0] == NEWLINE
    ensures Scan(pat, fname, out, line + rest)
         == Scan(pat, fname, out + EmitIf(pat, fname, line), if rest != [] && |line| < BUFSIZE then rest[1..] else rest)
  {
    if line + rest == [] {
      assert line == [] && rest == [];
      assert forall k :: !OccursAt(pat, line, k) || pat == [];
      assert out + EmitIf(pat, fname, line) == out;
    } else {
      PieceOf(line, rest);
      assert (line + rest)[..|line|] == line;
    }
  }

  /** Terminates the line in the buffer, searches it, and prints it after the file name on a match. */
  method ReportLine(pat: seq<byte>, fname: seq<byte>, data: array<byte>, start: nat, end: nat) returns (out: seq<byte>)
    requires NoNul(pat) && start <= end < data.Length && Lacks(NUL, data[..], start, end)
    modifies data
    ensures data[..] == old(data[..])[end := NUL]
    ensures out == EmitIf(pat, fname, old(data[..])[start..end])
  {
    ghost var line := data[..][start..end];
    data[end] := NUL;
    assert data[start..end] == line;
    var found := SearchLine(pat, data, start, end);
    if found {
      var len := Strlen(data, start);
      assert forall i :: start <= i < end ==> data[i] == data[start..end][i - start];
      assert len == end - start;
      return fname + [COLON] + data[start..start + len] + [NEWLINE];
    }
    return [];
  }

  /** First line break at or after `from` in the filled part of the buffer. */
  method FindLineEnd(data: array<byte>, from: nat, last: nat) returns (end: nat)
    requires from <= last <= data.Length
    ensures from <= end <= last
    ensures Lacks(NEWLINE, data[..], from, end)
    ensures end < last ==> data[end] == NEWLINE
  {
    end := from;
    while end < last && data[end] != NEWLINE
      invariant from <= end <= last
      invariant forall i :: from <= i < end ==> data[i] != NEWLINE
    {
      end := end + 1;
    }
  }

  /** What is still to be reported: the buffer from `from` to `last`, then the unread file. */
  function Pending(buf: seq<byte>, from: nat, last: nat, unread: seq<byte>): seq<byte>
    requires from <= last <= |buf|
  {
    buf[from..last] + unread
  }

  /** Reporting the line buf[from..end], which a newline ends, is one step of the scan. */
  lemma LineReported(pat: seq<byte>, fname: seq<byte>, out: seq<byte>, buf: seq<byte>, from: nat, end: nat, last: nat, unread: seq<byte>)
    requires from <= end < last <= BUFSIZE < |buf| && Lacks(NEWLINE, buf, from, end) && buf[end] == NEWLINE
    ensures Scan(pat, fname, out, Pending(buf, from, last, unread))
         == Scan(pat, fname, out + EmitIf(pat, fname, buf[from..end]), Pending(buf[end := NUL], end + 1, last, unread))
  {
    hide Scan, EmitIf;
    var line, rest := buf[from..end], buf[end..last] + unread;
    assert Pending(buf, from, last, unread) == line + rest by {
      assert buf[from..last] == line + buf[end..last];
    }
    ScanStep(pat, fname, out, line, rest);
    assert Pending(buf[end := NUL], end + 1, last, unread) == rest[1..] by {
      assert buf[end := NUL][end + 1..last] == buf[end..last][1..];
    }
  }

  /** So is reporting an unended line that closes the file or fills the buffer. */
  lemma RemainderReported(pat: seq<byte>, fname: seq<byte>, out: seq<byte>, buf: seq<byte>, from: nat, last: nat, unread: seq<byte>)
    requires from <= last <= BUFSIZE < |buf| && Lacks(NEWLINE, buf, from, last)
    requires unread == [] || (from == 0 && last == BUFSIZE)
    ensures Scan(pat, fname, out, Pending(buf, from, last, unread))
         == Scan(pat, fname, out + EmitIf(pat, fname, buf[from..last]), unread)
  {
    ScanStep(pat, fname, out, buf[from..last], unread);
  }

  /** Moving the unfinished line to the front changes nothing that is pending. */
  lemma Carried(before: seq<byte>, after: seq<byte>, from: nat, last: nat, unread: seq<byte>)
    requires from <= last < |before| && Lacks(NUL, before, from, last)
    requires after == before[last := NUL][from..last + 1] + before[last := NUL][last - from + 1..]
    ensures Pending(after, 0, last - from, unread) == Pending(before, from, last, unread)
    ensures Lacks(NUL, after, 0, last - from)
  {
    assert forall i :: 0 <= i < last - from ==> after[i] == before[from + i];
    assert after[0..last - from] == before[from..last];
  }

  /** The inner loop: reports every line the buffer holds and carries an unfinished one to the front.
      `unread` is what the file still holds. */
  method ScanBuffer(pat: seq<byte>, fname: seq<byte>, data: array<byte>, full: nat, cnt: nat, before: seq<byte>, ghost unread: seq<byte>)
    returns (out: seq<byte>, last: nat)
    requires NoNul(pat)
    requires data.Length == BUFSIZE + 1 && data[BUFSIZE] != NEWLINE
    requires full <= BUFSIZE && Lacks(NUL, data[..], 0, full)
    requires full < BUFSIZE ==> unread == []
    requires cnt == 0 ==> full < BUFSIZE
    modifies data
    ensures last < BUFSIZE && Lacks(NUL, data[..], 0, last) && data[BUFSIZE] != NEWLINE
    ensures Scan(pat, fname, before, Pending(old(data[..]), 0, full, unread))
         == Scan(pat, fname, out, Pending(data[..], 0, last, unread))
    ensures cnt == 0 ==> last == 0
  {
    hide Scan, EmitIf, Pending;
    out := before;
    last := full;
    ghost var goal := Scan(pat, fname, before, Pending(data[..], 0, full, unread));
    var line_start := 0;
    ghost var buf := data[..];
    while true
      invariant 0 <= line_start <= last == full
      invariant data[..] == buf && buf[BUFSIZE] != NEWLINE
      invariant Lacks(NUL, buf, line_start, last)
      invariant line_start > 0 ==> line_start < last
      invariant goal == Scan(pat, fname, out, Pending(buf, line_start, last, unread))
      decreases last - line_start
    {
      var line_end := FindLineEnd(data, line_start, last);
      if data[line_end] != NEWLINE && cnt != 0 && line_start != 0 {
        data[line_end] := NUL;
        StrcpyDown(data, line_start, line_end);
        Carried(buf, data[..], line_start, line_end, unread);
        last := last - line_start;
        break;
      }
      if line_end < last {
        LineReported(pat, fname, out, buf, line_start, line_end, last, unread);
      } else {
        RemainderReported(pat, fname, out, buf, line_start, last, unread);
      }
      var printed := ReportLine(pat, fname, data, line_start, line_end);
      buf := buf[line_end := NUL];
      out := out + printed;
      line_start := line_end + 1;
      if line_start >= last {
        EmptyPending(buf, line_start, last, unread);
        EmptyPending(buf, 0, 0, unread);
        last := 0;
        break;
      }
    }
  }

  lemma EmptyPending(buf: seq<byte>, from: nat, last: nat, unread: seq<byte>)
    requires from <= |buf| && last <= |buf|
    ensures from == last ==> Pending(buf, from, last, unread) == unread
  {
  }

  /** do_one_file after a successful open: the output is exactly that of scanning the whole file at once. */
  method DoOneFile(pat: seq<byte>, fname: seq<byte>, file: seq<byte>, data: array<byte>) returns (out: seq<byte>)
    requires NoNul(pat) && NoNul(file)
    requires data.Length == BUFSIZE + 1 && data[BUFSIZE] != NEWLINE
    modifies data
    ensures out == Scan(pat, fname, [], file)
  {
    hide Scan, EmitIf, Pending;
    out := [];
    var pos := 0;
    var last := 0;
    EmptyPending(data[..], 0, 0, file);
    assert file[0..] == file;
    while true
      invariant 0 <= last < BUFSIZE && 0 <= pos <= |file|
      invariant data[BUFSIZE] != NEWLINE
      invariant Lacks(NUL, data[..], 0, last)
      invariant Scan(pat, fname, [], file) == Scan(pat, fname, out, Pending(data[..], 0, last, file[pos..]))
      decreases |file| - pos
    {
      ghost var before := data[..];
      var cnt := Read(file, pos, data, last, BUFSIZE - last);
      Refilled(before, data[..], last, cnt, file, pos);
      last := last + cnt;
      pos := pos + cnt;
      out, last := ScanBuffer(pat, fname, data, last, cnt, out, file[pos..]);
      if cnt == 0 {
        EmptyPending(data[..], 0, 0, []);
        ScanNothing(pat, fname, out);
        break;
      }
    }
  }

  lemma ScanNothing(pat: seq<byte>, fname: seq<byte>, out: seq<byte>)
    ensures Scan(pat, fname, out, []) == out
  {
  }

  lemma Refilled(before: seq<byte>, after: seq<byte>, last: nat, cnt: nat, file: seq<byte>, pos: nat)
    requires last + cnt <= BUFSIZE < |before| == |after| && pos + cnt <= |file|
    requires after == before[..last] + file[pos..pos + cnt] + before[last + cnt..]
    requires NoNul(file) && Lacks(NUL, before, 0, last)
    ensures Pending(after, 0, last + cnt, file[pos + cnt..]) == Pending(before, 0, last, file[pos..])
    ensures Lacks(NUL, after, 0, last + cnt)
    ensures after[BUFSIZE] == before[BUFSIZE]
  {
    assert file[pos..] == file[pos..pos + cnt] + file[pos + cnt..];
    assert after[..last + cnt] == before[..last] + file[pos..pos + cnt];
  }

  // ----- The streamed scan is split-then-filter -----

  /** What follows the first line of a text. */
  function AfterLine(text: seq<byte>): (rest: seq<byte>)
    requires text != []
    ensures |rest| < |text|
  {
    var n := NewlineAt(text);
    if n == |text| then [] else text[n + 1..]
  }

  lemma FirstLine(text: seq<byte>)
    requires text != []
    ensures Lines(text) == [text[..NewlineAt(text)]] + Lines(AfterLine(text))
  {
  }

  /** The buffer consumes a line that fits it whole. A line of exactly BUFSIZE bytes leaves its newline
      behind, which is then consumed as an empty line and reports nothing. */
  lemma ScanLine(pat: seq<byte>, fname: seq<byte>, out: seq<byte>, text: seq<byte>)
    requires text != [] && NewlineAt(text) <= BUFSIZE
    ensures Scan(pat, fname, out, text) == Scan(pat, fname, out + EmitIf(pat, fname, text[..NewlineAt(text)]), AfterLine(text))
  {
    var n := NewlineAt(text);
    if n == BUFSIZE && n < |text| {
      var left := text[n..];
      var more := out + EmitIf(pat, fname, text[..n]);
      assert left[0] == NEWLINE && left[1..] == AfterLine(text);
      ScanStep(pat, fname, more, [], left);
      assert [] + left == left;
      assert !Hit(pat, []);
      assert more + [] == more;
    }
  }

  lemma ReportStep(pat: seq<byte>, fname: seq<byte>, line: seq<byte>, lines: seq<seq<byte>>)
    requires pat != [] && pat[0] < 0x80
    ensures Report(pat, fname, [line] + lines) == EmitIf(pat, fname, line) + Report(pat, fname, lines)
  {
    assert ([line] + lines)[1..] == lines;
  }

  lemma Associate(a: seq<byte>, b: seq<byte>, c: seq<byte>)
    ensures a + (b + c) == (a + b) + c
  {
  }

  /** What the scan prints, it prints behind what has been printed before. */
  lemma {:induction false} ScanAppends(pat: seq<byte>, fname: seq<byte>, out: seq<byte>, text: seq<byte>)
    ensures Scan(pat, fname, out, text) == out + Scan(pat, fname, [], text)
    decreases |text|
  {
    if text != [] {
      var printed, rest := EmitIf(pat, fname, text[..PieceLen(text)]), AfterPiece(text);
      ScanAppends(pat, fname, out + printed, rest);
      ScanAppends(pat, fname, [] + printed, rest);
      assert [] + printed == printed;
      Associate(out, printed, Scan(pat, fname, [], rest));
      hide Scan, EmitIf;
    }
  }

  /** A pattern that is empty or starts at or above 0x80 is never found. */
  lemma {:induction false} NeverHit(pat: seq<byte>, fname: seq<byte>, out: seq<byte>, text: seq<byte>)
    requires pat == [] || pat[0] >= 0x80
    ensures Scan(pat, fname, out, text) == out
    decreases |text|
  {
    if text != [] {
      assert out + [] == out;
      NeverHit(pat, fname, out, AfterPiece(text));
    }
  }

  lemma OccursInPart(pat: seq<byte>, line: seq<byte>, lo: nat, hi: nat)
    requires lo <= hi <= |line| && Occurs(pat, line[lo..hi])
    ensures Occurs(pat, line)
  {
    var part := line[lo..hi];
    var k :| 0 <= k <= |part| && OccursAt(pat, part, k);
    var at := lo + k;
    forall i | 0 <= i < |pat| ensures line[at + i] == pat[i] {
      assert pat[i] == part[k..k + |pat|][i] == part[k + i] == line[lo + (k + i)];
    }
    assert line[at..at + |pat|] == pat;
    assert OccursAt(pat, line, lo + k);
  }

  /** The pieces of a line that does not contain the pattern print nothing, however long the line is. */
  lemma {:induction false} ScanSilentLine(pat: seq<byte>, fname: seq<byte>, out: seq<byte>, text: seq<byte>)
    requires text != [] && !Occurs(pat, text[..NewlineAt(text)])
    ensures Scan(pat, fname, out, text) == Scan(pat, fname, out, AfterLine(text))
    decreases |text|
  {
    var n := NewlineAt(text);
    var line := text[..n];
    assert out + [] == out;
    if n <= BUFSIZE {
      ScanLine(pat, fname, out, text);
    } else {
      var rest := text[BUFSIZE..];
      RestOfLine(text);
      PartsOf(text, BUFSIZE, n);
      if Occurs(pat, text[..BUFSIZE]) {
        OccursInPart(pat, line, 0, BUFSIZE);
      }
      if Occurs(pat, rest[..n - BUFSIZE]) {
        OccursInPart(pat, line, BUFSIZE, n);
      }
      hide Occurs, Scan;
      ScanLongPiece(pat, fname, out, text);
      ScanSilentLine(pat, fname, out, rest);
    }
  }

  lemma PartsOf(text: seq<byte>, m: nat, n: nat)
    requires m <= n <= |text|
    ensures text[..n][0..m] == text[..m] && text[..n][m..n] == text[m..][..n - m]
  {
  }

  lemma ScanLongPiece(pat: seq<byte>, fname: seq<byte>, out: seq<byte>, text: seq<byte>)
    requires text != [] && NewlineAt(text) > BUFSIZE && !Occurs(pat, text[..BUFSIZE])
    ensures Scan(pat, fname, out, text) == Scan(pat, fname, out, text[BUFSIZE..])
  {
    assert out + [] == out;
  }

  lemma RestOfLine(text: seq<byte>)
    requires text != [] && NewlineAt(text) > BUFSIZE
    ensures var rest := text[BUFSIZE..];
      rest != [] && NewlineAt(rest) == NewlineAt(text) - BUFSIZE && AfterLine(rest) == AfterLine(text)
  {
    var n, rest := NewlineAt(text), text[BUFSIZE..];
    assert forall i :: 0 <= i < |rest| ==> rest[i] == text[BUFSIZE + i];
    NewlineAtIs(rest, n - BUFSIZE);
    if n < |text| {
      assert rest[n - BUFSIZE + 1..] == text[n + 1..];
    }
  }

  lemma NewlineAtIs(s: seq<byte>, n: nat)
    requires n <= |s| && (forall i :: 0 <= i < n ==> s[i] != NEWLINE) && (n < |s| ==> s[n] == NEWLINE)
    ensures NewlineAt(s) == n
  {
  }

  /** Every line that is longer than the buffer lacks the pattern. */
  ghost predicate LongLinesLack(pat: seq<byte>, lines: seq<seq<byte>>) {
    forall line <- lines :: |line| > BUFSIZE ==> !Occurs(pat, line)
  }

  /** Refill, carry-over and the scan lose, duplicate and reorder nothing, as long as the lines to be printed fit. */
  lemma {:induction false} ScanIsReport(pat: seq<byte>, fname: seq<byte>, out: seq<byte>, text: seq<byte>)
    requires pat != [] && pat[0] < 0x80 && LongLinesLack(pat, Lines(text))
    ensures Scan(pat, fname, out, text) == out + Report(pat, fname, Lines(text))
    decreases |text|
  {
    if text != [] {
      var line, rest := text[..NewlineAt(text)], AfterLine(text);
      FirstLine(text);
      assert line == Lines(text)[0] && forall l <- Lines(rest) :: l in Lines(text);
      if NewlineAt(text) <= BUFSIZE {
        ScanLine(pat, fname, out, text);
      } else {
        ScanSilentLine(pat, fname, out, text);
        assert out + EmitIf(pat, fname, line) == out;
      }
      ScanIsReport(pat, fname, out + EmitIf(pat, fname, line), rest);
      ReportStep(pat, fname, line, Lines(rest));
      Associate(out, EmitIf(pat, fname, line), Report(pat, fname, Lines(rest)));
      hide *;
    }
  }

  // ----- Reading the output back -----

  /** The line that a match prints. */
  function Printed(fname: seq<byte>, line: seq<byte>): seq<byte> {
    fname + [COLON] + line
  }

  lemma LinesOfEmit(fname: seq<byte>, line: seq<byte>, rest: seq<byte>)
    requires NEWLINE !in fname && NEWLINE !in line
    ensures Lines(Emit(fname, line) + rest) == [Printed(fname, line)] + Lines(rest)
  {
    var p, text := Printed(fname, line), Emit(fname, line) + rest;
    assert text == p + [NEWLINE] + rest;
    assert NEWLINE !in p;
    assert forall i :: 0 <= i < |p| ==> text[i] == p[i] && p[i] in p;
    NewlineAtIs(text, |p|);
    assert text[..|p|] == p && text[|p| + 1..] == rest;
  }

  lemma {:induction false} NoNewlineInLines(text: seq<byte>)
    ensures forall line <- Lines(text) :: NEWLINE !in line
    decreases |text|
  {
    if text != [] {
      FirstLine(text);
      NoNewlineInLines(AfterLine(text));
      hide Lines, AfterLine;
    }
  }

  /** Lines, each with its newline. */
  function Joined(lines: seq<seq<byte>>): seq<byte> {
    if lines == [] then [] else lines[0] + [NEWLINE] + Joined(lines[1..])
  }

  /** Splitting loses nothing: the lines joined are the text, with a newline more when its last line has none. */
  lemma {:induction false} LinesJoin(text: seq<byte>)
    ensures Joined(Lines(text)) == if text != [] && text[|text| - 1] != NEWLINE then text + [NEWLINE] else text
    decreases |text|
  {
    if text != [] {
      var n, rest := NewlineAt(text), AfterLine(text);
      FirstLine(text);
      LinesJoin(rest);
      assert ([text[..n]] + Lines(rest))[1..] == Lines(rest);
      assert Joined(Lines(text)) == text[..n] + [NEWLINE] + Joined(Lines(rest));
      hide Lines, Joined;
      FirstLineAndRest(text);
    }
  }

  /** A text is its first line, the newline and the rest; a last line without newline stands alone. */
  lemma FirstLineAndRest(text: seq<byte>)
    requires text != []
    ensures var n, rest := NewlineAt(text), AfterLine(text);
            && (n < |text| ==> text == text[..n] + [NEWLINE] + rest && text + [NEWLINE] == text[..n] + [NEWLINE] + (rest + [NEWLINE]))
            && (n == |text| ==> text[..n] == text && rest == [] && text[|text| - 1] != NEWLINE && text + [NEWLINE] + [] == text + [NEWLINE])
            && (rest != [] ==> rest[|rest| - 1] == text[|text| - 1])
            && (rest == [] && n < |text| ==> text[|text| - 1] == NEWLINE)
  {
    var n, rest := NewlineAt(text), AfterLine(text);
    if n < |text| {
      CutAt(text, n);
      Behind(text[..n], rest);
    }
    hide NewlineAt, AfterLine;
  }

  lemma CutAt(text: seq<byte>, n: nat)
    requires n < |text|
    ensures text == text[..n] + [text[n]] + text[n + 1..]
    ensures text[n + 1..] != [] ==> text[n + 1..][|text| - n - 2] == text[|text| - 1]
  {
  }

  lemma Behind(a: seq<byte>, b: seq<byte>)
    ensures (a + [NEWLINE] + b) + [NEWLINE] == a + [NEWLINE] + (b + [NEWLINE])
  {
  }

  /** The lines that match. */
  function Matching(pat: seq<byte>, lines: seq<seq<byte>>): (r: seq<seq<byte>>)
    ensures forall line :: line in r <==> line in lines && Occurs(pat, line)
  {
    if lines == [] then [] else (if Occurs(pat, lines[0]) then [lines[0]] else []) + Matching(pat, lines[1..])
  }

  /** The report read back line by line: exactly the lines that match, in order, each behind the file's name. */
  lemma {:induction false} ReportReadsBack(pat: seq<byte>, fname: seq<byte>, lines: seq<seq<byte>>)
    requires NEWLINE !in fname && forall l <- lines :: NEWLINE !in l
    ensures ReadsBack(fname, Matching(pat, lines), Lines(Report(pat, fname, lines)))
  {
    if lines != [] {
      var rest, ms := Report(pat, fname, lines[1..]), Matching(pat, lines[1..]);
      assert forall l <- lines[1..] :: l in lines;
      assert lines[0] in lines;
      ReportReadsBack(pat, fname, lines[1..]);
      if Occurs(pat, lines[0]) {
        LinesOfEmit(fname, lines[0], rest);
        OneMoreReadBack(fname, lines[0], ms, Lines(rest));
      } else {
        assert [] + rest == rest && [] + ms == ms;
      }
      hide Lines, Emit, Printed, Occurs, ReadsBack;
    }
  }

  /** Printed lines read back in order. */
  ghost predicate ReadsBack(fname: seq<byte>, ms: seq<seq<byte>>, back: seq<seq<byte>>) {
    |back| == |ms| && forall i :: 0 <= i < |ms| ==> back[i] == fname + [COLON] + ms[i]
  }

  lemma OneMoreReadBack(fname: seq<byte>, line: seq<byte>, ms: seq<seq<byte>>, back: seq<seq<byte>>)
    requires ReadsBack(fname, ms, back)
    ensures ReadsBack(fname, [line] + ms, [Printed(fname, line)] + back)
  {
    assert Printed(fname, line) == fname + [COLON] + line;
  }

  /** No line of the scan's output is longer than the prefix and one buffer. */
  lemma {:induction false} ScanPrintsShortLines(pat: seq<byte>, fname: seq<byte>, text: seq<byte>)
    requires NEWLINE !in fname
    ensures forall l <- Lines(Scan(pat, fname, [], text)) :: |l| <= |fname| + 1 + BUFSIZE
    decreases |text|
  {
    if text != [] {
      var piece, rest := text[..PieceLen(text)], AfterPiece(text);
      ScanPrintsShortLines(pat, fname, rest);
      ScanAppends(pat, fname, [] + EmitIf(pat, fname, piece), rest);
      assert [] + EmitIf(pat, fname, piece) == EmitIf(pat, fname, piece);
      var more := Scan(pat, fname, [], rest);
      if Hit(pat, piece) {
        LinesOfEmit(fname, piece, more);
        assert |Printed(fname, piece)| <= |fname| + 1 + BUFSIZE;
      } else {
        assert [] + more == more;
      }
      assert Scan(pat, fname, [], text) == EmitIf(pat, fname, piece) + more;
      hide Scan, Lines, Emit, Printed, Hit;
    }
  }

  // ----- When grep is right -----

  ghost predicate Correct(pat: seq<byte>, fname: seq<byte>, file: seq<byte>) {
    Scan(pat, fname, [], file) == Report(pat, fname, Lines(file))
  }

  /** For every pattern and file: the output is right exactly when every line that contains the pattern fits the
      buffer and the pattern's first byte compares as a signed char. */
  lemma CorrectIff(pat: seq<byte>, fname: seq<byte>, file: seq<byte>)
    requires NEWLINE !in fname
    ensures Correct(pat, fname, file) <==>
            forall line <- Lines(file) :: Occurs(pat, line) ==> |line| <= BUFSIZE && pat != [] && pat[0] < 0x80
  {
    var lines := Lines(file);
    NoNewlineInLines(file);
    if line :| line in lines && Occurs(pat, line) && !(|line| <= BUFSIZE && pat != [] && pat[0] < 0x80) {
      ReportReadsBack(pat, fname, lines);
      assert line in Matching(pat, lines);
      if pat == [] || pat[0] >= 0x80 {
        NeverHit(pat, fname, [], file);
        assert Lines([]) == [];
      } else {
        ScanPrintsShortLines(pat, fname, file);
        assert |Printed(fname, line)| > |fname| + 1 + BUFSIZE;
      }
    } else if pat == [] || pat[0] >= 0x80 {
      NeverHit(pat, fname, [], file);
      NothingReported(pat, fname, lines);
    } else {
      ScanIsReport(pat, fname, [], file);
      assert [] + Report(pat, fname, lines) == Report(pat, fname, lines);
    }
  }

  lemma {:induction false} NothingReported(pat: seq<byte>, fname: seq<byte>, lines: seq<seq<byte>>)
    requires forall line <- lines :: !Occurs(pat, line)
    ensures Report(pat, fname, lines) == []
  {
    if lines != [] {
      assert lines[0] in lines && forall l <- lines[1..] :: l in lines;
      NothingReported(pat, fname, lines[1..]);
    }
  }

  const MAX_ARGS := 127  // size of the kernel's argument buffer, terminator included

  /** A pattern that a program can be given: the kernel skips spaces before it and keeps it in a terminated buffer. */
  predicate Givable(pat: seq<byte>) {
    0 < |pat| < MAX_ARGS && NoNul(pat) && pat[0] != SPACE
  }

  /** A byte with which a pattern that grep can find may start. */
  predicate Starts(b: byte) {
    b != SPACE && b != NUL && b < 0x80
  }

  /** A file is grepped correctly for every pattern the program can be given, with a first byte below 0x80, exactly
      when each line longer than the buffer holds no byte with which such a pattern may start: a single byte of a
      long line is enough to get it printed in pieces. */
  lemma CorrectForFileIff(fname: seq<byte>, file: seq<byte>)
    requires NEWLINE !in fname
    ensures (forall pat: seq<byte> | Givable(pat) && pat[0] < 0x80 :: Correct(pat, fname, file)) <==>
            forall line <- Lines(file) :: |line| > BUFSIZE ==> forall b <- line :: !Starts(b)
  {
    hide Lines, Correct, Occurs, Starts, NoNul;
    if line, b :| line in Lines(file) && |line| > BUFSIZE && b in line && Starts(b) {
      OneByteOccurs(line, b);
      CorrectIff([b], fname, file);
    } else {
      forall pat: seq<byte> | Givable(pat) && pat[0] < 0x80 ensures Correct(pat, fname, file) {
        forall line | line in Lines(file) && Occurs(pat, line) ensures |line| <= BUFSIZE {
          FirstByteOccurs(line, pat);
        }
        CorrectIff(pat, fname, file);
      }
    }
  }

  lemma OneByteOccurs(line: seq<byte>, b: byte)
    requires b in line && Starts(b)
    ensures Occurs([b], line) && Givable([b]) && b < 0x80
  {
    var i :| 0 <= i < |line| && line[i] == b;
    assert OccursAt([b], line, i);
  }

  lemma FirstByteOccurs(line: seq<byte>, pat: seq<byte>)
    requires Givable(pat) && pat[0] < 0x80 && Occurs(pat, line)
    ensures pat[0] in line && Starts(pat[0])
  {
    var k :| 0 <= k <= |line| && OccursAt(pat, line, k);
    assert line[k] == line[k..k + |pat|][0];
  }

  predicate ShortLines(text: seq<byte>) {
    forall line <- Lines(text) :: |line| <= BUFSIZE
  }

  /** A one-line pattern is searched correctly in every file whose lines fit the buffer exactly when it starts with
      a byte below 0x80. */
  lemma CorrectForPatternIff(pat: seq<byte>, fname: seq<byte>)
    requires |pat| <= BUFSIZE && NEWLINE !in pat && NEWLINE !in fname
    ensures (forall file: seq<byte> | ShortLines(file) :: Correct(pat, fname, file)) <==> pat != [] && pat[0] < 0x80
  {
    if pat != [] && pat[0] < 0x80 {
      forall file: seq<byte> | ShortLines(file) ensures Correct(pat, fname, file) {
        CorrectIff(pat, fname, file);
      }
    } else {
      LinesOfOne(pat);
      CorrectIff(pat, fname, pat + [NEWLINE]);
      assert !Correct(pat, fname, pat + [NEWLINE]);
    }
  }

  lemma LinesOfOne(line: seq<byte>)
    requires NEWLINE !in line
    ensures Lines(line + [NEWLINE]) == [line] && Occurs(line, line)
  {
    var file := line + [NEWLINE];
    NewlineAtIs(file, |line|);
    assert file[..|line|] == line && file[|line| + 1..] == [];
    assert line[0..0 + |line|] == line && OccursAt(line, line, 0);
  }
}
