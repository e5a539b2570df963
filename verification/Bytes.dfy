/** The machine's bytes and words, as bounded integers; C strings; optional values. */
module Bytes {
  type byte = b: int | 0 <= b < 0x100
  type word = w: int | 0 <= w < 0x1_0000_0000

  datatype Option<T> = None | Some(value: T)

  const NUL: byte := 0
  const NEWLINE: byte := 10
  const SPACE: byte := 32

  ghost predicate Distinct<T>(s: seq<T>) {
    forall i, j :: 0 <= i < j < |s| ==> s[i] != s[j]
  }

  /** b does not occur in s at positions lo up to hi. */
  predicate Lacks(b: byte, s: seq<byte>, lo: nat, hi: nat)
    requires hi <= |s|
  {
    forall i :: lo <= i < hi ==> s[i] != b
  }

  /** No byte of s is the string terminator. */
  predicate NoNul(s: seq<byte>) {
    forall i :: 0 <= i < |s| ==> s[i] != NUL
  }

  /** The string that starts at the front of a buffer. */
  function CString(s: seq<byte>): (r: seq<byte>)
    ensures |r| <= |s| && r == s[..|r|] && NoNul(r)
    ensures |r| < |s| ==> s[|r|] == NUL
  {
    if s == [] || s[0] == NUL then [] else [s[0]] + CString(s[1..])
  }

  lemma CStringIs(s: seq<byte>, text: seq<byte>)
    requires |text| <= |s| && text == s[..|text|] && NoNul(text) && (|text| < |s| ==> s[|text|] == NUL)
    ensures CString(s) == text
  {
    var r := CString(s);
    assert forall k :: 0 <= k < |text| ==> s[k] == text[k];
    assert forall k :: 0 <= k < |r| ==> s[k] == r[k];
    assert |r| == |text|;
  }

  /** The length of the string at s + from, the same loop in the kernel and in the support library. */
  method Strlen(s: array<byte>, from: nat) returns (len: nat)
    requires exists k :: from <= k < s.Length && s[k] == NUL
    ensures from + len < s.Length && s[from + len] == NUL
    ensures forall i :: from <= i < from + len ==> s[i] != NUL
  {
    len := 0;
    while s[from + len] != NUL
      invariant from + len < s.Length
      invariant forall i :: from <= i < from + len ==> s[i] != NUL
      decreases s.Length - from - len
    {
      len := len + 1;
    }
  }
}
