/**
 The directory in the boot block: names of up to 32 bytes, not terminated when they are 32 long. sys_open looks
 a name up twice, with two different comparisons; they agree on every name the first one finds.
 */
module Directory {
  import opened Bytes

  const FILENAME_LEN := 32
  const NUM_DIRENTRIES := 63

  datatype Dentry = Dentry(filename: seq<byte>, filetype: word, inodeNum: word)

  predicate DirectoryOk(entries: seq<Dentry>) {
    |entries| == NUM_DIRENTRIES && forall i :: 0 <= i < NUM_DIRENTRIES ==> |entries[i].filename| == FILENAME_LEN
  }

  function NameOf(d: Dentry): seq<byte> {
    CString(d.filename)
  }

  /** A C string in memory. */
  function Terminated(s: seq<byte>): seq<byte> {
    s + [NUL]
  }

  /** A byte as the signed char that the kernel's strings are made of. */
  function Char(b: byte): int {
    if b < 0x80 then b else b - 0x100
  }

  lemma CharIff(b: byte, v: int)
    ensures v == Char(b) <==> -128 <= v < 128 && (v == b || v == b - 256)
  {
  }

  /** The strings agree, without an end, before position i and differ there. */
  ghost predicate DiffersAt(s1: seq<byte>, s2: seq<byte>, i: int) {
    0 <= i < |s1| && i < |s2| && s1[..i] == s2[..i] && NoNul(s1[..i]) && s1[i] != s2[i]
  }

  /** strncmp of two strings in memory: zero if they are alike, otherwise the difference of the first characters that
      differ. */
  method Strncmp(s1: seq<byte>, s2: seq<byte>, n: nat) returns (diff: int)
    requires n <= |s2| && (n <= |s1| || exists k :: 0 <= k < |s1| && s1[k] == NUL)
    ensures diff == 0 <==> Alike(s1, s2, n)
    ensures diff != 0 ==> exists i :: 0 <= i < n && DiffersAt(s1, s2, i) && diff == Char(s1[i]) - Char(s2[i])
  {
    var i := 0;
    while i < n
      invariant 0 <= i <= n && i <= |s1| && s1[..i] == s2[..i] && NoNul(s1[..i])
    {
      if s1[i] != s2[i] || s1[i] == NUL {
        StopsAt(s1, s2, n, i);
        return Char(s1[i]) - Char(s2[i]);
      }
      i := i + 1;
    }
    return 0;
  }

  /** The strings agree on their first n bytes, or up to a common end before that. */
  ghost predicate Alike(s1: seq<byte>, s2: seq<byte>, n: nat) {
    || (n <= |s1| && n <= |s2| && s1[..n] == s2[..n] && NoNul(s1[..n]))
    || exists k :: 0 <= k < n && EndsAt(s1, s2, k)
  }

  ghost predicate EndsAt(s1: seq<byte>, s2: seq<byte>, k: nat) {
    k < |s1| && k < |s2| && s1[..k] == s2[..k] && NoNul(s1[..k]) && s1[k] == s2[k] == NUL
  }

  lemma StopsAt(s1: seq<byte>, s2: seq<byte>, n: nat, i: nat)
    requires i < n && i < |s1| && i < |s2| && s1[..i] == s2[..i] && NoNul(s1[..i])
    requires s1[i] != s2[i] || s1[i] == NUL
    ensures Alike(s1, s2, n) <==> s1[i] == s2[i]
  {
    if s1[i] == s2[i] {
      assert EndsAt(s1, s2, i);
    } else {
      assert n <= |s1| ==> s1[..n][i] == s1[i];
      assert n <= |s2| ==> s2[..n][i] == s2[i];
      forall k | 0 <= k < n ensures !EndsAt(s1, s2, k) {
        assert i < k < |s1| ==> s1[..k][i] == s1[i];
        assert i < k < |s2| ==> s2[..k][i] == s2[i];
        assert k < i ==> s1[..i][k] == s1[k];
      }
    }
  }

  /** The comparison of file_open, on a name that is not longer than 32 bytes, is equality of names. */
  lemma AlikeIsEqual(name: seq<byte>, d: Dentry)
    requires NoNul(name) && |d.filename| == FILENAME_LEN
    ensures Alike(Terminated(name), d.filename, FILENAME_LEN) <==>
            if |name| <= FILENAME_LEN then NameOf(d) == name else d.filename == name[..FILENAME_LEN]
  {
    var s, f := Terminated(name), d.filename;
    if |name| < FILENAME_LEN {
      StringEnd(name, f);
    } else {
      assert s[..FILENAME_LEN] == name[..FILENAME_LEN];
      assert f[..FILENAME_LEN] == f;
      forall k | 0 <= k < FILENAME_LEN ensures !EndsAt(s, f, k) {
        assert s[k] == name[k];
      }
      if f == name[..FILENAME_LEN] {
        CStringIs(f, f);
      }
    }
  }

  lemma StringEnd(name: seq<byte>, f: seq<byte>)
    requires NoNul(name) && |name| < FILENAME_LEN == |f|
    ensures Alike(Terminated(name), f, FILENAME_LEN) <==> CString(f) == name
  {
    var s, n := Terminated(name), |name|;
    if CString(f) == name {
      assert s[..n] == name == f[..n];
      assert EndsAt(s, f, n);
    }
    if k :| 0 <= k < FILENAME_LEN && EndsAt(s, f, k) {
      assert forall j :: 0 <= j < n ==> s[j] == name[j];
      assert forall j :: 0 <= j < k ==> s[j] == s[..k][j];
      assert k == n;
      assert s[..n] == name;
      CStringIs(f, name);
    }
    if FILENAME_LEN <= |s| {
      assert s[..FILENAME_LEN][n] == NUL;
    }
  }

  ghost predicate FirstNamed(entries: seq<Dentry>, name: seq<byte>, i: int) {
    0 <= i < |entries| && NameOf(entries[i]) == name && forall j :: 0 <= j < i ==> NameOf(entries[j]) != name
  }

  /** read_dentry_by_name: the first entry of that name; an empty name is not found. */
  method ReadDentryByName(entries: seq<Dentry>, fname: seq<byte>) returns (index: int)
    requires DirectoryOk(entries) && NoNul(fname)
    ensures index == -1 || FirstNamed(entries, fname, index)
    ensures index == -1 <==> fname == [] || forall j :: 0 <= j < NUM_DIRENTRIES ==> NameOf(entries[j]) != fname
  {
    if |fname| == 0 {
      return -1;
    }
    for i := 0 to NUM_DIRENTRIES
      invariant forall j :: 0 <= j < i ==> NameOf(entries[j]) != fname
    {
      var len := |CString(entries[i].filename)|;
      if |fname| == len {
        var diff := Strncmp(Terminated(fname), entries[i].filename, len);
        SameLength(fname, entries[i]);
        if diff == 0 {
          return i;
        }
      }
    }
    return -1;
  }

  lemma SameLength(fname: seq<byte>, d: Dentry)
    requires NoNul(fname) && |d.filename| == FILENAME_LEN && |fname| == |NameOf(d)|
    ensures Alike(Terminated(fname), d.filename, |fname|) <==> NameOf(d) == fname
  {
    var n := |fname|;
    assert Terminated(fname)[..n] == fname && d.filename[..n] == NameOf(d);
    forall k | 0 <= k < n ensures !EndsAt(Terminated(fname), d.filename, k) {
      assert Terminated(fname)[k] == fname[k];
    }
  }

  /** file_open: the inode number of the first entry that compares equal on 32 bytes. */
  method FileOpen(entries: seq<Dentry>, filename: seq<byte>) returns (index: int)
    requires DirectoryOk(entries) && NoNul(filename)
    ensures index == -1 <==> forall j :: 0 <= j < NUM_DIRENTRIES ==> !Alike(Terminated(filename), entries[j].filename, FILENAME_LEN)
    ensures index != -1 ==> 0 <= index < NUM_DIRENTRIES && Alike(Terminated(filename), entries[index].filename, FILENAME_LEN)
    ensures forall j :: 0 <= j < index ==> !Alike(Terminated(filename), entries[j].filename, FILENAME_LEN)
  {
    for i := 0 to NUM_DIRENTRIES
      invariant forall j :: 0 <= j < i ==> !Alike(Terminated(filename), entries[j].filename, FILENAME_LEN)
    {
      assert Terminated(filename)[|filename|] == NUL;
      var diff := Strncmp(Terminated(filename), entries[i].filename, FILENAME_LEN);
      if diff == 0 {
        return i;
      }
    }
    return -1;
  }

  /** The two lookups of sys_open: whenever the first one finds an entry, the second one finds the same. */
  method LookUpTwice(entries: seq<Dentry>, filename: seq<byte>) returns (first: int, second: int)
    requires DirectoryOk(entries) && NoNul(filename)
    ensures first != -1 ==> second == first && FirstNamed(entries, filename, first)
    ensures first == -1 ==> second == -1
  {
    second := -1;
    first := ReadDentryByName(entries, filename);
    if first == -1 {
      return;
    }
    second := FileOpen(entries, filename);
    assert |filename| <= FILENAME_LEN;
    forall j | 0 <= j < NUM_DIRENTRIES
      ensures Alike(Terminated(filename), entries[j].filename, FILENAME_LEN) <==> NameOf(entries[j]) == filename
    {
      AlikeIsEqual(filename, entries[j]);
    }
  }
}
