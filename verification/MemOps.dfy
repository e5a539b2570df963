/**
 The word-at-a-time memory routines on one flat byte memory: they align byte by byte, move 32-bit words,
 and finish byte by byte; memmove picks a direction. Each has the effect of its byte-by-byte definition.
 */
module MemOps {
  import opened Bytes

  /** n bytes from dst on replaced by bs. */
  function Overwrite(mem: seq<byte>, dst: nat, bs: seq<byte>): (r: seq<byte>)
    requires dst + |bs| <= |mem|
    ensures |r| == |mem|
    ensures forall i :: 0 <= i < |mem| ==> r[i] == if dst <= i < dst + |bs| then bs[i - dst] else mem[i]
  {
    mem[..dst] + bs + mem[dst + |bs|..]
  }

  lemma OverwriteSlice(mem: seq<byte>, dst: nat, bs: seq<byte>, a: nat, n: nat)
    requires dst + |bs| <= |mem| && a + n <= |mem|
    ensures a == dst && n == |bs| ==> Overwrite(mem, dst, bs)[a..a + n] == bs
    ensures a + n <= dst || dst + |bs| <= a ==> Overwrite(mem, dst, bs)[a..a + n] == mem[a..a + n]
  {
  }

  lemma OverwriteTwice(mem: seq<byte>, dst: nat, a: seq<byte>, b: seq<byte>)
    requires dst + |a| <= |mem| && |a| == |b|
    ensures Overwrite(Overwrite(mem, dst, a), dst, b) == Overwrite(mem, dst, b)
  {
  }

  lemma OverwriteSelf(mem: seq<byte>, dst: nat, n: nat)
    requires dst + n <= |mem|
    ensures Overwrite(mem, dst, mem[dst..dst + n]) == mem
  {
  }

  lemma OverwritePoint(mem: seq<byte>, dst: nat, a: seq<byte>, i: nat, b: byte)
    requires dst + |a| <= |mem| && i < |a|
    ensures Overwrite(mem, dst, a)[dst + i := b] == Overwrite(mem, dst, a[i := b])
  {
  }

  function Fill(b: byte, n: nat): (r: seq<byte>)
    ensures |r| == n && forall i :: 0 <= i < n ==> r[i] == b
  {
    seq(n, _ => b)
  }

  /** stosl of a word whose four bytes are all b. */
  method StoreDword(mem: array<byte>, at: nat, b: byte)
    requires at + 4 <= mem.Length
    modifies mem
    ensures mem[..] == Overwrite(old(mem[..]), at, [b, b, b, b])
  {
    mem[at], mem[at + 1], mem[at + 2], mem[at + 3] := b, b, b, b;
  }

  /** memset: `base` is the address of mem[0], which decides the alignment. */
  method Memset(mem: array<byte>, base: nat, s: nat, c: int, n: nat)
    requires s + n <= mem.Length
    modifies mem
    ensures mem[..] == Overwrite(old(mem[..]), s, Fill(c % 0x100, n))
  {
    var al: byte := c % 0x100;
    var edi: nat, ecx: nat := s, n;
    // until the address is a multiple of 4
    while ecx != 0 && (base + edi) % 4 != 0
      invariant s <= edi && edi + ecx == s + n
      invariant forall i :: 0 <= i < mem.Length ==> mem[i] == if s <= i < edi then al else old(mem[i])
      decreases ecx
    {
      mem[edi] := al;
      edi := edi + 1;
      ecx := ecx - 1;
    }
    if ecx == 0 {
      return;
    }
    var edx: nat := ecx % 4;
    ecx := ecx / 4;
    while ecx != 0
      invariant s <= edi && edi + 4 * ecx + edx == s + n
      invariant forall i :: 0 <= i < mem.Length ==> mem[i] == if s <= i < edi then al else old(mem[i])
      decreases ecx
    {
      ghost var before := mem[..];
      StoreDword(mem, edi, al);
      assert forall i :: 0 <= i < mem.Length ==> mem[..][i] == mem[i] && before[i] == if s <= i < edi then al else old(mem[i]);
      edi := edi + 4;
      ecx := ecx - 1;
    }
    while edx != 0
      invariant s <= edi && edi + edx == s + n
      invariant forall i :: 0 <= i < mem.Length ==> mem[i] == if s <= i < edi then al else old(mem[i])
      decreases edx
    {
      mem[edi] := al;
      edi := edi + 1;
      edx := edx - 1;
    }
  }

  /** memcpy: on regions that do not overlap, or with the destination below the source. */
  method Memcpy(mem: array<byte>, base: nat, dst: nat, src: nat, n: nat)
    requires dst + n <= mem.Length && src + n <= mem.Length
    requires dst + n <= src || src + n <= dst || dst <= src
    modifies mem
    ensures mem[..] == Overwrite(old(mem[..]), dst, old(mem[..])[src..src + n])
  {
    var k: nat, ecx: nat := 0, n;
    while ecx != 0 && (base + dst + k) % 4 != 0
      invariant k <= n && k + ecx == n
      invariant Copied(old(mem[..]), mem[..], dst, src, k)
      decreases ecx
    {
      CopyByte(old(mem[..]), mem[..], dst, src, k, n);
      mem[dst + k] := mem[src + k];
      k := k + 1;
      ecx := ecx - 1;
    }
    if ecx == 0 {
      CopiedAll(old(mem[..]), mem[..], dst, src, n);
      return;
    }
    var edx: nat := ecx % 4;
    ecx := ecx / 4;
    while ecx != 0
      invariant k <= n && k + 4 * ecx + edx == n
      invariant Copied(old(mem[..]), mem[..], dst, src, k)
      decreases ecx
    {
      // movsl reads a whole word before it writes one
      CopyWord(old(mem[..]), mem[..], dst, src, k, n);
      var b0, b1, b2, b3 := mem[src + k], mem[src + k + 1], mem[src + k + 2], mem[src + k + 3];
      mem[dst + k], mem[dst + k + 1], mem[dst + k + 2], mem[dst + k + 3] := b0, b1, b2, b3;
      k := k + 4;
      ecx := ecx - 1;
    }
    while edx != 0
      invariant k <= n && k + edx == n
      invariant Copied(old(mem[..]), mem[..], dst, src, k)
      decreases edx
    {
      CopyByte(old(mem[..]), mem[..], dst, src, k, n);
      mem[dst + k] := mem[src + k];
      k := k + 1;
      edx := edx - 1;
    }
    CopiedAll(old(mem[..]), mem[..], dst, src, n);
  }

  /** The first k bytes have been copied, nothing else has changed. */
  ghost predicate Copied(before: seq<byte>, after: seq<byte>, dst: nat, src: nat, k: nat)
    requires |before| == |after| && src + k <= |before|
  {
    forall i {:trigger after[i]} :: 0 <= i < |after| ==> after[i] == if dst <= i < dst + k then before[src + (i - dst)] else before[i]
  }

  /** The byte about to be read has not been overwritten. */
  lemma CopyByte(before: seq<byte>, now: seq<byte>, dst: nat, src: nat, k: nat, n: nat)
    requires |before| == |now| && k < n && src + n <= |before| && dst + n <= |before|
    requires dst + n <= src || src + n <= dst || dst <= src
    requires Copied(before, now, dst, src, k)
    ensures now[src + k] == before[src + k]
    ensures Copied(before, now[dst + k := now[src + k]], dst, src, k + 1)
  {
    assert !(dst <= src + k < dst + k);
  }

  lemma CopyWord(before: seq<byte>, now: seq<byte>, dst: nat, src: nat, k: nat, n: nat)
    requires |before| == |now| && k + 4 <= n && src + n <= |before| && dst + n <= |before|
    requires dst + n <= src || src + n <= dst || dst <= src
    requires Copied(before, now, dst, src, k)
    ensures Copied(before, now[dst + k := now[src + k]][dst + k + 1 := now[src + k + 1]]
                              [dst + k + 2 := now[src + k + 2]][dst + k + 3 := now[src + k + 3]], dst, src, k + 4)
  {
    assert now[src + k] == before[src + k] && now[src + k + 1] == before[src + k + 1];
    assert now[src + k + 2] == before[src + k + 2] && now[src + k + 3] == before[src + k + 3];
  }

  lemma CopiedAll(before: seq<byte>, after: seq<byte>, dst: nat, src: nat, n: nat)
    requires |before| == |after| && src + n <= |before| && dst + n <= |before| && Copied(before, after, dst, src, n)
    ensures after == Overwrite(before, dst, before[src..src + n])
  {
  }

  /** memmove: any overlap. */
  method Memmove(mem: array<byte>, dst: nat, src: nat, n: nat)
    requires dst + n <= mem.Length && src + n <= mem.Length
    modifies mem
    ensures mem[..] == Overwrite(old(mem[..]), dst, old(mem[..])[src..src + n])
  {
    var ecx: nat := n;
    if src >= dst {
      var k: nat := 0;
      while ecx != 0
        invariant k <= n && k + ecx == n
        invariant Copied(old(mem[..]), mem[..], dst, src, k)
        decreases ecx
      {
        CopyByte(old(mem[..]), mem[..], dst, src, k, n);
        mem[dst + k] := mem[src + k];
        k := k + 1;
        ecx := ecx - 1;
      }
      CopiedAll(old(mem[..]), mem[..], dst, src, n);
    } else {
      // from the last byte down, with the direction flag set
      while ecx != 0
        invariant ecx <= n
        invariant forall i :: 0 <= i < mem.Length ==>
          mem[i] == if dst + ecx <= i < dst + n then old(mem[src + (i - dst)]) else old(mem[i])
        decreases ecx
      {
        mem[dst + (ecx - 1)] := mem[src + (ecx - 1)];
        ecx := ecx - 1;
      }
    }
  }
}
