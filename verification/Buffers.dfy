/** memcpy, memset and xor_buf on fixed-size buffers. */
module Buffers {
  import opened Bytes

  /** s with the bytes from off on overwritten by t. */
  function Splice(s: seq<byte>, off: nat, t: seq<byte>): (r: seq<byte>)
    requires off + |t| <= |s|
    ensures |r| == |s|
  {
    s[..off] + t + s[off + |t|..]
  }

  /** Byte by byte: t from off on, s elsewhere. */
  lemma SpliceAt(s: seq<byte>, off: nat, t: seq<byte>)
    requires off + |t| <= |s|
    ensures Splice(s, off, t)[off..off + |t|] == t
    ensures forall i :: 0 <= i < |s| ==> Splice(s, off, t)[i] == if off <= i < off + |t| then t[i - off] else s[i]
  {
  }

  lemma SpliceTwice(s: seq<byte>, off: nat, a: seq<byte>, b: seq<byte>)
    requires off + |a| + |b| <= |s|
    ensures Splice(Splice(s, off, a), off + |a|, b) == Splice(s, off, a + b)
  {
  }

  /** Writing again over the end of what was written. */
  lemma SpliceOver(s: seq<byte>, off: nat, a: seq<byte>, z: seq<byte>, y: seq<byte>)
    requires |z| <= |y| && off + |a| + |y| <= |s|
    ensures Splice(Splice(s, off, a + z), off + |a|, y) == Splice(s, off, a + y)
  {
  }

  lemma SpliceNothing(s: seq<byte>, off: nat)
    requires off <= |s|
    ensures Splice(s, off, []) == s
  {
  }

  lemma SpliceAll(t: seq<byte>)
    ensures forall s: seq<byte> :: |s| == |t| ==> Splice(s, 0, t) == t
  {
  }

  method Memcpy(dst: array<byte>, off: nat, src: seq<byte>)
    requires off + |src| <= dst.Length
    modifies dst
    ensures dst[..] == Splice(old(dst[..]), off, src)
    ensures |src| == dst.Length ==> dst[..] == src
  {
    for n := 0 to |src|
      invariant dst[..off] == old(dst[..off])
      invariant dst[off..off + n] == src[..n]
      invariant dst[off + n..] == old(dst[off + n..])
    {
      dst[off + n] := src[n];
    }
  }

  method Memset(dst: array<byte>, off: nat, value: byte, len: nat)
    requires off + len <= dst.Length
    modifies dst
    ensures dst[..] == Splice(old(dst[..]), off, seq(len, _ => value))
    ensures len == dst.Length ==> dst[..] == seq(len, _ => value)
  {
    Memcpy(dst, off, seq(len, _ => value));
  }

  /** dst[off..] ^= src, byte by byte */
  method XorBuf(dst: array<byte>, off: nat, src: seq<byte>)
    requires off + |src| <= dst.Length
    modifies dst
    ensures dst[..] == Splice(old(dst[..]), off, Xor(old(dst[off..off + |src|]), src))
    ensures |src| == dst.Length ==> dst[..] == Xor(old(dst[..]), src)
  {
    hide Xor8;
    for n := 0 to |src|
      invariant dst[..off] == old(dst[..off])
      invariant dst[off..off + n] == Xor(old(dst[off..off + n]), src[..n])
      invariant dst[off + n..] == old(dst[off + n..])
    {
      dst[off + n] := Xor8(dst[off + n], src[n]);
    }
    assert old(dst[off..off + |src|]) == old(dst[..])[off..off + |src|];
  }
}
