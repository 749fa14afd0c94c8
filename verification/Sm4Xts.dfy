/** XTS mode with ciphertext stealing (sm4_crypt_xts of sm4.c). */
module Sm4Xts {
  import opened Bytes
  import opened Buffers
  import opened CbcMode
  import opened Sm4

  // Tweaks.

  function ShiftUp(here: byte, below: byte): byte { (here << 1) | (below >> 7) }

  function Reduction(top: byte): byte {
    if top >> 7 == 1 then 0x87 else 0
  }

  /** Multiplication by alpha, as xts_multi computes it. */
  function Doubled(b: Block): Block {
    seq(16, i requires 0 <= i < 16 =>
      if i == 0 then Xor8(ShiftUp(b[0], 0), Reduction(b[15])) else ShiftUp(b[i], b[i - 1]))
  }

  function Tweak(t: Block, k: nat): Block {
    if k == 0 then t else Doubled(Tweak(t, k - 1))
  }

  /** Bit k of the little-endian polynomial of section 5.2 of IEEE Std 1619-2007. */
  predicate LeBit(b: Block, k: nat)
    requires k < 128
  {
    BitOf(b[k / 8], k % 8)
  }

  predicate BitOf(x: byte, j: nat)
    requires j < 8
  {
    match j
    case 0 => x & 0x01 != 0 case 1 => x & 0x02 != 0 case 2 => x & 0x04 != 0 case 3 => x & 0x08 != 0
    case 4 => x & 0x10 != 0 case 5 => x & 0x20 != 0 case 6 => x & 0x40 != 0 case 7 => x & 0x80 != 0
  }

  lemma BitsShiftUp(here: byte, below: byte, j: nat)
    requires j < 8
    ensures BitOf(ShiftUp(here, below), j) == if j == 0 then BitOf(below, 7) else BitOf(here, j - 1)
    ensures BitOf(Xor8(ShiftUp(here, 0), Reduction(below)), j)
         == ((j != 0 && BitOf(here, j - 1)) != ((j == 0 || j == 1 || j == 2 || j == 7) && BitOf(below, 7)))
  {
    if j == 0 {} else if j == 1 {} else if j == 2 {} else if j == 3 {}
    else if j == 4 {} else if j == 5 {} else if j == 6 {} else {}
  }

  /** Doubling shifts every coefficient up by one and replaces x^128 by x^7 + x^2 + x + 1. */
  lemma DoubledIsTimesAlpha(b: Block, k: nat)
    requires k < 128
    ensures LeBit(Doubled(b), k)
         == ((k != 0 && LeBit(b, k - 1)) != ((k == 0 || k == 1 || k == 2 || k == 7) && LeBit(b, 127)))
  {
    hide BitOf, ShiftUp, Reduction, Xor8;
    var i, j := k / 8, k % 8;
    if i == 0 {
      BitsShiftUp(b[0], b[15], j);
      assert k == j;
      assert k != 0 ==> (k - 1) / 8 == 0 && (k - 1) % 8 == j - 1;
    } else {
      BitsShiftUp(b[i], b[i - 1], j);
      assert j == 0 ==> (k - 1) / 8 == i - 1 && (k - 1) % 8 == 7;
      assert j != 0 ==> (k - 1) / 8 == i && (k - 1) % 8 == j - 1;
    }
  }

  // Whole messages: sections 5.3 and 5.4 of the standard.

  function XtsBlock(c: BlockFunction, t: Block, b: Block): Block {
    Xor(c(Xor(b, t)), t)
  }

  function XtsBlocks(c: BlockFunction, t: Block, s: seq<byte>): (r: seq<byte>)
    requires |s| % 16 == 0
    ensures |r| == |s|
  {
    if s == [] then []
    else XtsBlocks(c, t, s[..|s| - 16]) + XtsBlock(c, Tweak(t, |s| / 16 - 1), s[|s| - 16..])
  }

  /**
   Ciphertext stealing after the blocks `done`: the full block `mid` is crypted
   first, its head becomes the short block, its tail fills up `tail`.
   */
  function Steal(c: BlockFunction, done: seq<byte>, mid: Block, tail: seq<byte>, t1: Block, t2: Block): (r: seq<byte>)
    requires |tail| <= 16
    ensures |r| == |done| + 16 + |tail|
  {
    var x := XtsBlock(c, t1, mid);
    done + (XtsBlock(c, t2, tail + x[|tail|..]) + x[..|tail|])
  }

  function Xts(c: BlockFunction, mode: Mode, t: Block, s: seq<byte>): (r: seq<byte>)
    requires |s| >= 16
    ensures |r| == |s|
  {
    var m := |s| / 16;
    if |s| % 16 == 0 then XtsBlocks(c, t, s)
    else
      var first, second := Tweak(t, m - 1), Tweak(t, m);
      var done, mid, tail := XtsBlocks(c, t, s[..16 * (m - 1)]), s[16 * (m - 1)..16 * m], s[16 * m..];
      // The two modes use the last two tweaks in opposite order.
      if mode == ENCRYPT then Steal(c, done, mid, tail, first, second) else Steal(c, done, mid, tail, second, first)
  }

  // The output spelled out, block by block.

  /** r is b, xored with the tweak before and after c. */
  predicate IsTweaked(c: BlockFunction, t: Block, b: seq<byte>, r: seq<byte>) {
    |b| == |r| == 16 && r == Xor(c(Xor(b, t)), t)
  }

  /** Block k of r is block k of s under tweak k. */
  ghost predicate BlockTweaked(c: BlockFunction, t: Block, s: seq<byte>, r: seq<byte>, k: nat)
    requires 16 * k + 16 <= |s| == |r|
  {
    IsTweaked(c, Tweak(t, k), s[16 * k..16 * k + 16], r[16 * k..16 * k + 16])
  }

  /** Section 5.3.2 of the standard, and 5.4.2 with the last two tweaks in the other order: x is the stolen block. */
  ghost predicate LastStolen(c: BlockFunction, t1: Block, t2: Block, s: seq<byte>, r: seq<byte>, at: nat, x: Block)
    requires at + 16 < |s| == |r| < at + 32
  {
    var b := |s| - at - 16;
    && IsTweaked(c, t1, s[at..at + 16], x) && IsTweaked(c, t2, s[at + 16..] + x[b..], r[at..at + 16])
    && r[at + 16..] == x[..b]
  }

  ghost predicate EndStolen(c: BlockFunction, t1: Block, t2: Block, s: seq<byte>, r: seq<byte>, at: nat)
    requires at + 16 < |s| == |r| < at + 32
  {
    exists x :: LastStolen(c, t1, t2, s, r, at, x)
  }

  ghost predicate IsXts(c: BlockFunction, mode: Mode, t: Block, s: seq<byte>, r: seq<byte>)
    requires |s| >= 16
  {
    var m := |s| / 16;
    && |r| == |s|
    && (|s| % 16 == 0 ==> forall k :: 0 <= k < m ==> BlockTweaked(c, t, s, r, k))
    && (|s| % 16 != 0 ==>
          && (forall k :: 0 <= k < m - 1 ==> BlockTweaked(c, t, s, r, k))
          && if mode == ENCRYPT then EndStolen(c, Tweak(t, m - 1), Tweak(t, m), s, r, 16 * (m - 1))
             else EndStolen(c, Tweak(t, m), Tweak(t, m - 1), s, r, 16 * (m - 1)))
  }

  lemma {:induction false} BlocksTweaked(c: BlockFunction, t: Block, s: seq<byte>, k: nat)
    requires |s| % 16 == 0 && 16 * k < |s|
    ensures BlockTweaked(c, t, s, XtsBlocks(c, t, s), k)
  {
    hide Xor, Tweak;
    var n := |s| / 16 - 1;
    var front := XtsBlocks(c, t, s[..16 * n]);
    assert s[..|s| - 16] == s[..16 * n] && s[|s| - 16..] == s[16 * n..16 * n + 16];
    if k < n {
      BlocksTweaked(c, t, s[..16 * n], k);
      assert s[..16 * n][16 * k..16 * k + 16] == s[16 * k..16 * k + 16];
      assert XtsBlocks(c, t, s)[16 * k..16 * k + 16] == front[16 * k..16 * k + 16];
    } else {
      assert XtsBlocks(c, t, s)[16 * n..16 * n + 16] == XtsBlock(c, Tweak(t, n), s[16 * n..16 * n + 16]);
    }
  }

  lemma XtsOutput(c: BlockFunction, mode: Mode, t: Block, s: seq<byte>)
    requires |s| >= 16
    ensures IsXts(c, mode, t, s, Xts(c, mode, t, s))
  {
    hide Xor, Tweak, XtsBlocks, BlockTweaked, IsTweaked, Steal, EndStolen;
    var m := |s| / 16;
    var r := Xts(c, mode, t, s);
    if |s| % 16 == 0 {
      forall k | 0 <= k < m ensures BlockTweaked(c, t, s, r, k) {
        BlocksTweaked(c, t, s, k);
      }
    } else {
      var n := 16 * (m - 1);
      var done := XtsBlocks(c, t, s[..n]);
      assert r[..n] == done by { PrefixOfSteal(c, mode, t, s, done); }
      forall k | 0 <= k < m - 1 ensures BlockTweaked(c, t, s, r, k) {
        BlocksTweaked(c, t, s[..n], k);
        SameBlock(c, t, s[..n], done, s, r, k);
      }
      var low, high := Tweak(t, m - 1), Tweak(t, m);
      StolenIs(c, done, s, if mode == ENCRYPT then low else high, if mode == ENCRYPT then high else low);
    }
  }

  lemma PrefixOfSteal(c: BlockFunction, mode: Mode, t: Block, s: seq<byte>, done: seq<byte>)
    requires |s| >= 16 && |s| % 16 != 0 && done == XtsBlocks(c, t, s[..|s| / 16 * 16 - 16])
    ensures Xts(c, mode, t, s)[..|done|] == done
  {
    hide XtsBlock, XtsBlocks, Tweak;
  }

  lemma SameBlock(c: BlockFunction, t: Block, s: seq<byte>, r: seq<byte>, s': seq<byte>, r': seq<byte>, k: nat)
    requires 16 * k + 16 <= |s| == |r| && s <= s' && r <= r' && |s'| == |r'| && BlockTweaked(c, t, s, r, k)
    ensures BlockTweaked(c, t, s', r', k)
  {
    hide IsTweaked, Tweak;
    assert s'[16 * k..16 * k + 16] == s[16 * k..16 * k + 16] && r'[16 * k..16 * k + 16] == r[16 * k..16 * k + 16];
  }

  lemma StolenIs(c: BlockFunction, done: seq<byte>, s: seq<byte>, t1: Block, t2: Block)
    requires |done| + 16 < |s| < |done| + 32
    ensures
      var n := |done|;
      EndStolen(c, t1, t2, s, Steal(c, done, s[n..n + 16], s[n + 16..], t1, t2), n)
  {
    hide Xor;
    var n, b := |done|, |s| - |done| - 16;
    var x := XtsBlock(c, t1, s[n..n + 16]);
    var y := XtsBlock(c, t2, s[n + 16..] + x[b..]);
    var r := Steal(c, done, s[n..n + 16], s[n + 16..], t1, t2);
    Slices(done, y, x[..b]);
    assert LastStolen(c, t1, t2, s, r, n, x);
  }

  lemma Slices(a: seq<byte>, y: Block, z: seq<byte>)
    ensures (a + (y + z))[|a|..|a| + 16] == y && (a + (y + z))[|a| + 16..] == z && (a + (y + z))[..|a|] == a
  {
  }

  lemma XtsBlockInverts(d: BlockFunction, e: BlockFunction, t: Block, b: Block)
    requires Inverse(d, e)
    ensures XtsBlock(d, t, XtsBlock(e, t, b)) == b
  {
    hide Xor;
    XorCancels(e(Xor(b, t)), t);
    XorCancels(b, t);
  }

  lemma XtsBlocksOne(c: BlockFunction, t: Block, a: seq<byte>, b: Block)
    requires |a| % 16 == 0
    ensures |a + b| % 16 == 0 && XtsBlocks(c, t, a + b) == XtsBlocks(c, t, a) + XtsBlock(c, Tweak(t, |a| / 16), b)
  {
    hide XtsBlock, Tweak;
    assert (a + b)[..|a + b| - 16] == a && (a + b)[|a + b| - 16..] == b;
    assert |a + b| / 16 - 1 == |a| / 16;
  }

  lemma {:induction false} XtsBlocksInvert(d: BlockFunction, e: BlockFunction, t: Block, p: seq<byte>)
    requires Inverse(d, e) && |p| % 16 == 0
    ensures XtsBlocks(d, t, XtsBlocks(e, t, p)) == p
  {
    hide XtsBlock, Tweak, Inverse;
    if p != [] {
      var p', last := p[..|p| - 16], p[|p| - 16..];
      XtsBlocksInvert(d, e, t, p');
      XtsBlocksOne(d, t, XtsBlocks(e, t, p'), XtsBlock(e, Tweak(t, |p'| / 16), last));
      XtsBlockInverts(d, e, Tweak(t, |p'| / 16), last);
      assert p == p' + last;
    }
  }

  /** Stealing with the tweaks exchanged undoes stealing. */
  lemma StealInverts(d: BlockFunction, e: BlockFunction, done: seq<byte>, mid: Block, tail: seq<byte>,
                     t1: Block, t2: Block)
    requires Inverse(d, e) && |tail| <= 16
    ensures
      var r, n := Steal(e, done, mid, tail, t1, t2), |done|;
      && r[..n] == done
      && Steal(d, [], r[n..n + 16], r[n + 16..], t2, t1) == mid + tail
  {
    hide XtsBlock, Inverse;
    var b, n := |tail|, |done|;
    var x := XtsBlock(e, t1, mid);
    var y := XtsBlock(e, t2, tail + x[b..]);
    var r := Steal(e, done, mid, tail, t1, t2);
    assert r[n..n + 16] == y && r[n + 16..] == x[..b];
    XtsBlockInverts(d, e, t2, tail + x[b..]);
    assert x[..b] + (tail + x[b..])[b..] == x && (tail + x[b..])[..b] == tail;
    XtsBlockInverts(d, e, t1, mid);
  }

  lemma StealPrefix(c: BlockFunction, a: seq<byte>, done: seq<byte>, mid: Block, tail: seq<byte>, t1: Block, t2: Block)
    requires |tail| <= 16
    ensures Steal(c, a + done, mid, tail, t1, t2) == a + Steal(c, done, mid, tail, t1, t2)
  {
    hide XtsBlock;
    var x := XtsBlock(c, t1, mid);
    var y := XtsBlock(c, t2, tail + x[|tail|..]) + x[..|tail|];
    assert (a + done) + y == a + (done + y);
  }

  /** Decryption undoes encryption for every length from 16 bytes on. */
  lemma XtsRoundTrip(d: BlockFunction, e: BlockFunction, t: Block, p: seq<byte>)
    requires Inverse(d, e) && |p| >= 16
    ensures Xts(d, DECRYPT, t, Xts(e, ENCRYPT, t, p)) == p
  {
    hide Steal, Tweak, XtsBlocks, Inverse;
    var m := |p| / 16;
    if |p| % 16 == 0 {
      XtsBlocksInvert(d, e, t, p);
    } else {
      var n := 16 * (m - 1);
      var full, mid, tail := p[..n], p[n..n + 16], p[n + 16..];
      var done := XtsBlocks(e, t, full);
      var r := Xts(e, ENCRYPT, t, p);
      StealInverts(d, e, done, mid, tail, Tweak(t, m - 1), Tweak(t, m));
      XtsBlocksInvert(d, e, t, full);
      assert r[..n] == done && full + [] == full;
      StealPrefix(d, full, [], r[n..n + 16], r[n + 16..], Tweak(t, m), Tweak(t, m - 1));
      assert full + (mid + tail) == p;
    }
  }

  // Resumption.

  lemma {:induction false} TweakAdds(t: Block, j: nat, k: nat)
    ensures Tweak(Tweak(t, j), k) == Tweak(t, j + k)
  {
    hide Doubled;
    if k > 0 {
      TweakAdds(t, j, k - 1);
    }
  }

  lemma XtsBlocksNothing(c: BlockFunction, t: Block)
    ensures XtsBlocks(c, t, []) == []
  {
  }

  lemma {:induction false} XtsBlocksConcat(c: BlockFunction, t: Block, a: seq<byte>, b: seq<byte>)
    requires |a| % 16 == 0 && |b| % 16 == 0
    ensures XtsBlocks(c, t, a + b) == XtsBlocks(c, t, a) + XtsBlocks(c, Tweak(t, |a| / 16), b)
  {
    hide XtsBlock, XtsBlocks, Tweak;
    if b == [] {
      XtsBlocksNothing(c, Tweak(t, |a| / 16));
      assert a + b == a;
    } else {
      var b', last := b[..|b| - 16], b[|b| - 16..];
      XtsBlocksConcat(c, t, a, b');
      assert a + b == (a + b') + last && b == b' + last;
      XtsBlocksOne(c, t, a + b', last);
      XtsBlocksOne(c, Tweak(t, |a| / 16), b', last);
      BlockCounts(|a|, |b'|);
      TweakAdds(t, |a| / 16, |b'| / 16);
    }
  }

  /** A block-multiple first part leaves the rest to be processed under the advanced tweak. */
  lemma XtsResumes(c: BlockFunction, mode: Mode, t: Block, a: seq<byte>, b: seq<byte>)
    requires |a| % 16 == 0 && |b| >= 16
    ensures Xts(c, mode, t, a + b) == XtsBlocks(c, t, a) + Xts(c, mode, Tweak(t, |a| / 16), b)
  {
    hide Steal, Tweak, XtsBlocks;
    assert |a + b| / 16 == |a| / 16 + |b| / 16 && |a + b| % 16 == |b| % 16;
    if |b| % 16 == 0 {
      XtsBlocksConcat(c, t, a, b);
    } else {
      StealResumes(c, mode, t, a, b);
    }
  }

  /** The tweak of the first of the last two blocks to be ciphered, and that of the second one. */
  function FirstTweak(mode: Mode, t: Block, q: nat): Block {
    if mode == ENCRYPT then Tweak(t, q) else Tweak(t, q + 1)
  }

  function SecondTweak(mode: Mode, t: Block, q: nat): Block {
    if mode == ENCRYPT then Tweak(t, q + 1) else Tweak(t, q)
  }

  lemma XtsOfParts(c: BlockFunction, mode: Mode, t: Block, d: seq<byte>, mid: Block, tail: seq<byte>)
    requires |d| % 16 == 0 && 0 < |tail| < 16
    ensures Xts(c, mode, t, d + mid + tail)
         == Steal(c, XtsBlocks(c, t, d), mid, tail, FirstTweak(mode, t, |d| / 16), SecondTweak(mode, t, |d| / 16))
  {
    hide Steal, Tweak, XtsBlocks;
    var s, q := d + mid + tail, |d| / 16;
    assert |s| / 16 == q + 1 && |s| % 16 == |tail|;
    assert s[..16 * q] == d && s[16 * q..16 * (q + 1)] == mid && s[16 * (q + 1)..] == tail;
  }

  lemma StealResumes(c: BlockFunction, mode: Mode, t: Block, a: seq<byte>, b: seq<byte>)
    requires |a| % 16 == 0 && |b| >= 16 && |b| % 16 != 0
    ensures Xts(c, mode, t, a + b) == XtsBlocks(c, t, a) + Xts(c, mode, Tweak(t, |a| / 16), b)
  {
    hide Steal, Tweak, XtsBlocks, Xts;
    var n := 16 * (|b| / 16 - 1);
    var d, mid, tail := b[..n], b[n..n + 16], b[n + 16..];
    assert b == d + mid + tail && a + b == (a + d) + mid + tail;
    XtsOfParts(c, mode, Tweak(t, |a| / 16), d, mid, tail);
    XtsOfParts(c, mode, t, a + d, mid, tail);
    XtsBlocksConcat(c, t, a, d);
    TweakAdds(t, |a| / 16, |d| / 16);
    TweakAdds(t, |a| / 16, |d| / 16 + 1);
    StealPrefix(c, XtsBlocks(c, t, a), XtsBlocks(c, Tweak(t, |a| / 16), d), mid, tail,
                FirstTweak(mode, t, |a + d| / 16), SecondTweak(mode, t, |a + d| / 16));
  }

  // The code.

  function TopBit(x: byte): byte { x >> 7 }

  lemma ShiftUpBits(here: byte, below: byte)
    ensures (here << 1) | TopBit(below) == ShiftUp(here, below) && (here << 1) | 0 == ShiftUp(here, 0)
    ensures 0x87 & (0 - TopBit(here)) == Reduction(here)
  {
  }

  /** xts_multi; the two buffers may be the same. */
  method XtsMulti(src: array<byte>, out: array<byte>)
    requires src.Length == out.Length == 16
    modifies out
    ensures out[..] == Doubled(old(src[..]))
  {
    hide ShiftUp, Reduction, Xor8;
    ghost var b: Block := src[..];
    var tt, t: byte := 0, 0;
    for i := 0 to 16
      invariant forall j :: i <= j < 16 ==> src[j] == b[j]
      invariant forall j :: 0 < j < i ==> out[j] == ShiftUp(b[j], b[j - 1])
      invariant i > 0 ==> out[0] == ShiftUp(b[0], 0)
      invariant t == if i == 0 then 0 else TopBit(b[i - 1])
      invariant i > 0 ==> tt == t
    {
      out[i], t, tt := ShiftWith(src[i], t, if i == 0 then 0 else b[i - 1]);
    }
    out[0] := Reduce(out[0], tt, b[15]);
  }

  method ShiftWith(x: byte, t: byte, ghost below: byte) returns (y: byte, t': byte, tt: byte)
    requires t == TopBit(below)
    ensures y == ShiftUp(x, below) && t' == tt == TopBit(x)
  {
    hide TopBit, ShiftUp;
    ShiftUpBits(x, below);
    tt := TopBit(x);
    y := (x << 1) | t;
    t' := tt;
  }

  method Reduce(x: byte, tt: byte, ghost top: byte) returns (y: byte)
    requires tt == TopBit(top)
    ensures y == Xor8(x, Reduction(top))
  {
    hide TopBit, Reduction;
    ShiftUpBits(top, 0);
    y := x ^ (0x87 & (0 - tt));
  }

  /** xor_128, sm4_one_round, xor_128 */
  method CryptBlock(ctx: Context, t: Block, b: Block) returns (x: Block)
    requires ctx.sk.Length == 32
    ensures x == XtsBlock(ctx.Crypt(), t, b)
  {
    hide Xor, Context.Crypt, IsCipherOf;
    x := ctx.OneRound(Xor(b, t));
    x := Xor(x, t);
  }

  /** The end of both modes: exchange the short block with the head of ct, then crypt ct. */
  method FinishSteal(ctx: Context, t: Block, ct: array<byte>, tail: seq<byte>, output: array<byte>, at: nat)
    requires ctx.sk.Length == 32 && ct.Length == 16 && ct != output
    requires 0 < |tail| < 16 && at + 16 + |tail| <= output.Length
    modifies ct, output
    ensures
      var x := old(ct[..]);
      output[..] == Splice(old(output[..]), at, XtsBlock(ctx.Crypt(), t, tail + x[|tail|..]) + x[..|tail|])
  {
    hide Context.Crypt, XtsBlock, Splice;
    ghost var out0, x := output[..], ct[..];
    Exchange(ct, tail, output, at + 16);
    var y := CryptBlock(ctx, t, ct[..]);
    Memcpy(output, at, y);
    SpliceBefore(out0, at, y, x[..|tail|]);
  }

  /** The byte loop: the head of ct goes out, the short input block comes in. */
  method Exchange(ct: array<byte>, tail: seq<byte>, output: array<byte>, at: nat)
    requires ct.Length == 16 && ct != output && |tail| < 16 && at + |tail| <= output.Length
    modifies ct, output
    ensures output[..] == Splice(old(output[..]), at, old(ct[..|tail|]))
    ensures ct[..] == tail + old(ct[|tail|..])
  {
    for i := 0 to |tail|
      invariant forall j :: 0 <= j < output.Length ==>
        output[j] == if at <= j < at + i then old(ct[j - at]) else old(output[j])
      invariant forall j :: 0 <= j < 16 ==> ct[j] == if j < i then tail[j] else old(ct[j])
    {
      output[at + i] := ct[i];
      ct[i] := tail[i];
    }
    assert old(ct[..|tail|]) == output[at..at + |tail|];
  }

  lemma SpliceBefore(s: seq<byte>, at: nat, y: seq<byte>, z: seq<byte>)
    requires at + |y| + |z| <= |s|
    ensures Splice(Splice(s, at + |y|, z), at, y) == Splice(s, at, y + z)
  {
  }

  lemma TweakStart(c: BlockFunction, t: Block)
    ensures Tweak(t, 0) == t && XtsBlocks(c, t, []) == []
  {
  }

  lemma XtsWhole(c: BlockFunction, mode: Mode, t: Block, s: seq<byte>)
    requires |s| >= 16 && |s| % 16 == 0
    ensures Xts(c, mode, t, s) == XtsBlocks(c, t, s)
  {
  }

  /** The output buffer once the first k blocks are done. */
  ghost function Progress(c: BlockFunction, t: Block, input: seq<byte>, k: nat, out0: seq<byte>, off: nat): seq<byte>
    requires 16 * k <= |input| && off + |input| <= |out0|
  {
    var done := XtsBlocks(c, t, input[..16 * k]);
    Splice(out0, off, done)
  }

  lemma TweakNext(t: Block, k: nat)
    requires k > 0
    ensures Tweak(t, k) == Doubled(Tweak(t, k - 1))
  {
  }

  /** The stealing step of sm4_crypt_xts, after the loop over full blocks has stopped at pos. */
  method StealLast(ctx: Context, ghost t0: Block, tweak: array<byte>, input: seq<byte>, pos: nat,
                   output: array<byte>, off: nat, ghost out0: seq<byte>)
    requires ctx.sk.Length == 32 && tweak.Length == 16 && tweak != output
    requires |input| >= 16 && |input| % 16 != 0 && off + |input| <= output.Length == |out0|
    requires pos == if ctx.mode == ENCRYPT then |input| / 16 * 16 else |input| / 16 * 16 - 16
    requires tweak[..] == Tweak(t0, pos / 16) && output[..] == Progress(ctx.Crypt(), t0, input, pos / 16, out0, off)
    modifies output
    ensures output[..] == Splice(out0, off, Xts(ctx.Crypt(), ctx.mode, t0, input))
  {
    hide Splice, Context.Crypt, XtsBlock, XtsBlocks, Tweak, Doubled;
    ghost var c, m := ctx.Crypt(), |input| / 16;
    ghost var n := 16 * (m - 1);
    var ct := new byte[16];
    ghost var done := XtsBlocks(c, t0, input[..n]);
    if ctx.mode == ENCRYPT {
      ghost var mid := input[n..n + 16];
      assert input[..n] + mid == input[..pos];
      XtsBlocksOne(c, t0, input[..n], mid);
      ghost var x := XtsBlock(c, Tweak(t0, m - 1), mid);
      SpliceRead(out0, off, done, x);
      Memcpy(ct, 0, output[off + pos - 16..off + pos]);
      var tail := input[pos..];
      ghost var y := XtsBlock(c, tweak[..], tail + x[|tail|..]) + x[..|tail|];
      FinishSteal(ctx, tweak[..], ct, tail, output, off + pos - 16);
      SpliceOver(out0, off, done, x, y);
    } else {
      var tweak1 := new byte[16];
      XtsMulti(tweak, tweak1);
      TweakNext(t0, m);
      var x := CryptBlock(ctx, tweak1[..], input[pos..pos + 16]);
      Memcpy(ct, 0, x);
      var tail := input[pos + 16..];
      ghost var y := XtsBlock(c, tweak[..], tail + x[|tail|..]) + x[..|tail|];
      FinishSteal(ctx, tweak[..], ct, tail, output, off + pos);
      SpliceTwice(out0, off, done, y);
    }
  }

  /** The buffer holds the output from off on. */
  ghost predicate HoldsXts(c: BlockFunction, mode: Mode, t: Block, s: seq<byte>, buffer: seq<byte>, off: nat)
    requires |s| >= 16 && off + |s| <= |buffer|
  {
    IsXts(c, mode, t, s, buffer[off..off + |s|])
  }

  /** Nothing is done at the start, and everything once all blocks of a whole number are. */
  lemma ProgressEnds(c: BlockFunction, mode: Mode, t: Block, input: seq<byte>, out0: seq<byte>, off: nat)
    requires |input| >= 16 && off + |input| <= |out0|
    ensures Tweak(t, 0) == t && Progress(c, t, input, 0, out0, off) == out0
    ensures |input| % 16 == 0 ==>
      Progress(c, t, input, |input| / 16, out0, off) == Splice(out0, off, Xts(c, mode, t, input))
  {
    hide Splice, XtsBlocks;
    TweakStart(c, t);
    SpliceNothing(out0, off);
    assert input[..0] == [];
    if |input| % 16 == 0 {
      assert input[..16 * (|input| / 16)] == input;
    }
  }

  lemma XtsWritten(c: BlockFunction, mode: Mode, t: Block, s: seq<byte>, out0: seq<byte>, off: nat)
    requires |s| >= 16 && off + |s| <= |out0|
    ensures HoldsXts(c, mode, t, s, Splice(out0, off, Xts(c, mode, t, s)), off)
  {
    hide IsXts, Xts, Splice;
    SpliceAt(out0, off, Xts(c, mode, t, s));
    XtsOutput(c, mode, t, s);
  }

  lemma SpliceRead(s: seq<byte>, off: nat, a: seq<byte>, x: seq<byte>)
    requires off + |a| + |x| <= |s|
    ensures Splice(s, off, a + x)[off + |a|..off + |a| + |x|] == x
  {
  }

  /** One round of the loop over full blocks. */
  method OneBlock(ctx: Context, ghost c: BlockFunction, ghost t0: Block,
                  tweak: array<byte>, input: seq<byte>, ghost k: nat, pos: nat,
                  output: array<byte>, off: nat, ghost out0: seq<byte>)
    requires ctx.sk.Length == 32 && tweak.Length == 16 && tweak != output && c == ctx.Crypt()
    requires pos == 16 * k && pos + 16 <= |input| && off + |input| <= output.Length == |out0|
    requires tweak[..] == Tweak(t0, k) && output[..] == Progress(c, t0, input, k, out0, off)
    modifies tweak, output
    ensures tweak[..] == Tweak(t0, k + 1) && output[..] == Progress(c, t0, input, k + 1, out0, off)
  {
    hide Splice, Context.Crypt, XtsBlock, XtsBlocks, Tweak, Doubled;
    var block: Block := input[pos..pos + 16];
    var x := CryptBlock(ctx, tweak[..], block);
    assert input[..16 * k] + block == input[..16 * (k + 1)];
    XtsBlocksOne(c, t0, input[..16 * k], block);
    SpliceTwice(out0, off, XtsBlocks(c, t0, input[..16 * k]), x);
    Memcpy(output, off + pos, x);
    XtsMulti(tweak, tweak);
    TweakNext(t0, k + 1);
  }

  /** sm4_crypt_xts */
  method CryptXts(ctx: Context, ctx_ek: Context, ctx_dk: Context, iv: array<byte>, input: seq<byte>,
                  output: array<byte>, off: nat)
    requires ctx.sk.Length == ctx_ek.sk.Length == ctx_dk.sk.Length == 32 && iv.Length == 16 && iv != output
    requires |input| >= 16 && off + |input| <= output.Length
    modifies iv, output
    ensures output[..] == Splice(old(output[..]), off, Xts(ctx.Crypt(), ctx.mode, ctx_ek.Crypt()(old(iv[..])), input))
    ensures HoldsXts(ctx.Crypt(), ctx.mode, ctx_ek.Crypt()(old(iv[..])), input, output[..], off)
    ensures
      var t := ctx_ek.Crypt()(old(iv[..]));
      iv[..] == if |input| % 16 == 0 then ctx_dk.Crypt()(Tweak(t, |input| / 16)) else old(iv[..])
  {
    hide Splice, Context.Crypt, Xts, XtsBlock, XtsBlocks, Tweak, Doubled, IsCipherOf, HoldsXts, Progress;
    ghost var c, out0, total := ctx.Crypt(), output[..], |input|;
    var tweak := new byte[16];
    var t0 := ctx_ek.OneRound(iv[..]);
    XtsWritten(c, ctx.mode, t0, input, out0, off);
    Memcpy(tweak, 0, t0);
    ProgressEnds(c, ctx.mode, t0, input, out0, off);
    var len, pos := |input|, 0;
    if ctx.mode == DECRYPT && len % 16 != 0 {
      len := len - 16;
    }
    ghost var end := len;
    while len >= 16
      invariant 0 <= pos <= total && pos % 16 == 0 && pos + len == end && len > 0
      invariant tweak[..] == Tweak(t0, pos / 16) && iv[..] == old(iv[..])
      invariant output[..] == Progress(c, t0, input, pos / 16, out0, off)
    {
      OneBlock(ctx, c, t0, tweak, input, pos / 16, pos, output, off, out0);
      len := len - 16;
      if len == 0 {
        var next := ctx_dk.OneRound(tweak[..]);
        Memcpy(iv, 0, next);
        return;
      }
      pos := pos + 16;
    }
    StealLast(ctx, t0, tweak, input, pos, output, off, out0);
  }
}
