/** NIST SP 800-38D as written, and where the source agrees with it. */
module GcmStandard {
  import opened Arith
  import opened Bytes
  import opened CounterMode
  import opened GaloisField
  import opened GcmSpec

  /** GCTR of section 6.5, block by block with inc32. */
  function Gctr32(E: Cipher, icb: Block, x: seq<byte>): seq<byte>
    decreases |x|
  {
    if x == [] then []
    else if |x| <= 16 then Xor(x, E(icb)[..|x|])
    else Xor(x[..16], E(icb)) + Gctr32(E, Inc32(icb), x[16..])
  }

  /** A 64-bit length in bits. */
  function Len64(bytes: nat): (f: seq<byte>)
    ensures |f| == 8
  {
    ToBe(8 * bytes, 8)
  }

  function Ghash(h: Block, s: seq<byte>): Block
    requires |s| % 16 == 0
  {
    GhashFrom(h, Zeros(16), s)
  }

  /** The pre-counter block of section 7.1. */
  function PreCounter(E: Cipher, iv: seq<byte>): Block {
    if |iv| == 12 then iv + Zeros(3) + [1] else Ghash(E(Zeros(16)), NonceBlocks(iv, Len64(|iv|)))
  }

  function StandardCrypt(E: Cipher, iv: seq<byte>, p: seq<byte>): seq<byte> {
    Gctr32(E, Inc32(PreCounter(E, iv)), p)
  }

  function TagInput(a: seq<byte>, c: seq<byte>, lengths: Block): (s: seq<byte>)
    ensures |s| % 16 == 0
  {
    (Pad(a) + Pad(c)) + lengths
  }

  function StandardTag(E: Cipher, iv: seq<byte>, a: seq<byte>, c: seq<byte>, t: nat): seq<byte>
    requires t <= 16
  {
    var s := Ghash(E(Zeros(16)), TagInput(a, c, Len64(|a|) + Len64(|c|)));
    Xor(s, E(PreCounter(E, iv)))[..t]
  }

  // The length fields.

  /** The 32-bit product is the bit length exactly below 2^29 bytes. */
  lemma LengthFieldExact(n: nat)
    requires n < 0x2000_0000_0000_0000
    ensures LenField(n) == Len64(n) <==> n < 0x2000_0000
  {
    hide ToBe, FromBe, Pow256;
    Pow256Values();
    FromToBe(8 * n, 8);
    FromToBe(n * 8 % TWO32, 8);
  }

  /** Half a GiB of data has the length field of none. */
  lemma LengthFieldWraps()
    ensures LenField(0x2000_0000) == LenField(0) && LenField(0x2000_0000) != Len64(0x2000_0000)
  {
    hide ToBe;
    LengthFieldExact(0x2000_0000);
  }

  // The counters.

  function Ctr32(icb: Block, k: nat): Block {
    if k == 0 then icb else Inc32(Ctr32(icb, k - 1))
  }

  /** The two increments agree unless the last 32 bits wrap. */
  lemma IncAgrees(h: seq<byte>, v: nat)
    requires |h| == 12 && v < TWO32
    ensures Inc32(h + ToBe(v, 4)) == h + ToBe((v + 1) % TWO32, 4)
    ensures Inc(h + ToBe(v, 4)) == h + ToBe((v + 1) % TWO32, 4) <==> v + 1 < TWO32
  {
    hide ToBe, FromBe, Pow256;
    var b, w := h + ToBe(v, 4), (v + 1) % TWO32;
    var r: Block := h + ToBe(w, 4);
    TailValue(h, v);
    TailValue(h, w);
    assert b[12..] == ToBe(v, 4) && b[..12] == h;
    Pow256Values();
    FromToBe((FromBe(b) + 1) % TWO128, 16);
    ToFromBe(r);
    CarryOut(FromBe(h), v);
  }

  lemma TailValue(h: seq<byte>, v: nat)
    requires |h| == 12 && v < TWO32
    ensures FromBe(ToBe(v, 4)) == v && FromBe(h + ToBe(v, 4)) == FromBe(h) * TWO32 + v < TWO128
  {
    hide ToBe, FromBe, Pow256;
    Pow256Values();
    FromToBe(v, 4);
    FromBeConcat(h, ToBe(v, 4));
    FromBeBound(h + ToBe(v, 4));
  }

  lemma CarryOut(h: nat, v: nat)
    requires v < TWO32 && h * TWO32 + v < TWO128
    ensures (h * TWO32 + v + 1) % TWO128 == h * TWO32 + (v + 1) % TWO32 <==> v + 1 < TWO32
  {
  }

  /** All counters up to the k-th agree exactly when the last 32 bits do not wrap on the way. */
  lemma CountersAgree(icb: Block, k: nat)
    ensures (forall j: nat :: j <= k ==> Ctr(icb, j) == Ctr32(icb, j)) <==> FromBe(icb[12..]) + k < TWO32
  {
    hide ToBe, FromBe, Pow256, Inc, Inc32, Ctr, Ctr32;
    var v := FromBe(icb[12..]);
    FromBeBound(icb[12..]);
    Pow256Values();
    if v + k < TWO32 {
      forall j: nat | j <= k ensures Ctr(icb, j) == Ctr32(icb, j) {
        CounterBelowWrap(icb, j);
      }
    } else {
      var j := TWO32 - v - 1;
      CounterBelowWrap(icb, j);
      IncAgrees(icb[..12], v + j);
      CtrStep(icb, j + 1);
      assert Ctr(icb, j + 1) != Ctr32(icb, j + 1);
    }
  }

  /** A counter block whose last four bytes are all ones: the source carries into the others, inc32 does not. */
  lemma CountersPart() returns (icb: Block)
    ensures Ctr(icb, 0) == Ctr32(icb, 0) && Ctr(icb, 1) != Ctr32(icb, 1)
  {
    hide ToBe, FromBe, Pow256, Inc, Inc32, Zeros;
    icb := Zeros(12) + ToBe(TWO32 - 1, 4);
    IncAgrees(Zeros(12), TWO32 - 1);
    CtrStep(icb, 1);
  }

  lemma CtrStep(icb: Block, k: nat)
    requires k > 0
    ensures Ctr(icb, k) == Inc(Ctr(icb, k - 1)) && Ctr32(icb, k) == Inc32(Ctr32(icb, k - 1))
  {
  }

  lemma {:induction false} CounterBelowWrap(icb: Block, k: nat)
    requires FromBe(icb[12..]) + k < TWO32
    ensures Ctr(icb, k) == Ctr32(icb, k) == icb[..12] + ToBe(FromBe(icb[12..]) + k, 4)
  {
    hide ToBe, FromBe, Pow256, Inc, Inc32;
    if k == 0 {
      ToFromBe(icb[12..]);
      assert icb == icb[..12] + icb[12..];
    } else {
      CounterBelowWrap(icb, k - 1);
      IncAgrees(icb[..12], FromBe(icb[12..]) + k - 1);
    }
  }

  // Whole messages.

  /** The key stream for up to one block. */
  lemma KeyBlock(E: Cipher, icb: Block, k: nat, p: seq<byte>)
    requires |p| <= 16
    ensures Gctr(E, icb, 16 * k, p) == Xor(p, E(Ctr(icb, k))[..|p|])
  {
    hide Xor, Gctr, Ctr;
    GctrInBlock(E, icb, 16 * k, p);
    assert E(Ctr(icb, k))[0..|p|] == E(Ctr(icb, k))[..|p|];
  }

  lemma BlocksStep(n: nat)
    requires n > 0
    ensures Blocks(n) > 0 && (n > 16 ==> Blocks(n) == Blocks(n - 16) + 1)
  {
  }

  /** Below the wrap the key stream of the source is that of the standard. */
  lemma {:induction false} GctrAgrees(E: Cipher, icb: Block, p: seq<byte>, k: nat)
    requires p == [] || FromBe(icb[12..]) + k + Blocks(|p|) <= TWO32
    ensures Gctr(E, icb, 16 * k, p) == Gctr32(E, Ctr32(icb, k), p)
    decreases |p|
  {
    hide ToBe, FromBe, Pow256, Inc, Inc32, Xor, Gctr, Blocks;
    if p == [] {
      GctrConcat(E, icb, 16 * k, [], []);
    } else {
      BlocksStep(|p|);
      CounterBelowWrap(icb, k);
      if |p| <= 16 {
        KeyBlock(E, icb, k, p);
      } else {
        assert p == p[..16] + p[16..] && E(Ctr(icb, k))[..16] == E(Ctr(icb, k));
        KeyBlock(E, icb, k, p[..16]);
        GctrConcat(E, icb, 16 * k, p[..16], p[16..]);
        GctrAgrees(E, icb, p[16..], k + 1);
      }
    }
  }

  /** Nonces below 2^29 bytes start the source where the standard starts. */
  lemma StartAgrees(E: Cipher, iv: seq<byte>)
    requires |iv| < 0x2000_0000
    ensures J0(E, iv) == PreCounter(E, iv)
  {
    hide GhashFrom;
    LengthFieldExact(|iv|);
  }

  /** The tag of a given ciphertext, for every nonce and all totals below 2^29 bytes. */
  lemma TagMatches(E: Cipher, iv: seq<byte>, a: seq<byte>, c: seq<byte>, t: nat)
    requires |iv| < 0x2000_0000 && |a| < 0x2000_0000 && |c| < 0x2000_0000 && t <= 16
    ensures Tag(E, iv, a, c, t) == StandardTag(E, iv, a, c, t)
  {
    hide ToBe, Xor, GhashFrom, Pad, J0, PreCounter;
    StartAgrees(E, iv);
    LengthFieldExact(|a|);
    LengthFieldExact(|c|);
    XorLaws(E(PreCounter(E, iv)), GhashFrom(HashKey(E), Zeros(16), (Pad(a) + Pad(c)) + Lengths(|a|, |c|)));
  }

  /**
   For every nonce and all totals below 2^29 bytes the source computes GCM-AE of section 7.1,
   unless the last 32 bits of the counter wrap within the payload.
   */
  lemma MatchesStandard(E: Cipher, iv: seq<byte>, a: seq<byte>, p: seq<byte>, t: nat)
    requires |iv| < 0x2000_0000 && |a| < 0x2000_0000 && |p| < 0x2000_0000 && t <= 16
    requires FromBe(PreCounter(E, iv)[12..]) + Blocks(|p|) < TWO32
    ensures Crypt(E, iv, p) == StandardCrypt(E, iv, p)
    ensures Tag(E, iv, a, Crypt(E, iv, p), t) == StandardTag(E, iv, a, StandardCrypt(E, iv, p), t)
  {
    hide ToBe, FromBe, Pow256, Inc, Inc32, Gctr, Gctr32, J0, PreCounter, Tag, StandardTag, Blocks;
    StartAgrees(E, iv);
    if p == [] {
      GctrAgrees(E, Inc(J0(E, iv)), p, 0);
      EmptyStream(E, Inc(J0(E, iv)), Inc32(J0(E, iv)));
    } else {
      BlocksStep(|p|);
      FirstCounter(J0(E, iv));
      GctrAgrees(E, Inc(J0(E, iv)), p, 0);
    }
    TagMatches(E, iv, a, Crypt(E, iv, p), t);
  }

  lemma EmptyStream(E: Cipher, x: Block, y: Block)
    ensures Gctr32(E, x, []) == Gctr32(E, y, [])
  {
  }

  /** The counter block after one that does not wrap. */
  lemma FirstCounter(b: Block)
    requires FromBe(b[12..]) + 1 < TWO32
    ensures Inc(b) == Inc32(b) && FromBe(Inc(b)[12..]) == FromBe(b[12..]) + 1
  {
    hide ToBe, FromBe, Pow256, Inc, Inc32;
    var v := FromBe(b[12..]);
    CounterBelowWrap(b, 0);
    IncAgrees(b[..12], v);
    assert (b[..12] + ToBe(v + 1, 4))[12..] == ToBe(v + 1, 4);
    TailValue(b[..12], v + 1);
  }

  /** A 96-bit nonce never gets near the wrap. */
  lemma ShortNonceMatches(E: Cipher, iv: seq<byte>, a: seq<byte>, p: seq<byte>, t: nat)
    requires |iv| == 12 && |a| < 0x2000_0000 && |p| < 0x2000_0000 && t <= 16
    ensures Crypt(E, iv, p) == StandardCrypt(E, iv, p)
    ensures Tag(E, iv, a, Crypt(E, iv, p), t) == StandardTag(E, iv, a, StandardCrypt(E, iv, p), t)
  {
    hide ToBe, FromBe, Pow256, Zeros, Crypt, StandardCrypt, Tag, StandardTag;
    ZerosAreZero(3);
    FromBeConcat(Zeros(3), [1]);
    FromBeOne();
    assert PreCounter(E, iv)[12..] == Zeros(3) + [1];
    MatchesStandard(E, iv, a, p, t);
  }

  // The limit is exact for whole blocks under a block cipher, which maps different blocks to different ones.

  ghost predicate Injective(E: Cipher) {
    forall x: Block, y: Block :: E(x) == E(y) ==> x == y
  }

  lemma {:induction false} Ctr32Shift(icb: Block, k: nat)
    ensures Ctr32(Inc32(icb), k) == Ctr32(icb, k + 1)
  {
    hide Inc32;
    if k > 0 {
      Ctr32Shift(icb, k - 1);
    }
  }

  lemma {:induction false} CtrShift(icb: Block, k: nat)
    ensures Ctr(Inc(icb), k) == Ctr(icb, k + 1)
  {
    hide Inc;
    if k > 0 {
      CtrShift(icb, k - 1);
    }
  }

  /** Block k of GCTR. */
  lemma {:induction false} Gctr32Block(E: Cipher, icb: Block, x: seq<byte>, k: nat)
    requires 16 * k + 16 <= |x|
    ensures |Gctr32(E, icb, x)| == |x|
    ensures Gctr32(E, icb, x)[16 * k..16 * k + 16] == Xor(x[16 * k..16 * k + 16], E(Ctr32(icb, k)))
    decreases k
  {
    hide Inc32, Xor;
    Gctr32Length(E, icb, x);
    if k == 0 {
      assert x == x[..16] + x[16..] && E(icb)[..16] == E(icb);
      assert |x| == 16 ==> x[..16] == x;
    } else {
      Gctr32Block(E, Inc32(icb), x[16..], k - 1);
      Ctr32Shift(icb, k - 1);
      assert x[16..][16 * (k - 1)..16 * k] == x[16 * k..16 * k + 16];
      var rest := Gctr32(E, Inc32(icb), x[16..]);
      assert Gctr32(E, icb, x)[16 * k..16 * k + 16] == rest[16 * (k - 1)..16 * k];
    }
  }

  lemma {:induction false} Gctr32Length(E: Cipher, icb: Block, x: seq<byte>)
    ensures |Gctr32(E, icb, x)| == |x|
    decreases |x|
  {
    hide Inc32;
    if |x| > 16 {
      Gctr32Length(E, Inc32(icb), x[16..]);
    }
  }

  /** Block k of the key stream of the source. */
  lemma GctrBlock(E: Cipher, icb: Block, x: seq<byte>, k: nat)
    requires 16 * k + 16 <= |x|
    ensures Gctr(E, icb, 0, x)[16 * k..16 * k + 16] == Xor(x[16 * k..16 * k + 16], E(Ctr(icb, k)))
  {
    hide Xor, Gctr, Ctr;
    var a, b, c := x[..16 * k], x[16 * k..16 * k + 16], x[16 * k + 16..];
    assert x == a + (b + c);
    GctrConcat(E, icb, 0, a, b + c);
    GctrConcat(E, icb, 16 * k, b, c);
    KeyBlock(E, icb, k, b);
    assert E(Ctr(icb, k))[..16] == E(Ctr(icb, k));
  }

  /** Whole blocks are encrypted as in the standard exactly when the last 32 bits of the counter do not wrap. */
  lemma CryptMatchesWhen(E: Cipher, iv: seq<byte>, p: seq<byte>)
    requires Injective(E) && |iv| < 0x2000_0000 && |p| < 0x2000_0000 && |p| % 16 == 0
    ensures
      Crypt(E, iv, p) == StandardCrypt(E, iv, p) <==> p == [] || FromBe(PreCounter(E, iv)[12..]) + |p| / 16 < TWO32
  {
    hide ToBe, FromBe, Pow256, Inc, Inc32, Gctr, Gctr32, J0, PreCounter, Injective, Xor;
    StartAgrees(E, iv);
    var b := PreCounter(E, iv);
    var v := FromBe(b[12..]);
    if v + |p| / 16 < TWO32 || p == [] {
      TailBelow(b);
      assert Blocks(|p|) == |p| / 16;
      MatchesStandard(E, iv, [], p, 0);
    } else {
      TailBelow(b);
      var k := TWO32 - v - 1;
      WrapsAt(b, k);
      CtrShift(b, k);
      Ctr32Shift(b, k);
      GctrBlock(E, Inc(b), p, k);
      Gctr32Block(E, Inc32(b), p, k);
      KeysApart(E, p[16 * k..16 * k + 16], Ctr(b, k + 1), Ctr32(b, k + 1));
    }
  }

  lemma TailBelow(b: Block)
    ensures FromBe(b[12..]) < TWO32
  {
    hide FromBe, Pow256;
    FromBeBound(b[12..]);
    Pow256Values();
  }

  /** The counters part where the last 32 bits wrap. */
  lemma WrapsAt(b: Block, k: nat)
    requires FromBe(b[12..]) + k + 1 == TWO32
    ensures Ctr(b, k + 1) != Ctr32(b, k + 1)
  {
    hide ToBe, FromBe, Pow256, Inc, Inc32, Ctr, Ctr32;
    CounterBelowWrap(b, k);
    IncAgrees(b[..12], FromBe(b[12..]) + k);
    CtrStep(b, k + 1);
  }

  lemma KeysApart(E: Cipher, p: seq<byte>, x: Block, y: Block)
    requires Injective(E) && x != y && |p| == 16
    ensures Xor(p, E(x)) != Xor(p, E(y))
  {
    hide Xor;
    XorCancels(E(x), p);
    XorCancels(E(y), p);
  }

  /** The block cipher that exchanges the blocks 0 and 1 of the field: its GHASH key is 1. */
  function Exchange(b: Block): Block {
    if b == ZERO then ONE else if b == ONE then ZERO else b
  }

  /** A nonce of one block under which the very first counter wraps. */
  lemma LongNonceDiffers() returns (iv: seq<byte>)
    ensures |iv| == 16 && Injective(Exchange)
    ensures Crypt(Exchange, iv, Zeros(16)) != StandardCrypt(Exchange, iv, Zeros(16))
  {
    hide ToBe, FromBe, Pow256, Crypt, StandardCrypt, Xor, Mul;
    var j: Block := Zeros(12) + ToBe(TWO32 - 1, 4);
    var length: Block := Zeros(8) + Len64(16);
    iv := Xor(j, length);
    GhashUnderOne(iv, length);
    XorCancels(j, length);
    assert NonceBlocks(iv, Len64(16)) == iv + length;
    assert j[12..] == ToBe(TWO32 - 1, 4);
    TailValue(Zeros(12), TWO32 - 1);
    ExchangeInjective();
    CryptMatchesWhen(Exchange, iv, Zeros(16));
  }

  /** Under this cipher the wrapped length field shows in every full tag of half a GiB or more. */
  lemma LongDataDiffers(iv: seq<byte>, a: seq<byte>, c: seq<byte>)
    requires |iv| == 12 && |a| < 0x2000_0000_0000_0000 && |c| < 0x2000_0000_0000_0000
    ensures
      Tag(Exchange, iv, a, c, 16) == StandardTag(Exchange, iv, a, c, 16) <==> |a| < 0x2000_0000 && |c| < 0x2000_0000
  {
    hide ToBe, Xor, Mul, Pad, J0, PreCounter, GhashFrom, LenField, Len64, Exchange;
    assert Exchange(Zeros(16)) == ONE by { ExchangeZero(); }
    StartAgrees(Exchange, iv);
    LengthFieldExact(|a|);
    LengthFieldExact(|c|);
    var s, start := Pad(a) + Pad(c), Exchange(J0(Exchange, iv));
    var x, y: Block := Lengths(|a|, |c|), Len64(|a|) + Len64(|c|);
    assert x[..8] == LenField(|a|) && x[8..] == LenField(|c|) && y[..8] == Len64(|a|) && y[8..] == Len64(|c|);
    LastUnderOne(s, x);
    LastUnderOne(s, y);
    var g := GhashFrom(ONE, ZERO, s);
    XorLaws(start, Xor(g, y));
    XorCancels(x, g);
    XorCancels(y, g);
    XorCancels(Xor(g, x), start);
    XorCancels(Xor(g, y), start);
    assert Tag(Exchange, iv, a, c, 16) == Xor(start, Xor(g, x));
    assert StandardTag(Exchange, iv, a, c, 16) == Xor(start, Xor(g, y));
  }

  lemma ExchangeZero()
    ensures Exchange(Zeros(16)) == ONE
  {
  }

  /** The last block under the key 1. */
  lemma LastUnderOne(s: seq<byte>, x: Block)
    requires |s| % 16 == 0
    ensures GhashFrom(ONE, ZERO, s + x) == Xor(GhashFrom(ONE, ZERO, s), x)
  {
    hide Xor, Mul;
    assert (s + x)[..|s + x| - 16] == s && (s + x)[|s + x| - 16..] == x;
    MulIsFieldProduct(Xor(GhashFrom(ONE, ZERO, s), x), x, x);
  }

  lemma ExchangeInjective()
    ensures Injective(Exchange)
  {
  }

  /** Under the key 1, GHASH of two blocks is their sum. */
  lemma GhashUnderOne(x: Block, y: Block)
    ensures GhashFrom(ONE, ZERO, x + y) == Xor(x, y)
  {
    hide Xor, Mul, Zeros;
    LastUnderOne([], x);
    LastUnderOne(x, y);
    assert [] + x == x && GhashFrom(ONE, ZERO, []) == ZERO;
    XorLaws(x, x);
  }
}
