/** The SM3 hash (sm3.c) over an arbitrary compression function, and HMAC on top of it. */
module Sm3 {
  import opened Arith
  import opened Bytes
  import opened Buffers

  type Chunk = b: seq<byte> | |b| == 64 witness seq(64, _ => 0 as byte)
  type Words = s: seq<bv32> | |s| == 8 witness seq(8, _ => 0 as bv32)
  type Compression = (Words, Chunk) -> Words

  /** The initial value of GM/T 0004-2012. */
  const IV: Words := [
    0x7380_166F, 0x4914_B2B9, 0x1724_42D7, 0xDA8A_0600,
    0xA96F_30BC, 0x1631_38AA, 0xE38D_EE4D, 0xB0FB_0E4E
  ]

  /** The iteration over a whole number of blocks. */
  function Fold(f: Compression, s: Words, data: seq<byte>): Words
    requires |data| % 64 == 0
  {
    if data == [] then s else f(Fold(f, s, data[..|data| - 64]), data[|data| - 64..])
  }

  /** Number of padding bytes up to the length field: one at least, then to 56 modulo 64. */
  function PadLength(n: nat): (k: nat)
    ensures 1 <= k <= 64 && (n + k + 8) % 64 == 0
  {
    var last := n % 64;
    if last < 56 then 56 - last else 120 - last
  }

  /** Section 5.2: a one bit, the fewest zero bits, the bit length in 64 bits. */
  function Padded(m: seq<byte>): (p: seq<byte>)
    ensures |p| % 64 == 0
  {
    m + ([0x80] + Zeros(PadLength(|m|) - 1)) + ToBe(8 * |m|, 8)
  }

  function Output(s: Words): (d: seq<byte>)
    ensures |d| == 32
  {
    PutBe32(s[0]) + PutBe32(s[1]) + PutBe32(s[2]) + PutBe32(s[3]) +
    PutBe32(s[4]) + PutBe32(s[5]) + PutBe32(s[6]) + PutBe32(s[7])
  }

  function Digest(f: Compression, m: seq<byte>): (d: seq<byte>)
    ensures |d| == 32
  {
    Output(Fold(f, IV, Padded(m)))
  }

  lemma FoldOne(f: Compression, s: Words, a: seq<byte>, b: Chunk)
    requires |a| % 64 == 0
    ensures |a + b| % 64 == 0 && Fold(f, s, a + b) == f(Fold(f, s, a), b)
  {
    assert (a + b)[..|a + b| - 64] == a && (a + b)[|a + b| - 64..] == b;
  }

  // The digest without the functions above: GM/T 0004-2012, sections 5.2 and 5.3.

  /** The message, a one bit, zeros up to 56 modulo 64, and the bit length in eight bytes. */
  ghost predicate IsPadded(m: seq<byte>, p: seq<byte>) {
    && |p| == (|m| + 72) / 64 * 64 && p[..|m|] == m && p[|m|] == 0x80
    && (forall i :: |m| < i < |p| - 8 ==> p[i] == 0)
    && FromBe(p[|p| - 8..]) == 8 * |m| % 0x1_0000_0000_0000_0000
  }

  /** The chaining values, from the initial value on, one for each block. */
  ghost predicate IsChain(f: Compression, p: seq<byte>, chain: seq<Words>) {
    && |p| % 64 == 0 && |chain| == |p| / 64 + 1
    && chain[0] == [0x7380_166F, 0x4914_B2B9, 0x1724_42D7, 0xDA8A_0600,
                    0xA96F_30BC, 0x1631_38AA, 0xE38D_EE4D, 0xB0FB_0E4E]
    && forall k :: 0 <= k < |p| / 64 ==> chain[k + 1] == f(chain[k], p[64 * k..64 * k + 64])
  }

  ghost predicate IsOutput(s: Words, d: seq<byte>) {
    |d| == 32 && forall j :: 0 <= j < 8 ==> IsWord(s[j], d[4 * j..4 * j + 4])
  }

  ghost predicate IsDigest(f: Compression, m: seq<byte>, d: seq<byte>) {
    exists p, chain :: IsPadded(m, p) && IsChain(f, p, chain) && IsOutput(chain[|p| / 64], d)
  }

  lemma OutputIs(s: Words)
    ensures IsOutput(s, Output(s))
  {
    hide IsWord, PutBe32;
    forall j | 0 <= j < 8 ensures IsWord(s[j], Output(s)[4 * j..4 * j + 4]) {
      PutIsWord(s[j]);
      OutputAt(s, j);
    }
  }

  lemma OutputAt(s: Words, j: nat)
    requires j < 8
    ensures Output(s)[4 * j..4 * j + 4] == PutBe32(s[j])
  {
    hide PutBe32;
  }

  lemma PaddedIs(m: seq<byte>)
    ensures IsPadded(m, Padded(m))
  {
    hide ToBe, FromBe, Pow256;
    var p := Padded(m);
    assert p[|p| - 8..] == ToBe(8 * |m|, 8);
    FromToBe(8 * |m|, 8);
    Pow256Of8();
  }

  lemma Pow256Of8()
    ensures Pow256(8) == 0x1_0000_0000_0000_0000
  {
  }

  lemma ChainIs(f: Compression, p: seq<byte>) returns (chain: seq<Words>)
    requires |p| % 64 == 0
    ensures IsChain(f, p, chain) && chain[|p| / 64] == Fold(f, IV, p)
  {
    hide Fold;
    chain := seq(|p| / 64 + 1, k requires 0 <= k <= |p| / 64 => Fold(f, IV, p[..64 * k]));
    FoldNothing(f, IV);
    assert p[..0] == [] && p[..64 * (|p| / 64)] == p;
    forall k | 0 <= k < |p| / 64 ensures chain[k + 1] == f(chain[k], p[64 * k..64 * k + 64]) {
      FoldOne(f, IV, p[..64 * k], p[64 * k..64 * k + 64]);
      assert p[..64 * k] + p[64 * k..64 * k + 64] == p[..64 * (k + 1)];
    }
  }

  /** The digest: the padded message, the chain over its blocks, and the bytes of the last chaining value. */
  lemma DigestIs(f: Compression, m: seq<byte>)
    ensures IsDigest(f, m, Digest(f, m))
  {
    hide IsPadded, IsChain, IsOutput, Output, Padded, Fold;
    PaddedIs(m);
    var chain := ChainIs(f, Padded(m));
    ChainLength(f, Padded(m), chain);
    OutputIs(chain[|Padded(m)| / 64]);
  }

  lemma ChainLength(f: Compression, p: seq<byte>, chain: seq<Words>)
    requires IsChain(f, p, chain)
    ensures |chain| == |p| / 64 + 1
  {
  }

  /** k filled up with zeros and xored with one byte. */
  ghost predicate IsPad(k: seq<byte>, b: byte, pad: seq<byte>) {
    |k| <= 64 == |pad| && forall i :: 0 <= i < 64 ==> pad[i] == Xor8(if i < |k| then k[i] else 0, b)
  }

  /** HMAC, section 2 of RFC 2104: with the key, or its digest if it is too long, in the inner and the outer hash. */
  ghost predicate HmacOf(f: Compression, key: seq<byte>, text: seq<byte>, d: seq<byte>, k: seq<byte>,
                         ipad: seq<byte>, opad: seq<byte>, inner: seq<byte>) {
    && (if |key| <= 64 then k == key else IsDigest(f, key, k))
    && IsPad(k, 0x36, ipad) && IsPad(k, 0x5c, opad)
    && IsDigest(f, ipad + text, inner) && IsDigest(f, opad + inner, d)
  }

  ghost predicate IsHmac(f: Compression, key: seq<byte>, text: seq<byte>, d: seq<byte>) {
    exists k, ipad, opad, inner :: HmacOf(f, key, text, d, k, ipad, opad, inner)
  }

  // The byte counter in two 32-bit words.

  /** The words of the counter after adding ilen, with the carry test of the source. */
  function CountedLow(low: nat, ilen: nat): nat { (low + ilen) % TWO32 }

  function CountedHigh(low: nat, high: nat, ilen: nat): nat {
    if CountedLow(low, ilen) < ilen then (high + 1) % TWO32 else high
  }

  /** The carry test counts right exactly while the low word plus the added length stays below 2^33. */
  lemma CounterExact(low: nat, high: nat, ilen: nat)
    requires low < TWO32 && high < TWO32 && ilen < TWO64
    ensures CountedHigh(low, high, ilen) * TWO32 + CountedLow(low, ilen) == (high * TWO32 + low + ilen) % TWO64
        <==> low + ilen < 2 * TWO32
    ensures CountedLow(low, ilen) < TWO32 && CountedHigh(low, high, ilen) < TWO32
  {
    var q := (low + ilen) / TWO32;
    var carry := if CountedLow(low, ilen) < ilen then 1 else 0;
    assert low + ilen == q * TWO32 + CountedLow(low, ilen);
    assert q == 0 ==> carry == 0;
    assert q >= 1 ==> carry == 1;
    assert q <= TWO32;
    assert (high * TWO32 + low + ilen) % TWO64 == (high + q) % TWO32 * TWO32 + CountedLow(low, ilen);
  }

  /** An update that adds two carries at once: only one is counted. The same update overruns the buffer. */
  lemma CounterMissesCarry()
    ensures var low, ilen := TWO32 - 1, TWO32 + 1;
      && CountedHigh(low, 0, ilen) * TWO32 + CountedLow(low, ilen) != low + ilen
      && !Fits(low % 64, ilen)
  {
    CounterExact(TWO32 - 1, 0, TWO32 + 1);
    FitsExactly((TWO32 - 1) % 64, TWO32 + 1);
  }

  // The buffer lengths of sm3_update, with products of unsigned int.

  /** Where the last bytes of an update of n bytes go when left bytes wait: behind them, or to the front. */
  function TailOffset(left: nat, n: nat): nat {
    if left != 0 && n >= 64 - left then 0 else left
  }

  /** The bytes that remain when a waiting block has been filled up. */
  function AfterFill(left: nat, n: nat): (rest: nat)
    requires left < 64
  {
    if left != 0 && n >= 64 - left then n - (64 - left) else n
  }

  /** block_count */
  function BlockCount(rest: nat): nat {
    rest / 64 % TWO32
  }

  /** block_count * SM3_BLOCK_SIZE */
  function Consumed(rest: nat): nat {
    BlockCount(rest) * 64 % TWO32
  }

  /** The last memcpy stays inside the 64-byte buffer. */
  predicate Fits(left: nat, n: nat)
    requires left < 64
  {
    TailOffset(left, n) + (AfterFill(left, n) - Consumed(AfterFill(left, n))) <= 64
  }

  lemma ConsumedIs(rest: nat)
    ensures rest < TWO32 ==> BlockCount(rest) == rest / 64 && Consumed(rest) == rest / 64 * 64
    ensures rest >= TWO32 ==> rest - Consumed(rest) > 64
  {
  }

  /** An update is safe exactly when fewer than 2^32 bytes remain behind the filled block. */
  lemma FitsExactly(left: nat, n: nat)
    requires left < 64
    ensures Fits(left, n) <==> AfterFill(left, n) < TWO32
  {
    ConsumedIs(AfterFill(left, n));
  }

  lemma ShortFits(left: nat, n: nat)
    requires left < 64 && n < TWO32
    ensures Fits(left, n)
  {
    FitsExactly(left, n);
  }

  /** A safe update never adds two carries: the buffer is the only limit. */
  lemma SafeCountsRight(low: nat, n: nat)
    requires low < TWO32 && Fits(low % 64, n)
    ensures low + n < 2 * TWO32
  {
    FitsExactly(low % 64, n);
    assert low <= TWO32 - 64 + low % 64;
  }

  /** 2^32 bytes at a block boundary: the product wraps to zero and all of them go to the buffer. */
  lemma UpdateOverruns()
    ensures Consumed(TWO32) == 0 && !Fits(0, TWO32)
  {
  }

  /** The two halves of the bit length as sm3_final computes them. */
  function HighBits(low: nat, high: nat): nat { low / 0x2000_0000 + high * 8 % TWO32 }

  function LowBits(low: nat): nat { low * 8 % TWO32 }

  lemma BitLength(low: nat, high: nat, n: nat)
    requires low < TWO32 && high < TWO32 && high * TWO32 + low == n % TWO64
    ensures HighBits(low, high) * TWO32 + LowBits(low) == 8 * n % TWO64
    ensures HighBits(low, high) < TWO32 && LowBits(low) < TWO32
  {
    var a, h := high * 8 / TWO32, high * 8 % TWO32;
    assert high * 8 == a * TWO32 + h;
    HighWordFits(h, high, low / 0x2000_0000);
    assert low * 8 == (low / 0x2000_0000) * TWO32 + LowBits(low);
    var r := HighBits(low, high) * TWO32 + LowBits(low);
    assert 8 * (n % TWO64) == a * TWO64 + r;
    EightTimes(n, a, r);
  }

  lemma HighWordFits(h: nat, high: nat, x: nat)
    requires h == high * 8 % TWO32 && x < 8
    ensures h + x < TWO32
  {
    assert h % 8 == 0;
  }

  lemma EightTimes(n: nat, a: nat, r: nat)
    requires 8 * (n % TWO64) == a * TWO64 + r && r < TWO64
    ensures 8 * n % TWO64 == r
  {
    DivModUnique(8 * n, TWO64, 8 * (n / TWO64) + a, r);
  }

  // The code.

  /** struct sm3_context without the HMAC pads. */
  class Context {
    const f: Compression
    var low: nat
    var high: nat
    const state: array<bv32>
    const buffer: array<byte>
    const ipad: array<byte>
    const opad: array<byte>
    ghost var msg: seq<byte> // everything hashed since init

    ghost predicate Shape()
      reads {}
    {
      && state.Length == 8 && buffer.Length == ipad.Length == opad.Length == 64
      && buffer != ipad && buffer != opad && ipad != opad
    }

    /** The counter, the chaining value and the buffer account for exactly `msg`. */
    ghost predicate Valid()
      reads this, state, buffer
    {
      && Shape()
      && low < TWO32 && high < TWO32 && high * TWO32 + low == |msg| % TWO64
      && Absorbed(f, msg, state[..], buffer[..])
    }

    constructor (f: Compression)
      ensures Shape() && this.f == f && fresh(state) && fresh(buffer) && fresh(ipad) && fresh(opad)
    {
      this.f := f;
      state := new bv32[8];
      buffer := new byte[64];
      ipad := new byte[64];
      opad := new byte[64];
    }

    /** sm3_init */
    method Init()
      requires Shape()
      modifies this, state
      ensures Valid() && msg == []
      ensures state[..] == [0x7380_166F, 0x4914_B2B9, 0x1724_42D7, 0xDA8A_0600,
                            0xA96F_30BC, 0x1631_38AA, 0xE38D_EE4D, 0xB0FB_0E4E]
    {
      low, high := 0, 0;
      SetState(IV);
      msg := [];
      assert msg[..0] == [] && buffer[..0] == [];
    }

    method SetState(s: Words)
      requires Shape()
      modifies state
      ensures state[..] == s
    {
      forall i | 0 <= i < 8 {
        state[i] := s[i];
      }
      assert state[..] == s;
    }

    /** sm3_process_blocks */
    method ProcessBlocks(input: seq<byte>)
      requires Shape() && |input| % 64 == 0
      modifies state
      ensures state[..] == Fold(f, old(state[..]), input)
    {
      hide Fold;
      FoldNothing(f, state[..]);
      assert input[..0] == [];
      for n := 0 to |input| / 64
        invariant state[..] == Fold(f, old(state[..]), input[..64 * n])
      {
        var block: Chunk := input[64 * n..64 * n + 64];
        FoldOne(f, old(state[..]), input[..64 * n], block);
        assert input[..64 * n] + block == input[..64 * (n + 1)];
        SetState(f(state[..], block));
      }
      assert input[..64 * (|input| / 64)] == input;
    }

    /** sm3_update */
    method Update(input: seq<byte>)
      requires Valid() && Fits(low % 64, |input|)
      modifies this`low, this`high, this`msg, state, buffer
      ensures Valid() && msg == old(msg) + input
    {
      if |input| == 0 {
        assert msg + input == msg;
        return;
      }
      hide Absorbed, Fits;
      SafeCountsRight(low, |input|);
      SameRemainder(low, high, |msg|);
      Absorb(input);
      AddToTotal(|input|);
      msg := msg + input;
    }

    /** The two counter words and the carry between them. */
    method AddToTotal(ilen: nat)
      requires low < TWO32 && high < TWO32 && low + ilen < 2 * TWO32 && high * TWO32 + low == |msg| % TWO64
      modifies this`low, this`high
      ensures low < TWO32 && high < TWO32 && high * TWO32 + low == (|msg| + ilen) % TWO64
    {
      hide CountedLow, CountedHigh;
      CounterExact(low, high, ilen);
      CountAdds(|msg|, ilen, high * TWO32 + low);
      var low' := CountedLow(low, ilen);
      high := CountedHigh(low, high, ilen);
      low := low';
    }

    /** The buffering of sm3_update. */
    method Absorb(input: seq<byte>)
      requires Shape() && Absorbed(f, msg, state[..], buffer[..]) && low % 64 == |msg| % 64
      requires Fits(low % 64, |input|)
      modifies state, buffer
      ensures Absorbed(f, msg + input, state[..], buffer[..])
    {
      hide Fold, Splice, Fits, BlockCount, Consumed;
      FitsExactly(low % 64, |input|);
      var left := low % 64;
      var fill := 64 - left;
      var rest := input;
      ghost var base, kept := msg[..|msg| - left], msg[|msg| - left..];
      assert msg + input == base + kept + rest;
      assert buffer[..left] == kept;
      if left != 0 && |rest| >= fill {
        CopyAfter(left, rest[..fill], kept);
        assert buffer[..] == buffer[..left + fill] == kept + rest[..fill];
        ProcessBlocks(buffer[..]);
        FoldConcat(f, IV, base, kept + rest[..fill]);
        assert base + kept + rest == (base + (kept + rest[..fill])) + [] + rest[fill..];
        base, kept := base + (kept + rest[..fill]), [];
        rest := rest[fill..];
        left := 0;
      }
      ConsumedIs(|rest|);
      var n := Consumed(|rest|);
      ProcessBlocks(rest[..64 * BlockCount(|rest|)]);
      FoldConcat(f, IV, base, rest[..n]);
      if |rest| - n > 0 {
        CopyAfter(left, rest[n..], kept);
      }
      AbsorbedAll(f, msg + input, base, kept, rest, n, state[..], buffer[..]);
    }

    /** memcpy(buffer + left, data, len) behind the bytes already kept. */
    method CopyAfter(left: nat, data: seq<byte>, ghost kept: seq<byte>)
      requires Shape() && left + |data| <= 64 && buffer[..left] == kept
      modifies buffer
      ensures buffer[..left + |data|] == kept + data
    {
      Memcpy(buffer, left, data);
    }

    /** sm3_final */
    method Final() returns (output: seq<byte>)
      requires Valid()
      modifies this`low, this`high, this`msg, state, buffer
      ensures Valid() && output == Digest(f, old(msg)) && IsDigest(f, old(msg), output)
    {
      hide Digest, IsDigest, Fold, ToBe, FromBe, Absorbed, Output, HighBits, LowBits, Padded, Fits;
      ghost var m := msg;
      SameRemainder(low, high, |m|);
      var msglen := ToBe(HighBits(low, high), 4) + ToBe(LowBits(low), 4);
      LengthBytes(low, high, |m|);
      var last := low % 64;
      var padn := if last < 56 then 56 - last else 120 - last;
      var padding: seq<byte> := [0x80] + Zeros(padn - 1);
      PaddedParts(m, padding, msglen);
      ShortFits(low % 64, |padding|);
      Update(padding);
      ShortFits(low % 64, 8);
      Update(msglen);
      StateAtBoundary();
      output := Output(state[..]);
      assert output == Digest(f, m) by { DigestParts(f, m); }
      DigestIs(f, m);
    }

    lemma StateAtBoundary()
      requires Valid() && |msg| % 64 == 0
      ensures state[..] == Fold(f, IV, msg)
    {
      assert msg[..|msg|] == msg;
    }

    /** memset and key bytes of one HMAC pad. */
    method KeyedPad(pad: array<byte>, b: byte, k: seq<byte>)
      requires pad.Length == 64 && |k| <= 64
      modifies pad
      ensures pad[..] == Xor(Fill(b), k + Zeros(64 - |k|))
    {
      hide Xor8, Splice;
      Memset(pad, 0, b, 64);
      XorBuf(pad, 0, k);
      XorPrefix(b, k);
    }

    /** sm3_hmac_init */
    method HmacInit(key: seq<byte>)
      requires Shape() && Fits(0, |key|)
      modifies this, state, buffer, ipad, opad
      ensures Valid() && msg == Xor(Fill(0x36), KeyBlock(f, key)) && opad[..] == Xor(Fill(0x5c), KeyBlock(f, key))
    {
      hide Xor, Digest, Splice, Absorbed, Fits;
      ShortFits(0, 64);
      var k := key;
      if |key| > 64 {
        var inner := new Context(f);
        inner.Init();
        inner.Update(key);
        assert [] + key == key;
        k := inner.Final();
      }
      KeyedPad(ipad, 0x36, k);
      KeyedPad(opad, 0x5c, k);
      Init();
      Update(ipad[..]);
    }

    /** sm3_hmac_final */
    method HmacFinal() returns (output: seq<byte>)
      requires Valid()
      modifies this, state, buffer
      ensures output == Digest(f, opad[..] + Digest(f, old(msg)))
    {
      hide Digest, Absorbed, Fits;
      ShortFits(0, 64);
      ShortFits(0, 32);
      var tmpbuf := Final();
      Init();
      Update(opad[..]);
      Update(tmpbuf);
      assert [] + opad[..] + tmpbuf == opad[..] + tmpbuf;
      output := Final();
    }
  }

  lemma DigestParts(f: Compression, m: seq<byte>)
    ensures Digest(f, m) == Output(Fold(f, IV, Padded(m)))
  {
  }

  lemma PaddedParts(m: seq<byte>, padding: seq<byte>, length: seq<byte>)
    requires padding == [0x80] + Zeros(PadLength(|m|) - 1) && length == ToBe(8 * |m|, 8)
    ensures m + padding + length == Padded(m)
  {
  }

  lemma SameRemainder(low: nat, high: nat, n: nat)
    requires high * TWO32 + low == n % TWO64
    ensures low % 64 == n % 64
  {
    assert n == TWO64 * (n / TWO64) + n % TWO64;
    AddMultiple(low, 0x400_0000 * high + 0x400_0000_0000_0000 * (n / TWO64));
  }

  lemma AddMultiple(a: nat, k: nat)
    ensures (a + 64 * k) % 64 == a % 64
  {
  }

  /** PUT_UINT32_BE of the two halves is the 64-bit length field. */
  lemma LengthBytes(low: nat, high: nat, n: nat)
    requires low < TWO32 && high < TWO32 && high * TWO32 + low == n % TWO64
    ensures ToBe(HighBits(low, high), 4) + ToBe(LowBits(low), 4) == ToBe(8 * n, 8)
  {
    hide ToBe, HighBits, LowBits;
    BitLength(low, high, n);
    TwoHalves(HighBits(low, high), LowBits(low));
    ToBe8Mod(8 * n);
  }

  // HMAC, section 2 of RFC 2104.

  function Fill(b: byte): (s: seq<byte>)
    ensures |s| == 64
  {
    seq(64, _ => b)
  }

  /** Xoring k into the front of a filled block is xoring all of it with the zero-padded k. */
  lemma XorPrefix(b: byte, k: seq<byte>)
    requires |k| <= 64
    ensures Splice(Fill(b), 0, Xor(Fill(b)[0..|k|], k)) == Xor(Fill(b), k + Zeros(64 - |k|))
  {
    hide Xor8;
    Xor8Laws(b, 0, 0);
  }

  /** The key, hashed if it is longer than a block, filled up with zeros. */
  function KeyBlock(f: Compression, key: seq<byte>): (k: seq<byte>)
    ensures |k| == 64
  {
    var k := if |key| > 64 then Digest(f, key) else key;
    k + Zeros(64 - |k|)
  }

  function Hmac(f: Compression, key: seq<byte>, text: seq<byte>): seq<byte> {
    Digest(f, Xor(Fill(0x5c), KeyBlock(f, key)) + Digest(f, Xor(Fill(0x36), KeyBlock(f, key)) + text))
  }

  /** What Hmac computes, without the functions it is made of. */
  lemma HmacIs(f: Compression, key: seq<byte>, text: seq<byte>)
    ensures IsHmac(f, key, text, Hmac(f, key, text))
  {
    hide IsDigest, Digest, Xor, IsPad;
    var k := if |key| > 64 then Digest(f, key) else key;
    var ipad, opad := Xor(Fill(0x36), KeyBlock(f, key)), Xor(Fill(0x5c), KeyBlock(f, key));
    var inner := Digest(f, ipad + text);
    DigestIs(f, key);
    PadIs(k, 0x36);
    PadIs(k, 0x5c);
    DigestIs(f, ipad + text);
    DigestIs(f, opad + inner);
    assert HmacOf(f, key, text, Hmac(f, key, text), k, ipad, opad, inner);
  }

  lemma PadIs(k: seq<byte>, b: byte)
    requires |k| <= 64
    ensures IsPad(k, b, Xor(Fill(b), k + Zeros(64 - |k|)))
  {
    hide Xor8;
    var z, pad := k + Zeros(64 - |k|), Xor(Fill(b), k + Zeros(64 - |k|));
    forall i | 0 <= i < 64 ensures pad[i] == Xor8(if i < |k| then k[i] else 0, b) {
      assert z[i] == if i < |k| then k[i] else 0;
      Xor8Laws(b, z[i], 0);
    }
  }

  // Whole runs.

  /** The digest does not depend on how the message is cut into updates. */
  method HashAll(f: Compression, chunks: seq<seq<byte>>) returns (d: seq<byte>)
    requires forall i :: 0 <= i < |chunks| ==> |chunks[i]| < TWO32
    ensures d == Digest(f, Flatten(chunks)) && IsDigest(f, Flatten(chunks), d)
  {
    hide IsDigest, Flatten, Digest, Fits, Context.Valid;
    var ctx := new Context(f);
    ctx.Init();
    FlattenNothing();
    assert chunks[..0] == [];
    for i := 0 to |chunks|
      invariant ctx.Valid() && ctx.msg == Flatten(chunks[..i])
    {
      FlattenSnoc(chunks, i);
      ShortFits(ctx.low % 64, |chunks[i]|);
      ctx.Update(chunks[i]);
    }
    assert chunks[..|chunks|] == chunks;
    d := ctx.Final();
  }

  /** Neither does the HMAC, for keys of every length. */
  method HmacAll(f: Compression, key: seq<byte>, chunks: seq<seq<byte>>) returns (d: seq<byte>)
    requires |key| < TWO32 && forall i :: 0 <= i < |chunks| ==> |chunks[i]| < TWO32
    ensures d == Hmac(f, key, Flatten(chunks)) && IsHmac(f, key, Flatten(chunks), d)
  {
    HmacIs(f, key, Flatten(chunks));
    hide IsHmac, Flatten, Digest, KeyBlock, Xor, Fits, Context.Valid;
    var ctx := new Context(f);
    ShortFits(0, |key|);
    ctx.HmacInit(key);
    ghost var head := ctx.msg;
    FlattenNothing();
    assert chunks[..0] == [] && head + [] == head;
    for i := 0 to |chunks|
      invariant ctx.Valid() && ctx.msg == head + Flatten(chunks[..i])
      invariant ctx.opad[..] == Xor(Fill(0x5c), KeyBlock(f, key))
    {
      FlattenSnoc(chunks, i);
      ShortFits(ctx.low % 64, |chunks[i]|);
      ctx.Update(chunks[i]);
      assert head + Flatten(chunks[..i]) + chunks[i] == head + Flatten(chunks[..i + 1]);
    }
    assert chunks[..|chunks|] == chunks;
    d := ctx.HmacFinal();
  }

  /** The state has seen `msg` up to the last block boundary, the buffer keeps the rest. */
  ghost predicate Absorbed(f: Compression, msg: seq<byte>, state: seq<bv32>, buffer: seq<byte>) {
    var left := |msg| % 64;
    && |state| == 8 && |buffer| == 64
    && state == Fold(f, IV, msg[..|msg| - left])
    && buffer[..left] == msg[|msg| - left..]
  }

  lemma AbsorbedAll(f: Compression, m: seq<byte>, base: seq<byte>, kept: seq<byte>, rest: seq<byte>, n: nat,
                    state: seq<bv32>, buffer: seq<byte>)
    requires |base| % 64 == 0 && m == base + kept + rest && n == |rest| / 64 * 64
    requires |kept| < 64 && (kept == [] || |kept| + |rest| < 64)
    requires |state| == 8 && |buffer| == 64 && state == Fold(f, IV, base + rest[..n])
    requires buffer[..|kept| + (|rest| - n)] == kept + rest[n..]
    ensures Absorbed(f, m, state, buffer)
  {
    hide Fold, Absorbed;
    if kept == [] {
      assert rest == rest[..n] + rest[n..];
      assert m == (base + rest[..n]) + (kept + rest[n..]);
    } else {
      assert rest[..n] == [] && rest[n..] == rest;
      assert m == (base + rest[..n]) + (kept + rest[n..]);
    }
    AbsorbedParts(f, m, base + rest[..n], kept + rest[n..], state, buffer);
  }

  lemma AbsorbedParts(f: Compression, m: seq<byte>, whole: seq<byte>, left: seq<byte>, state: seq<bv32>,
                      buffer: seq<byte>)
    requires |whole| % 64 == 0 && |left| < 64 && m == whole + left
    requires |state| == 8 && |buffer| == 64 && state == Fold(f, IV, whole) && buffer[..|left|] == left
    ensures Absorbed(f, m, state, buffer)
  {
    hide Fold;
    assert |m| % 64 == |left| by { Remainder(|whole|, |left|); }
    assert m[..|m| - |left|] == whole && m[|m| - |left|..] == left;
  }

  lemma Remainder(a: nat, x: nat)
    requires a % 64 == 0 && x < 64
    ensures (a + x) % 64 == x
  {
  }

  lemma {:induction false} FoldConcat(f: Compression, s: Words, a: seq<byte>, b: seq<byte>)
    requires |a| % 64 == 0 && |b| % 64 == 0
    ensures |a + b| % 64 == 0 && Fold(f, s, a + b) == Fold(f, Fold(f, s, a), b)
  {
    if b == [] {
      assert a + b == a;
    } else {
      var b', last := b[..|b| - 64], b[|b| - 64..];
      FoldConcat(f, s, a, b');
      assert a + b == (a + b') + last;
      FoldOne(f, s, a + b', last);
    }
  }

  lemma FoldNothing(f: Compression, s: Words)
    ensures Fold(f, s, []) == s
  {
  }

  lemma CountAdds(n: nat, k: nat, count: nat)
    requires count == n % TWO64
    ensures (count + k) % TWO64 == (n + k) % TWO64
  {
  }
}
