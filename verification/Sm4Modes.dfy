/** CBC and CTR mode of sm4.c. */
module Sm4Modes {
  import opened Arith
  import opened Bytes
  import opened Buffers
  import opened CbcMode
  import opened CounterMode
  import opened Sm4

  /** sm4_crypt_cbc */
  method CryptCbc(ctx: Context, iv: array<byte>, input: seq<byte>, output: array<byte>, off: nat)
    requires ctx.sk.Length == 32 && iv.Length == 16 && iv != output
    requires |input| % 16 == 0 && off + |input| <= output.Length
    modifies iv, output
    ensures output[..] == Splice(old(output[..]), off, Crypted(ctx.mode == ENCRYPT, ctx.Crypt(), old(iv[..]), input))
    ensures iv[..] == ChainAfter(ctx.mode == ENCRYPT, ctx.Crypt(), old(iv[..]), input)
    ensures IsCbc(ctx.mode == ENCRYPT, ctx.Crypt(), old(iv[..]), input, output[off..off + |input|], iv[..])
  {
    hide IsCbc, Xor, Splice, Chain, Encrypted, Decrypted, Context.Crypt, IsCipherOf;
    ghost var e, iv0: Block, out0 := ctx.Crypt(), iv[..], output[..];
    CryptedNone(ctx.mode == ENCRYPT, e, iv0);
    SpliceNothing(out0, off);
    assert input[..0] == [];
    var pos := 0;
    while pos < |input|
      invariant 0 <= pos <= |input| && pos % 16 == 0
      invariant output[..] == Splice(out0, off, Crypted(ctx.mode == ENCRYPT, e, iv0, input[..pos]))
      invariant iv[..] == ChainAfter(ctx.mode == ENCRYPT, e, iv0, input[..pos])
    {
      var block: Block := input[pos..pos + 16];
      assert input[..pos] + block == input[..pos + 16];
      if ctx.mode == ENCRYPT {
        EncryptedOne(e, iv0, input[..pos], block);
        var out := ctx.OneRound(Xor(block, iv[..]));
        SpliceTwice(out0, off, Encrypted(e, iv0, input[..pos]), out);
        Memcpy(output, off + pos, out);
        Memcpy(iv, 0, out);
      } else {
        DecryptedOne(e, iv0, input[..pos], block);
        var out := ctx.OneRound(block);
        out := Xor(out, iv[..]);
        SpliceTwice(out0, off, Decrypted(e, iv0, input[..pos]), out);
        Memcpy(output, off + pos, out);
        Memcpy(iv, 0, block);
      }
      pos := pos + 16;
    }
    assert input[..pos] == input;
    CryptedIs(ctx.mode == ENCRYPT, e, iv0, input);
    SpliceAt(out0, off, Crypted(ctx.mode == ENCRYPT, e, iv0, input));
    assert output[off..off + |input|] == output[..][off..off + |input|];
  }

  /** Any sequence of calls is one call on everything they were given, and leaves the chaining value of that call. */
  method CryptCbcAll(ctx: Context, iv: array<byte>, chunks: seq<seq<byte>>, output: array<byte>)
    requires ctx.sk.Length == 32 && iv.Length == 16 && iv != output
    requires BlockMultiples(chunks) && |Flatten(chunks)| == output.Length
    modifies iv, output
    ensures |Flatten(chunks)| % 16 == 0
    ensures output[..] == Crypted(ctx.mode == ENCRYPT, ctx.Crypt(), old(iv[..]), Flatten(chunks))
    ensures iv[..] == ChainAfter(ctx.mode == ENCRYPT, ctx.Crypt(), old(iv[..]), Flatten(chunks))
    ensures IsCbc(ctx.mode == ENCRYPT, ctx.Crypt(), old(iv[..]), Flatten(chunks), output[..], iv[..])
  {
    hide IsCbc, Splice, Crypted, ChainAfter, Flatten, BlockMultiples, Context.Crypt;
    ghost var enc, f, iv0: Block, out0 := ctx.mode == ENCRYPT, ctx.Crypt(), iv[..], output[..];
    var pos := 0;
    CryptedNone(enc, f, iv0);
    SpliceNothing(out0, 0);
    FlattenNothing();
    FlattenMultiples(chunks, |chunks|);
    assert chunks[..0] == [] && chunks[..|chunks|] == chunks;
    for i := 0 to |chunks|
      invariant pos == |Flatten(chunks[..i])| <= output.Length && pos % 16 == 0
      invariant output[..] == Splice(out0, 0, Crypted(enc, f, iv0, Flatten(chunks[..i])))
      invariant iv[..] == ChainAfter(enc, f, iv0, Flatten(chunks[..i]))
    {
      ghost var before := Flatten(chunks[..i]);
      FlattenMultiples(chunks, i);
      FlattenMultiples(chunks, i + 1);
      FlattenSnoc(chunks, i);
      FlattenPrefix(chunks, i + 1);
      CryptedConcat(enc, f, iv0, before, chunks[i]);
      SpliceTwice(out0, 0, Crypted(enc, f, iv0, before), Crypted(enc, f, iv[..], chunks[i]));
      CryptCbc(ctx, iv, chunks[i], output, pos);
      pos := pos + |chunks[i]|;
    }
    SpliceAll(Crypted(enc, f, iv0, Flatten(chunks)));
    CryptedIs(enc, f, iv0, Flatten(chunks));
  }

  function NextByte(b: byte): byte { b + 1 }

  /** Increment with carry from the last byte on. */
  function IncBytes(s: seq<byte>): (r: seq<byte>)
    ensures |r| == |s|
  {
    if s == [] then []
    else if NextByte(s[|s| - 1]) == 0 then IncBytes(s[..|s| - 1]) + [0]
    else s[..|s| - 1] + [NextByte(s[|s| - 1])]
  }

  lemma NextByteValue(b: byte)
    ensures Value(b) < 256 && (NextByte(b) == 0 <==> Value(b) == 255)
    ensures NextByte(b) != 0 ==> Value(NextByte(b)) == Value(b) + 1
    ensures Value(0) == 0
  {
    hide Value, NumberOf;
    ValueOfZero();
    ValueIsNumber(b);
    ValueIsNumber(b + 1);
    CarryThroughBits(b);
    NumberCarry(b & 0x80 != 0, b & 0x40 != 0, b & 0x20 != 0, b & 0x10 != 0,
                b & 0x08 != 0, b & 0x04 != 0, b & 0x02 != 0, b & 0x01 != 0);
  }

  /** Bit i of b + 1 is flipped exactly when all bits below it are set in b. */
  lemma CarryThroughBits(b: byte)
    ensures (b + 1 == 0) == (b == 0xff) && (b == 0xff) == (b & 0x80 != 0 && b & 0x7f == 0x7f)
    ensures ((b + 1) & 0x80 != 0) == ((b & 0x80 != 0) != (b & 0x7f == 0x7f))
    ensures ((b + 1) & 0x40 != 0) == ((b & 0x40 != 0) != (b & 0x3f == 0x3f))
    ensures ((b + 1) & 0x20 != 0) == ((b & 0x20 != 0) != (b & 0x1f == 0x1f))
    ensures ((b + 1) & 0x10 != 0) == ((b & 0x10 != 0) != (b & 0x0f == 0x0f))
    ensures ((b + 1) & 0x08 != 0) == ((b & 0x08 != 0) != (b & 0x07 == 0x07))
    ensures ((b + 1) & 0x04 != 0) == ((b & 0x04 != 0) != (b & 0x03 == 0x03))
    ensures ((b + 1) & 0x02 != 0) == ((b & 0x02 != 0) != (b & 0x01 == 0x01))
    ensures ((b + 1) & 0x01 != 0) == !(b & 0x01 != 0)
    ensures (b & 0x7f == 0x7f) == (b & 0x40 != 0 && b & 0x3f == 0x3f)
    ensures (b & 0x3f == 0x3f) == (b & 0x20 != 0 && b & 0x1f == 0x1f)
    ensures (b & 0x1f == 0x1f) == (b & 0x10 != 0 && b & 0x0f == 0x0f)
    ensures (b & 0x0f == 0x0f) == (b & 0x08 != 0 && b & 0x07 == 0x07)
    ensures (b & 0x07 == 0x07) == (b & 0x04 != 0 && b & 0x03 == 0x03)
    ensures (b & 0x03 == 0x03) == (b & 0x02 != 0 && b & 0x01 == 0x01)
    ensures (b & 0x01 == 0x01) == (b & 0x01 != 0)
  {
  }

  lemma NumberCarry(b7: bool, b6: bool, b5: bool, b4: bool, b3: bool, b2: bool, b1: bool, b0: bool)
    ensures
      var c1 := b0;
      var c2 := b1 && c1;
      var c3 := b2 && c2;
      var c4 := b3 && c3;
      var c5 := b4 && c4;
      var c6 := b5 && c5;
      var c7 := b6 && c6;
      var v := NumberOf(b7, b6, b5, b4, b3, b2, b1, b0);
      && (v == 255 <==> b7 && c7)
      && (!(b7 && c7) ==>
            NumberOf(b7 != c7, b6 != c6, b5 != c5, b4 != c4, b3 != c3, b2 != c2, b1 != c1, !b0) == v + 1)
  {
  }

  lemma CarryStep(n: nat, v: nat, p: nat)
    requires n < p && v < 256
    ensures v == 255 ==> (256 * n + v + 1) % (256 * p) == 256 * ((n + 1) % p)
    ensures v < 255 ==> (256 * n + v + 1) % (256 * p) == 256 * n + v + 1
  {
    DivMod256(256 * n + v + 1, p);
    if v < 255 {
      assert (256 * n + v + 1) / 256 == n;
    } else {
      assert (256 * n + v + 1) / 256 == n + 1;
    }
  }

  lemma {:induction false} IncBytesCounts(s: seq<byte>)
    ensures FromBe(IncBytes(s)) == (FromBe(s) + 1) % Pow256(|s|)
  {
    hide Value, NextByte;
    if s != [] {
      var front, last := s[..|s| - 1], s[|s| - 1];
      NextByteValue(last);
      FromBeBound(front);
      CarryStep(FromBe(front), Value(last), Pow256(|s| - 1));
      if NextByte(last) == 0 {
        IncBytesCounts(front);
        assert IncBytes(s)[..|s| - 1] == IncBytes(front);
      } else {
        assert IncBytes(s)[..|s| - 1] == front;
      }
    }
  }

  lemma IncBytesIsInc(b: Block)
    ensures IncBytes(b) == Inc(b)
  {
    hide IncBytes, FromBe, ToBe, Pow256;
    IncBytesCounts(b);
    Pow256Values();
    ToFromBe(IncBytes(b));
  }

  /** The byte-by-byte increment loop of sm4_crypt_ctr. */
  method Increment(ctr: array<byte>)
    requires ctr.Length == 16
    modifies ctr
    ensures ctr[..] == Inc(old(ctr[..]))
  {
    hide Inc, NextByte;
    ghost var b: Block := ctr[..];
    IncBytesIsInc(b);
    var i := 16;
    assert b[..16] == b;
    while i > 0
      invariant 0 <= i <= 16
      invariant ctr[..i] == b[..i] && ctr[i..] == Zeros(16 - i)
      invariant IncBytes(b) == IncBytes(b[..i]) + Zeros(16 - i)
    {
      assert b[..i][..i - 1] == b[..i - 1];
      ctr[i - 1] := NextByte(ctr[i - 1]);
      if ctr[i - 1] != 0 {
        break;
      }
      i := i - 1;
    }
  }

  /** sm4_crypt_ctr */
  method CryptCtr(ctx: Context, ctr: array<byte>, input: seq<byte>, output: array<byte>, off: nat)
    requires ctx.sk.Length == 32 && ctr.Length == 16 && ctr != output
    requires |input| % 16 == 0 && off + |input| <= output.Length
    modifies ctr, output
    ensures output[..] == Splice(old(output[..]), off, Gctr(ctx.Crypt(), old(ctr[..]), 0, input))
    ensures ctr[..] == Ctr(old(ctr[..]), |input| / 16)
    ensures IsCtr(ctx.Crypt(), old(ctr[..]), input, output[off..off + |input|])
    ensures FromBe(ctr[..]) == (FromBe(old(ctr[..])) + |input| / 16) % TWO128
  {
    hide IsCtr, FromBe, Xor, Splice, Gctr, Inc, Context.Crypt, IsCipherOf;
    ghost var e, c0: Block, out0 := ctx.Crypt(), ctr[..], output[..];
    GctrNone(e, c0);
    SpliceNothing(out0, off);
    assert input[..0] == [];
    var pos := 0;
    while pos < |input|
      invariant 0 <= pos <= |input| && pos % 16 == 0
      invariant output[..] == Splice(out0, off, Gctr(e, c0, 0, input[..pos]))
      invariant ctr[..] == Ctr(c0, pos / 16)
    {
      ghost var block: Block := input[pos..pos + 16];
      assert input[..pos] + block == input[..pos + 16];
      var key := ctx.OneRound(ctr[..]);
      assert key[0..16] == key;
      GctrInBlock(e, c0, pos, block);
      GctrConcat(e, c0, 0, input[..pos], block);
      SpliceTwice(out0, off, Gctr(e, c0, 0, input[..pos]), Gctr(e, c0, pos, block));
      Memcpy(output, off + pos, Xor(input[pos..pos + 16], key));
      Increment(ctr);
      pos := pos + 16;
    }
    assert input[..pos] == input;
    GctrIs(e, c0, input);
    SpliceAt(out0, off, Gctr(e, c0, 0, input));
    assert output[off..off + |input|] == output[..][off..off + |input|];
    CounterValue(c0, |input| / 16);
  }

  /** Byte i is xored with byte i % 16 of the encryption of the counter that is i / 16 past the first. */
  ghost predicate CtrByte(f: BlockFunction, icb: Block, s: seq<byte>, r: seq<byte>, i: nat)
    requires i < |s| == |r|
  {
    exists c: Block :: FromBe(c) == (FromBe(icb) + i / 16) % TWO128 && r[i] == Xor8(s[i], f(c)[i % 16])
  }

  ghost predicate IsCtr(f: BlockFunction, icb: Block, s: seq<byte>, r: seq<byte>) {
    |r| == |s| && forall i :: 0 <= i < |s| ==> CtrByte(f, icb, s, r, i)
  }

  lemma GctrIs(f: BlockFunction, icb: Block, s: seq<byte>)
    ensures IsCtr(f, icb, s, Gctr(f, icb, 0, s))
  {
    hide FromBe, Xor8, Ctr;
    forall i | 0 <= i < |s| ensures CtrByte(f, icb, s, Gctr(f, icb, 0, s), i) {
      CounterValue(icb, i / 16);
    }
  }

  lemma GctrNone(e: BlockFunction, icb: Block)
    ensures Gctr(e, icb, 0, []) == []
  {
  }

  /** The counter is its start plus the number of blocks, modulo 2^128. */
  lemma {:induction false} CounterValue(icb: Block, k: nat)
    ensures FromBe(Ctr(icb, k)) == (FromBe(icb) + k) % TWO128
  {
    hide FromBe, ToBe, Pow256;
    Pow256Values();
    FromBeBound(icb);
    if k > 0 {
      CounterValue(icb, k - 1);
      FromToBe((FromBe(Ctr(icb, k - 1)) + 1) % TWO128, 16);
      ModAdd(FromBe(icb) + k - 1);
    }
  }

  lemma ModAdd(n: nat)
    ensures (n % TWO128 + 1) % TWO128 == (n + 1) % TWO128
  {
  }

  /** A call at the advanced counter continues the key stream of the call before it, and the stream undoes itself. */
  lemma CtrContinues(e: BlockFunction, icb: Block, a: seq<byte>, b: seq<byte>)
    requires |a| % 16 == 0
    ensures Gctr(e, icb, 0, a + b) == Gctr(e, icb, 0, a) + Gctr(e, Ctr(icb, |a| / 16), 0, b)
    ensures Gctr(e, icb, 0, Gctr(e, icb, 0, a + b)) == a + b
  {
    hide Gctr;
    GctrConcat(e, icb, 0, a, b);
    GctrShift(e, icb, |a| / 16, b);
    GctrCancels(e, icb, 0, a + b);
  }

  lemma GctrShift(e: BlockFunction, icb: Block, k: nat, b: seq<byte>)
    ensures Gctr(e, icb, 16 * k, b) == Gctr(e, Ctr(icb, k), 0, b)
  {
    hide Xor8, KeyByte;
    forall i | 0 <= i < |b| ensures Gctr(e, icb, 16 * k, b)[i] == Gctr(e, Ctr(icb, k), 0, b)[i] {
      KeyByteShift(e, icb, k, i);
    }
  }

  lemma KeyByteShift(e: BlockFunction, icb: Block, k: nat, i: nat)
    ensures KeyByte(e, icb, 16 * k + i) == KeyByte(e, Ctr(icb, k), 0 + i)
  {
    hide Ctr;
    CtrShift(icb, k, i / 16);
    assert (16 * k + i) / 16 == k + i / 16 && (16 * k + i) % 16 == i % 16;
  }

  lemma {:induction false} CtrShift(icb: Block, k: nat, j: nat)
    ensures Ctr(icb, k + j) == Ctr(Ctr(icb, k), j)
  {
    hide Inc;
    if j > 0 {
      CtrShift(icb, k, j - 1);
    }
  }

  /** Any sequence of calls is one call on everything they were given, and leaves the counter of that call. */
  method CryptCtrAll(ctx: Context, ctr: array<byte>, chunks: seq<seq<byte>>, output: array<byte>)
    requires ctx.sk.Length == 32 && ctr.Length == 16 && ctr != output
    requires BlockMultiples(chunks) && |Flatten(chunks)| == output.Length
    modifies ctr, output
    ensures output[..] == Gctr(ctx.Crypt(), old(ctr[..]), 0, Flatten(chunks))
    ensures ctr[..] == Ctr(old(ctr[..]), |Flatten(chunks)| / 16)
  {
    hide Splice, Gctr, Ctr, Flatten, BlockMultiples, Context.Crypt;
    ghost var e, c0: Block, out0 := ctx.Crypt(), ctr[..], output[..];
    var pos := 0;
    GctrNone(e, c0);
    SpliceNothing(out0, 0);
    FlattenNothing();
    CtrNone(c0);
    assert chunks[..0] == [] && chunks[..|chunks|] == chunks;
    for i := 0 to |chunks|
      invariant pos == |Flatten(chunks[..i])| <= output.Length && pos % 16 == 0
      invariant output[..] == Splice(out0, 0, Gctr(e, c0, 0, Flatten(chunks[..i])))
      invariant ctr[..] == Ctr(c0, pos / 16)
    {
      ghost var before := Flatten(chunks[..i]);
      FlattenMultiples(chunks, i);
      FlattenMultiples(chunks, i + 1);
      FlattenSnoc(chunks, i);
      FlattenPrefix(chunks, i + 1);
      CtrContinues(e, c0, before, chunks[i]);
      CtrShift(c0, pos / 16, |chunks[i]| / 16);
      BlockCounts(pos, |chunks[i]|);
      SpliceTwice(out0, 0, Gctr(e, c0, 0, before), Gctr(e, ctr[..], 0, chunks[i]));
      CryptCtr(ctx, ctr, chunks[i], output, pos);
      pos := pos + |chunks[i]|;
    }
    SpliceAll(Gctr(e, c0, 0, Flatten(chunks)));
  }

  lemma CtrNone(icb: Block)
    ensures Ctr(icb, 0) == icb
  {
  }

  // Whole operations under one key.

  /** sm4_cbc_init and any run of updates. */
  method Cbc(sbox: Sbox, mode: Mode, key: Block, iv: Block, chunks: seq<seq<byte>>) returns (r: seq<byte>)
    requires BlockMultiples(chunks)
    ensures |Flatten(chunks)| % 16 == 0
    ensures r == Crypted(mode == ENCRYPT, KeyedCrypt(sbox, mode, key), iv, Flatten(chunks))
  {
    hide Splice, Crypted, ChainAfter, Flatten, BlockMultiples, CryptWith, KeySchedule, Reversed;
    var ctx := new Context(sbox);
    var chain, output := new byte[16], new byte[|Flatten(chunks)|];
    Memcpy(chain, 0, iv);
    if mode == ENCRYPT {
      ctx.SetKeyEnc(key);
    } else {
      ctx.SetKeyDec(key);
    }
    CryptCbcAll(ctx, chain, chunks, output);
    r := output[..];
  }

  /** With the two schedules of one key, CBC decryption undoes CBC encryption. */
  lemma CbcRoundTrip(sbox: Sbox, key: Block, iv: Block, p: seq<byte>)
    requires |p| % 16 == 0
    ensures
      var c := Crypted(true, KeyedCrypt(sbox, ENCRYPT, key), iv, p);
      Crypted(false, KeyedCrypt(sbox, DECRYPT, key), iv, c) == p
  {
    hide CryptWith, Encrypted, Decrypted, KeySchedule, Reversed;
    var e, d := KeyedCrypt(sbox, ENCRYPT, key), KeyedCrypt(sbox, DECRYPT, key);
    forall b: Block ensures d(e(b)) == b {
      SchedulesInvert(sbox, key, b);
    }
    DecryptsEncrypted(d, e, iv, p);
  }

  /** Block-multiple pieces of s. */
  ghost predicate GoodCut(pieces: seq<seq<byte>>, s: seq<byte>) {
    BlockMultiples(pieces) && Flatten(pieces) == s
  }

  /** Encrypted in one run of calls and decrypted in any other: `cut` chooses the pieces of the ciphertext. */
  method CbcRunsRoundTrip(sbox: Sbox, key: Block, iv: Block, chunks: seq<seq<byte>>, cut: seq<byte> -> seq<seq<byte>>)
    returns (p: seq<byte>)
    requires BlockMultiples(chunks)
    requires forall s :: |s| % 16 == 0 ==> GoodCut(cut(s), s)
    ensures p == Flatten(chunks)
  {
    hide Crypted, Flatten, BlockMultiples, KeyedCrypt;
    var c := Cbc(sbox, ENCRYPT, key, iv, chunks);
    assert GoodCut(cut(c), c);
    p := Cbc(sbox, DECRYPT, key, iv, cut(c));
    CbcRoundTrip(sbox, key, iv, Flatten(chunks));
  }

  /** sm4_ctr_init, which has one direction only, and any run of updates. */
  method CtrMode(sbox: Sbox, key: Block, icb: Block, chunks: seq<seq<byte>>) returns (r: seq<byte>)
    requires BlockMultiples(chunks)
    ensures r == Gctr(KeyedCrypt(sbox, ENCRYPT, key), icb, 0, Flatten(chunks))
  {
    hide Splice, Gctr, Ctr, Flatten, BlockMultiples, CryptWith, KeySchedule, Reversed;
    var ctx := new Context(sbox);
    var ctr, output := new byte[16], new byte[|Flatten(chunks)|];
    Memcpy(ctr, 0, icb);
    ctx.SetKeyEnc(key);
    CryptCtrAll(ctx, ctr, chunks, output);
    r := output[..];
  }

  method CtrRunsRoundTrip(sbox: Sbox, key: Block, icb: Block, chunks: seq<seq<byte>>, cut: seq<byte> -> seq<seq<byte>>)
    returns (p: seq<byte>)
    requires BlockMultiples(chunks)
    requires forall s :: |s| % 16 == 0 ==> GoodCut(cut(s), s)
    ensures p == Flatten(chunks)
  {
    hide Gctr, Flatten, BlockMultiples, KeyedCrypt;
    FlattenMultiples(chunks, |chunks|);
    assert chunks[..|chunks|] == chunks;
    var c := CtrMode(sbox, key, icb, chunks);
    assert GoodCut(cut(c), c);
    p := CtrMode(sbox, key, icb, cut(c));
    GctrCancels(KeyedCrypt(sbox, ENCRYPT, key), icb, 0, Flatten(chunks));
  }
}
