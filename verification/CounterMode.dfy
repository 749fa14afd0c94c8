/** Counter mode over 128-bit big-endian counters. */
module CounterMode {
  import opened Arith
  import opened Bytes

  type Cipher = Block -> Block

  /** The next counter block of the source: all 128 bits count. */
  function Inc(b: Block): Block {
    ToBe((FromBe(b) + 1) % TWO128, 16)
  }

  /** The k-th counter block from icb on. */
  function Ctr(icb: Block, k: nat): Block {
    if k == 0 then icb else Inc(Ctr(icb, k - 1))
  }

  // The cipher stream.

  function KeyByte(E: Cipher, icb: Block, i: nat): byte {
    E(Ctr(icb, i / 16))[i % 16]
  }

  /** p xored with the key stream from byte `from` on. */
  function Gctr(E: Cipher, icb: Block, from: nat, p: seq<byte>): (c: seq<byte>)
    ensures |c| == |p|
  {
    seq(|p|, i requires 0 <= i < |p| => Xor8(p[i], KeyByte(E, icb, from + i)))
  }

  lemma GctrConcat(E: Cipher, icb: Block, from: nat, a: seq<byte>, b: seq<byte>)
    ensures Gctr(E, icb, from, a + b) == Gctr(E, icb, from, a) + Gctr(E, icb, from + |a|, b)
  {
    hide KeyByte, Xor8;
    forall i | 0 <= i < |a + b|
      ensures Gctr(E, icb, from, a + b)[i] == (Gctr(E, icb, from, a) + Gctr(E, icb, from + |a|, b))[i]
    {
      if i >= |a| {
        assert from + i == (from + |a|) + (i - |a|);
      }
    }
  }

  /** Inside one block the key stream is a slice of one encrypted counter. */
  lemma GctrInBlock(E: Cipher, icb: Block, from: nat, p: seq<byte>)
    requires from % 16 + |p| <= 16
    ensures Gctr(E, icb, from, p) == Xor(p, E(Ctr(icb, from / 16))[from % 16..from % 16 + |p|])
  {
    hide Xor8, KeyByte, Ctr;
    var k := E(Ctr(icb, from / 16))[from % 16..from % 16 + |p|];
    forall i | 0 <= i < |p| ensures Gctr(E, icb, from, p)[i] == Xor(p, k)[i] {
      KeyByteInBlock(E, icb, from, i);
    }
  }

  lemma KeyByteInBlock(E: Cipher, icb: Block, from: nat, i: nat)
    requires from % 16 + i < 16
    ensures KeyByte(E, icb, from + i) == E(Ctr(icb, from / 16))[from % 16 + i]
  {
    assert (from + i) / 16 == from / 16 && (from + i) % 16 == from % 16 + i;
  }

  lemma GctrCancels(E: Cipher, icb: Block, from: nat, p: seq<byte>)
    ensures Gctr(E, icb, from, Gctr(E, icb, from, p)) == p
  {
    hide KeyByte, Xor8;
    forall i | 0 <= i < |p| ensures Gctr(E, icb, from, Gctr(E, icb, from, p))[i] == p[i] {
      var k := KeyByte(E, icb, from + i);
      Xor8Laws(p[i], k, k);
      Xor8Laws(k, k, 0);
      Xor8Laws(p[i], 0, 0);
    }
  }
}
