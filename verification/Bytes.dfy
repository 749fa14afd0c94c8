/** Bytes, 16-byte blocks and big-endian words, shared by all the modes. */
module Bytes {
  import opened Arith

  type byte = bv8

  const BLOCK_SIZE: nat := 16

  /** A 16-byte block. */
  type Block = b: seq<byte> | |b| == 16 witness seq(16, _ => 0 as byte)

  /** Number of blocks, a short last one included. */
  function Blocks(len: nat): nat {
    (len + 15) / 16
  }

  function Zeros(n: nat): (z: seq<byte>)
    ensures |z| == n && forall i :: 0 <= i < n ==> z[i] == 0
  {
    seq(n, _ => 0 as byte)
  }

  /** Exclusive or of two bytes, named so that proofs can treat it as a symbol. */
  function Xor8(a: byte, b: byte): byte { a ^ b }

  lemma Xor8Laws(a: byte, b: byte, c: byte)
    ensures Xor8(a, b) == Xor8(b, a) && Xor8(a, 0) == a && Xor8(a, a) == 0
    ensures Xor8(Xor8(a, b), c) == Xor8(a, Xor8(b, c))
  {
  }

  /** Bytewise exclusive or of two strings of equal length. */
  function Xor(a: seq<byte>, b: seq<byte>): (r: seq<byte>)
    requires |a| == |b|
    ensures |r| == |a|
  {
    seq(|a|, i requires 0 <= i < |a| => Xor8(a[i], b[i]))
  }

  lemma XorAssociates(a: seq<byte>, b: seq<byte>, c: seq<byte>)
    requires |a| == |b| == |c|
    ensures Xor(Xor(a, b), c) == Xor(a, Xor(b, c))
  {
    hide Xor8;
    forall i | 0 <= i < |a| ensures Xor(Xor(a, b), c)[i] == Xor(a, Xor(b, c))[i] {
      Xor8Laws(a[i], b[i], c[i]);
    }
  }

  lemma XorLaws(a: seq<byte>, b: seq<byte>)
    requires |a| == |b|
    ensures Xor(a, b) == Xor(b, a)
    ensures Xor(a, Zeros(|a|)) == a && Xor(Zeros(|a|), a) == a
    ensures Xor(a, a) == Zeros(|a|)
  {
    hide Xor8;
    forall i | 0 <= i < |a|
      ensures Xor8(a[i], b[i]) == Xor8(b[i], a[i]) && Xor8(a[i], 0) == a[i] && Xor8(0, a[i]) == a[i]
           && Xor8(a[i], a[i]) == 0
    {
      Xor8Laws(a[i], b[i], 0);
      Xor8Laws(a[i], 0, 0);
    }
  }

  lemma XorCancels(a: seq<byte>, b: seq<byte>)
    requires |a| == |b|
    ensures Xor(Xor(a, b), b) == a && Xor(b, Xor(b, a)) == a
  {
    hide Xor;
    XorAssociates(a, b, b);
    XorAssociates(b, b, a);
    XorLaws(a, b);
    XorLaws(b, a);
  }

  lemma XorRegroups(a: seq<byte>, b: seq<byte>, c: seq<byte>, d: seq<byte>)
    requires |a| == |b| == |c| == |d|
    ensures Xor(Xor(a, b), Xor(c, d)) == Xor(Xor(a, c), Xor(b, d))
  {
    hide Xor;
    XorAssociates(a, b, Xor(c, d));
    XorAssociates(b, c, d);
    XorLaws(b, c);
    XorAssociates(c, b, d);
    XorAssociates(a, c, Xor(b, d));
  }

  function GetBe64(b: seq<byte>): bv64
    requires |b| == 8
  {
    (b[0] as bv64 << 56) | (b[1] as bv64 << 48) | (b[2] as bv64 << 40) | (b[3] as bv64 << 32) |
    (b[4] as bv64 << 24) | (b[5] as bv64 << 16) | (b[6] as bv64 << 8) | (b[7] as bv64)
  }

  /** Byte i of a word, the most significant one first. */
  function WordByte(w: bv64, i: nat): byte
    requires i < 8
  {
    match i
    case 0 => (w >> 56) as byte
    case 1 => ((w >> 48) & 0xff) as byte
    case 2 => ((w >> 40) & 0xff) as byte
    case 3 => ((w >> 32) & 0xff) as byte
    case 4 => ((w >> 24) & 0xff) as byte
    case 5 => ((w >> 16) & 0xff) as byte
    case 6 => ((w >> 8) & 0xff) as byte
    case 7 => (w & 0xff) as byte
  }

  function PutBe64(w: bv64): (b: seq<byte>)
    ensures |b| == 8
  {
    seq(8, i requires 0 <= i < 8 => WordByte(w, i))
  }

  lemma PutGetBe64(b: seq<byte>)
    requires |b| == 8
    ensures PutBe64(GetBe64(b)) == b
  {
    forall i | 0 <= i < 8 ensures WordByte(GetBe64(b), i) == b[i] {
      if i == 0 {} else if i == 1 {} else if i == 2 {} else if i == 3 {}
      else if i == 4 {} else if i == 5 {} else if i == 6 {} else {}
    }
  }

  /** GET_UINT32_BE */
  function GetBe32(b: seq<byte>): bv32
    requires |b| == 4
  {
    (b[0] as bv32 << 24) | (b[1] as bv32 << 16) | (b[2] as bv32 << 8) | b[3] as bv32
  }

  /** PUT_UINT32_BE */
  function PutBe32(w: bv32): (b: seq<byte>)
    ensures |b| == 4
  {
    [(w >> 24) as byte, ((w >> 16) & 0xff) as byte, ((w >> 8) & 0xff) as byte, (w & 0xff) as byte]
  }

  lemma GetPutBe32(w: bv32)
    ensures GetBe32(PutBe32(w)) == w
  {
  }

  lemma PutGetBe32(b: seq<byte>)
    requires |b| == 4
    ensures PutBe32(GetBe32(b)) == b
  {
  }

  /** w is the big-endian word of these four bytes. */
  predicate IsWord(w: bv32, b: seq<byte>) {
    && |b| == 4 && b[0] == (w >> 24) as byte && b[1] == ((w >> 16) & 0xff) as byte
    && b[2] == ((w >> 8) & 0xff) as byte && b[3] == (w & 0xff) as byte
  }

  lemma PutIsWord(w: bv32)
    ensures IsWord(w, PutBe32(w))
  {
  }

  lemma GetIsWord(b: seq<byte>)
    requires |b| == 4
    ensures IsWord(GetBe32(b), b)
  {
  }

  // Big-endian numbers.

  function Bit0(b: byte): bool { b & 1 != 0 }

  function ShiftIn(x: byte, b: bool): byte { (x << 1) | (if b then 1 else 0) }

  /** The number a byte stands for. */
  function Value(b: byte): nat
    decreases b
  {
    if b == 0 then 0 else 2 * Value(b >> 1) + if Bit0(b) then 1 else 0
  }

  /** The byte of the low-order eight bits of n: higher ones are shifted out. */
  function LowByte(n: nat): byte {
    if n == 0 then 0 else ShiftIn(LowByte(n / 2), n % 2 == 1)
  }

  /** The number with these bits, most significant one first. */
  function NumberOf(b7: bool, b6: bool, b5: bool, b4: bool, b3: bool, b2: bool, b1: bool, b0: bool): (v: nat)
    ensures v < 256
  {
    (if b7 then 0x80 else 0) + (if b6 then 0x40 else 0) + (if b5 then 0x20 else 0) + (if b4 then 0x10 else 0) +
    (if b3 then 0x08 else 0) + (if b2 then 0x04 else 0) + (if b1 then 0x02 else 0) + (if b0 then 0x01 else 0)
  }

  lemma ValueStep(b: byte)
    ensures Value(b) == 2 * Value(b >> 1) + if b & 1 != 0 then 1 else 0
  {
    assert b == 0 ==> b >> 1 == 0 && b & 1 == 0;
  }

  /** Four steps at once. */
  lemma ValueFour(b: byte)
    ensures Value(b) == 16 * Value(b >> 4) + (if b & 8 != 0 then 8 else 0) + (if b & 4 != 0 then 4 else 0)
                      + (if b & 2 != 0 then 2 else 0) + (if b & 1 != 0 then 1 else 0)
  {
    hide Value;
    ValueStep(b);
    ValueStep(b >> 1);
    ValueStep(b >> 2);
    ValueStep(b >> 3);
    Shifts(b);
  }

  lemma Shifts(b: byte)
    ensures (b >> 1) >> 1 == b >> 2 && (b >> 2) >> 1 == b >> 3 && (b >> 3) >> 1 == b >> 4
    ensures ((b >> 1) & 1 != 0) == (b & 2 != 0) && ((b >> 2) & 1 != 0) == (b & 4 != 0)
    ensures ((b >> 3) & 1 != 0) == (b & 8 != 0)
  {
  }

  lemma ValueIsNumber(b: byte)
    ensures Value(b) == NumberOf(b & 0x80 != 0, b & 0x40 != 0, b & 0x20 != 0, b & 0x10 != 0,
                                 b & 0x08 != 0, b & 0x04 != 0, b & 0x02 != 0, b & 0x01 != 0)
  {
    hide Value;
    ValueFour(b);
    ValueFour(b >> 4);
    HighNibble(b);
    ValueOfZero();
  }

  lemma HighNibble(b: byte)
    ensures (b >> 4) >> 4 == 0
    ensures ((b >> 4) & 8 != 0) == (b & 0x80 != 0) && ((b >> 4) & 4 != 0) == (b & 0x40 != 0)
    ensures ((b >> 4) & 2 != 0) == (b & 0x20 != 0) && ((b >> 4) & 1 != 0) == (b & 0x10 != 0)
  {
  }

  lemma ValueOfZero()
    ensures Value(0) == 0
  {
  }

  lemma ShiftInBits(x: byte, c: bool)
    ensures var y := (x << 1) | (if c then 1 else 0);
      && (y & 0x80 != 0) == (x & 0x40 != 0) && (y & 0x40 != 0) == (x & 0x20 != 0) && (y & 0x20 != 0) == (x & 0x10 != 0)
      && (y & 0x10 != 0) == (x & 0x08 != 0) && (y & 0x08 != 0) == (x & 0x04 != 0) && (y & 0x04 != 0) == (x & 0x02 != 0)
      && (y & 0x02 != 0) == (x & 0x01 != 0) && (y & 0x01 != 0) == c
  {
  }

  lemma TwiceMod(v: nat)
    requires v < 256
    ensures 2 * v % 256 == if v < 128 then 2 * v else 2 * v - 256
  {
  }

  lemma NumberShiftIn(b7: bool, b6: bool, b5: bool, b4: bool, b3: bool, b2: bool, b1: bool, b0: bool, c: bool)
    ensures NumberOf(b6, b5, b4, b3, b2, b1, b0, c)
         == 2 * NumberOf(b7, b6, b5, b4, b3, b2, b1, b0) % 256 + if c then 1 else 0
  {
    TwiceMod(NumberOf(b7, b6, b5, b4, b3, b2, b1, b0));
  }

  lemma ValueShiftIn(x: byte, c: bool)
    ensures Value(ShiftIn(x, c)) == 2 * Value(x) % 256 + if c then 1 else 0
  {
    hide Value, NumberOf;
    ValueIsNumber(x);
    ValueIsNumber((x << 1) | (if c then 1 else 0));
    ShiftInBits(x, c);
    NumberShiftIn(x & 0x80 != 0, x & 0x40 != 0, x & 0x20 != 0, x & 0x10 != 0,
                  x & 0x08 != 0, x & 0x04 != 0, x & 0x02 != 0, x & 0x01 != 0, c);
  }

  lemma HalfMod(n: nat)
    ensures 2 * (n / 2 % 256) % 256 + n % 2 == n % 256
  {
    var q, r, c := n / 2 / 256, n / 2 % 256, n % 2;
    assert n == 512 * q + 2 * r + c;
    TwiceMod(r);
    if r < 128 {
      DivModUnique(n, 256, 2 * q, 2 * r + c);
    } else {
      DivModUnique(n, 256, 2 * q + 1, 2 * r - 256 + c);
    }
  }

  lemma {:induction false} LowByteValue(n: nat)
    ensures Value(LowByte(n)) == n % 256
  {
    hide Value, ShiftIn;
    if n == 0 {
      ValueOfZero();
    } else {
      LowByteValue(n / 2);
      ValueShiftIn(LowByte(n / 2), n % 2 == 1);
      HalfMod(n);
    }
  }

  /** Two bytes that differ in their highest differing bit differ in value. */
  lemma ValueInjective(x: byte, y: byte)
    requires Value(x) == Value(y)
    ensures x == y
  {
    hide Value;
    ValueIsNumber(x);
    ValueIsNumber(y);
    SameBits(x, y);
  }

  lemma SameBits(x: byte, y: byte)
    requires (x & 0x80 != 0) == (y & 0x80 != 0) && (x & 0x40 != 0) == (y & 0x40 != 0)
    requires (x & 0x20 != 0) == (y & 0x20 != 0) && (x & 0x10 != 0) == (y & 0x10 != 0)
    requires (x & 0x08 != 0) == (y & 0x08 != 0) && (x & 0x04 != 0) == (y & 0x04 != 0)
    requires (x & 0x02 != 0) == (y & 0x02 != 0) && (x & 0x01 != 0) == (y & 0x01 != 0)
    ensures x == y
  {
  }

  lemma ByteValues(b: byte, n: nat)
    ensures Value(b) < 256 && Value(LowByte(n)) == n % 256 && LowByte(256 * n + Value(b)) == b
  {
    hide Value, LowByte, NumberOf;
    ValueIsNumber(b);
    LowByteValue(n);
    LowByteValue(256 * n + Value(b));
    ValueInjective(b, LowByte(256 * n + Value(b)));
  }

  function Pow256(n: nat): (p: nat)
    ensures p > 0
  {
    if n == 0 then 1 else 256 * Pow256(n - 1)
  }

  function FromBe(s: seq<byte>): nat {
    if s == [] then 0 else 256 * FromBe(s[..|s| - 1]) + Value(s[|s| - 1])
  }

  /** The low-order len bytes of n. */
  function ToBe(n: nat, len: nat): (s: seq<byte>)
    ensures |s| == len
  {
    if len == 0 then [] else ToBe(n / 256, len - 1) + [LowByte(n)]
  }

  lemma {:induction false} FromBeBound(s: seq<byte>)
    ensures FromBe(s) < Pow256(|s|)
  {
    hide Value;
    if s != [] {
      FromBeBound(s[..|s| - 1]);
      ByteValues(s[|s| - 1], 0);
    }
  }

  lemma {:induction false} ToFromBe(s: seq<byte>)
    ensures ToBe(FromBe(s), |s|) == s
  {
    hide Value, LowByte;
    if s != [] {
      var b, n := s[|s| - 1], FromBe(s[..|s| - 1]);
      ToFromBe(s[..|s| - 1]);
      ByteValues(b, n);
      DivModUnique(256 * n + Value(b), 256, n, Value(b));
    }
  }

  lemma {:induction false} FromToBe(n: nat, len: nat)
    ensures FromBe(ToBe(n, len)) == n % Pow256(len)
  {
    hide Value, LowByte;
    if len > 0 {
      FromToBe(n / 256, len - 1);
      assert ToBe(n, len)[..len - 1] == ToBe(n / 256, len - 1);
      DivMod256(n, Pow256(len - 1));
      ByteValues(0, n);
    }
  }

  lemma {:induction false} FromBeConcat(a: seq<byte>, b: seq<byte>)
    ensures FromBe(a + b) == FromBe(a) * Pow256(|b|) + FromBe(b)
  {
    hide Value;
    if b == [] {
      assert a + b == a;
    } else {
      assert (a + b)[..|a + b| - 1] == a + b[..|b| - 1];
      FromBeConcat(a, b[..|b| - 1]);
      ShiftedSum(FromBe(a), Pow256(|b| - 1), FromBe(b[..|b| - 1]), Value(b[|b| - 1]));
    }
  }

  lemma {:induction false} ZerosAreZero(n: nat)
    ensures FromBe(Zeros(n)) == 0 && ToBe(0, n) == Zeros(n)
  {
    if n > 0 {
      ZerosAreZero(n - 1);
      assert Zeros(n)[..n - 1] == Zeros(n - 1);
      assert Zeros(n) == Zeros(n - 1) + [0];
      ByteValues(0, 0);
    }
  }

  lemma FromBeOne()
    ensures FromBe([1]) == 1
  {
    assert FromBe([1]) == 256 * FromBe([]) + Value(1);
  }

  lemma Pow256Values()
    ensures Pow256(4) == 0x1_0000_0000
    ensures Pow256(8) == 0x1_0000_0000_0000_0000
    ensures Pow256(16) == 0x1_0000_0000_0000_0000_0000_0000_0000_0000
  {
    assert Pow256(4) == 256 * Pow256(3) && Pow256(2) == 65536;
    assert Pow256(8) == 256 * Pow256(7) && Pow256(6) == 65536 * Pow256(4);
    assert Pow256(12) == 65536 * 65536 * Pow256(8);
    assert Pow256(16) == 65536 * 65536 * Pow256(12);
  }

  lemma FromToBe4(n: nat)
    requires n < 0x1_0000_0000
    ensures FromBe(ToBe(n, 4)) == n
  {
    hide FromBe, ToBe, Pow256;
    FromToBe(n, 4);
    Pow256Values();
  }

  /** An 8-byte field holds a number modulo 2^64. */
  lemma ToBe8Mod(n: nat)
    ensures ToBe(n % 0x1_0000_0000_0000_0000, 8) == ToBe(n, 8)
  {
    hide FromBe, ToBe, Pow256;
    FromToBe(n, 8);
    Pow256Values();
    ToFromBe(ToBe(n, 8));
  }

  lemma TwoHalves(high: nat, low: nat)
    requires high < 0x1_0000_0000 && low < 0x1_0000_0000
    ensures ToBe(high, 4) + ToBe(low, 4) == ToBe(high * 0x1_0000_0000 + low, 8)
  {
    hide FromBe, ToBe, Pow256;
    var r := ToBe(high, 4) + ToBe(low, 4);
    FromToBe4(high);
    FromToBe4(low);
    FromBeConcat(ToBe(high, 4), ToBe(low, 4));
    Pow256Values();
    ToFromBe(r);
  }

  // Strings fed in pieces.

  function Flatten(chunks: seq<seq<byte>>): seq<byte> {
    if chunks == [] then [] else Flatten(chunks[..|chunks| - 1]) + chunks[|chunks| - 1]
  }

  lemma FlattenNothing()
    ensures Flatten([]) == []
  {
  }

  lemma FlattenSnoc(chunks: seq<seq<byte>>, i: nat)
    requires i < |chunks|
    ensures Flatten(chunks[..i + 1]) == Flatten(chunks[..i]) + chunks[i]
  {
    assert chunks[..i + 1][..i] == chunks[..i];
  }

  lemma {:induction false} FlattenPrefix(chunks: seq<seq<byte>>, i: nat)
    requires i <= |chunks|
    ensures |Flatten(chunks[..i])| <= |Flatten(chunks)|
    decreases |chunks| - i
  {
    if i == |chunks| {
      assert chunks[..i] == chunks;
    } else {
      FlattenSnoc(chunks, i);
      FlattenPrefix(chunks, i + 1);
    }
  }
}
