/**
 The two multipliers behind GHASH: Shoup's 4-bit table method
 (aes-gcm-ghash-tbl.c) and the 128-step loop (internal_aes_gcm_gfmul).
 */
module Ghash {
  import opened Bytes
  import opened GaloisField

  // A block held in two 64-bit words, high-order word first, and what the word
  // operations of the source do to the bytes.

  /** The block that put_be64 writes for a pair of words. */
  function Join(h: bv64, l: bv64): Block {
    PutBe64(h) + PutBe64(l)
  }

  lemma WordByteXor(a: bv64, b: bv64, i: nat)
    requires i < 8
    ensures WordByte(a ^ b, i) == WordByte(a, i) ^ WordByte(b, i)
  {
    if i == 0 {
      assert ((a ^ b) >> 56) as byte == (a >> 56) as byte ^ (b >> 56) as byte;
    } else if i == 1 {
      assert (((a ^ b) >> 48) & 0xff) as byte == ((a >> 48) & 0xff) as byte ^ ((b >> 48) & 0xff) as byte;
    } else if i == 2 {
      assert (((a ^ b) >> 40) & 0xff) as byte == ((a >> 40) & 0xff) as byte ^ ((b >> 40) & 0xff) as byte;
    } else if i == 3 {
      assert (((a ^ b) >> 32) & 0xff) as byte == ((a >> 32) & 0xff) as byte ^ ((b >> 32) & 0xff) as byte;
    } else if i == 4 {
      assert (((a ^ b) >> 24) & 0xff) as byte == ((a >> 24) & 0xff) as byte ^ ((b >> 24) & 0xff) as byte;
    } else if i == 5 {
      assert (((a ^ b) >> 16) & 0xff) as byte == ((a >> 16) & 0xff) as byte ^ ((b >> 16) & 0xff) as byte;
    } else if i == 6 {
      assert (((a ^ b) >> 8) & 0xff) as byte == ((a >> 8) & 0xff) as byte ^ ((b >> 8) & 0xff) as byte;
    } else {
      assert ((a ^ b) & 0xff) as byte == (a & 0xff) as byte ^ (b & 0xff) as byte;
    }
  }

  lemma WordByteHigh(h: bv64, l: bv64, i: nat)
    requires i < 8
    ensures WordByte((h >> 1) ^ (if l & 1 == 1 then 0xe100_0000_0000_0000 else 0), i)
         == Xor8(Half(WordByte(h, i)), if i == 0 then Carry(WordByte(l, 7)) else LowBit(WordByte(h, i - 1)))
  {
    if i == 0 {} else if i == 1 {} else if i == 2 {} else if i == 3 {}
    else if i == 4 {} else if i == 5 {} else if i == 6 {} else {}
  }

  lemma WordByteLow(h: bv64, l: bv64, i: nat)
    requires i < 8
    ensures WordByte((h << 63) | (l >> 1), i)
         == Xor8(Half(WordByte(l, i)), LowBit(if i == 0 then WordByte(h, 7) else WordByte(l, i - 1)))
  {
    hide WordByte, Xor8, Half, LowBit;
    if i == 0 {
      WordByteFirst(h, l);
    } else {
      WordByteNext(h, l, i);
    }
  }

  lemma WordByteFirst(h: bv64, l: bv64)
    ensures WordByte((h << 63) | (l >> 1), 0) == Xor8(Half(WordByte(l, 0)), LowBit(WordByte(h, 7)))
  {
  }

  lemma WordByteNext(h: bv64, l: bv64, i: nat)
    requires 0 < i < 8
    ensures WordByte((h << 63) | (l >> 1), i) == Xor8(Half(WordByte(l, i)), LowBit(WordByte(l, i - 1)))
  {
    if i == 1 {} else if i == 2 {} else if i == 3 {}
    else if i == 4 {} else if i == 5 {} else if i == 6 {} else {}
  }

  lemma JoinAdds(h: bv64, l: bv64, h': bv64, l': bv64)
    ensures Join(h ^ h', l ^ l') == Add(Join(h, l), Join(h', l'))
  {
    hide WordByte;
    forall m | 0 <= m < 8 ensures PutBe64(h ^ h')[m] == Xor8(PutBe64(h)[m], PutBe64(h')[m]) {
      WordByteXor(h, h', m);
    }
    forall m | 0 <= m < 8 ensures PutBe64(l ^ l')[m] == Xor8(PutBe64(l)[m], PutBe64(l')[m]) {
      WordByteXor(l, l', m);
    }
    hide PutBe64;
  }

  /** One shift of a word pair is one multiplication by P. */
  lemma JoinTimesP(h: bv64, l: bv64)
    ensures
      Join((h >> 1) ^ (if l & 1 == 1 then 0xe100_0000_0000_0000 else 0), (h << 63) | (l >> 1)) == TimesP(Join(h, l))
  {
    hide WordByte, Xor8, Half, LowBit, Carry;
    var v := Join(h, l);
    var h', l' := (h >> 1) ^ (if l & 1 == 1 then 0xe100_0000_0000_0000 else 0), (h << 63) | (l >> 1);
    forall m | 0 <= m < 16 ensures Join(h', l')[m] == Xor8(Halves(v)[m], Carries(v)[m]) {
      if m < 8 {
        WordByteHigh(h, l, m);
      } else {
        WordByteLow(h, l, m - 8);
      }
    }
  }

  /** last4[rem], as the 16-bit entries of the table: rem times P^128. */
  function Last4(rem: bv4): bv64 {
    match rem
    case 0 => 0x0000 case 1 => 0x1c20 case 2 => 0x3840 case 3 => 0x2460
    case 4 => 0x7080 case 5 => 0x6ca0 case 6 => 0x48c0 case 7 => 0x54e0
    case 8 => 0xe100 case 9 => 0xfd20 case 10 => 0xd940 case 11 => 0xc560
    case 12 => 0x9180 case 13 => 0x8da0 case 14 => 0xa9c0 case 15 => 0xb5e0
  }

  function ShiftHigh(h: bv64, l: bv64): bv64 {
    (h >> 1) ^ (if l & 1 == 1 then 0xe100_0000_0000_0000 else 0)
  }

  function ShiftLow(h: bv64, l: bv64): bv64 {
    (h << 63) | (l >> 1)
  }

  lemma FourShifts(h0: bv64, l0: bv64, h1: bv64, l1: bv64, h2: bv64, l2: bv64, h3: bv64, l3: bv64)
    requires h1 == (h0 >> 1) ^ (if l0 & 1 == 1 then 0xe100_0000_0000_0000 else 0) && l1 == (h0 << 63) | (l0 >> 1)
    requires h2 == (h1 >> 1) ^ (if l1 & 1 == 1 then 0xe100_0000_0000_0000 else 0) && l2 == (h1 << 63) | (l1 >> 1)
    requires h3 == (h2 >> 1) ^ (if l2 & 1 == 1 then 0xe100_0000_0000_0000 else 0) && l3 == (h2 << 63) | (l2 >> 1)
    ensures (h3 >> 1) ^ (if l3 & 1 == 1 then 0xe100_0000_0000_0000 else 0)
         == (h0 >> 4) ^ (Last4((l0 & 0xf) as bv4) << 48)
    ensures (h3 << 63) | (l3 >> 1) == (h0 << 60) | (l0 >> 4)
  {
  }

  lemma ShiftsAre(h: bv64, l: bv64)
    ensures ShiftHigh(h, l) == (h >> 1) ^ (if l & 1 == 1 then 0xe100_0000_0000_0000 else 0)
    ensures ShiftLow(h, l) == (h << 63) | (l >> 1)
  {
  }

  lemma FourShiftsAre(h0: bv64, l0: bv64)
    ensures
      var h1, l1 := ShiftHigh(h0, l0), ShiftLow(h0, l0);
      var h2, l2 := ShiftHigh(h1, l1), ShiftLow(h1, l1);
      var h3, l3 := ShiftHigh(h2, l2), ShiftLow(h2, l2);
      && ShiftHigh(h3, l3) == (h0 >> 4) ^ (Last4((l0 & 0xf) as bv4) << 48)
      && ShiftLow(h3, l3) == (h0 << 60) | (l0 >> 4)
  {
    hide *;
    var h1, l1 := ShiftHigh(h0, l0), ShiftLow(h0, l0);
    var h2, l2 := ShiftHigh(h1, l1), ShiftLow(h1, l1);
    var h3, l3 := ShiftHigh(h2, l2), ShiftLow(h2, l2);
    ShiftsAre(h0, l0);
    ShiftsAre(h1, l1);
    ShiftsAre(h2, l2);
    ShiftsAre(h3, l3);
    FourShifts(h0, l0, h1, l1, h2, l2, h3, l3);
  }

  function TimesP4(v: Block): Block {
    TimesP(TimesP(TimesP(TimesP(v))))
  }

  /** Four shifts at once, with the bits shifted out reduced by the table. */
  lemma JoinTimesP4(h: bv64, l: bv64)
    ensures Join((h >> 4) ^ (Last4((l & 0xf) as bv4) << 48), (h << 60) | (l >> 4)) == TimesP4(Join(h, l))
  {
    hide Join, TimesP, Last4, ShiftHigh, ShiftLow;
    var h1, l1 := ShiftHigh(h, l), ShiftLow(h, l);
    var h2, l2 := ShiftHigh(h1, l1), ShiftLow(h1, l1);
    var h3, l3 := ShiftHigh(h2, l2), ShiftLow(h2, l2);
    FourShiftsAre(h, l);
    ShiftTimesP(h, l);
    ShiftTimesP(h1, l1);
    ShiftTimesP(h2, l2);
    ShiftTimesP(h3, l3);
  }

  lemma ShiftTimesP(h: bv64, l: bv64)
    ensures Join(ShiftHigh(h, l), ShiftLow(h, l)) == TimesP(Join(h, l))
  {
    hide Join, TimesP;
    JoinTimesP(h, l);
  }

  // The table of small multiples.

  /** k times v, where the high-order bit of the nibble k is the coefficient of P^0. */
  function Nibble(k: nat, v: Block): Block {
    Add(Add(if k / 8 % 2 == 1 then v else ZERO, if k / 4 % 2 == 1 then TimesP(v) else ZERO),
        Add(if k / 2 % 2 == 1 then TimesP(TimesP(v)) else ZERO, if k % 2 == 1 then TimesP(TimesP(TimesP(v))) else ZERO))
  }

  lemma NibblePowers(v: Block)
    ensures Nibble(0, v) == ZERO && Nibble(8, v) == v && Nibble(4, v) == TimesP(v)
    ensures Nibble(2, v) == TimesP(TimesP(v)) && Nibble(1, v) == TimesP(TimesP(TimesP(v)))
  {
    hide Xor, TimesP;
    var v1, v2, v3 := TimesP(v), TimesP(TimesP(v)), TimesP(TimesP(TimesP(v)));
    XorLaws(ZERO, ZERO);
    XorLaws(v, ZERO);
    XorLaws(v1, ZERO);
    XorLaws(v2, ZERO);
    XorLaws(v3, ZERO);
  }

  lemma NibbleAdds(i: nat, j: nat, v: Block)
    requires (i == 2 || i == 4 || i == 8) && j < i
    ensures Nibble(i + j, v) == Add(Nibble(i, v), Nibble(j, v))
  {
    hide Xor, TimesP;
    var v1, v2, v3 := TimesP(v), TimesP(TimesP(v)), TimesP(TimesP(TimesP(v)));
    var a, b := if j / 4 % 2 == 1 then v1 else ZERO, if j / 2 % 2 == 1 then v2 else ZERO;
    var c := if j % 2 == 1 then v3 else ZERO;
    NibblePowers(v);
    XorLaws(a, ZERO);
    XorLaws(b, ZERO);
    XorLaws(c, ZERO);
    XorLaws(Xor(b, c), ZERO);
    if i == 8 {
      XorAssociates(v, a, Xor(b, c));
    } else if i == 4 {
      assert j / 4 == 0 && (4 + j) / 4 == 1;
      XorLaws(v1, ZERO);
    } else {
      assert j / 2 == 0 && j / 4 == 0 && (2 + j) / 2 == 1 && (2 + j) / 4 == 0;
      XorLaws(Xor(v2, c), ZERO);
      XorLaws(v2, ZERO);
    }
  }

  function NibbleAt(x: Block, n: nat): nat
    requires n < 128 && n % 4 == 0
  {
    if n % 8 == 0 then (x[n / 8] >> 4) as int else (x[n / 8] & 0xf) as int
  }

  lemma NibbleBits(x: Block, n: nat)
    requires n < 128 && n % 4 == 0
    ensures NibbleAt(x, n) < 16
    ensures (NibbleAt(x, n) / 8 % 2 == 1 <==> Coeff(x, n)) && (NibbleAt(x, n) / 4 % 2 == 1 <==> Coeff(x, n + 1))
    ensures (NibbleAt(x, n) / 2 % 2 == 1 <==> Coeff(x, n + 2)) && (NibbleAt(x, n) % 2 == 1 <==> Coeff(x, n + 3))
  {
    var i := n / 8;
    if n % 8 == 0 {
      assert n == 8 * i && (n + 1) / 8 == (n + 2) / 8 == (n + 3) / 8 == i;
      assert (n + 1) % 8 == 1 && (n + 2) % 8 == 2 && (n + 3) % 8 == 3;
      HighNibble(x[i]);
    } else {
      assert n == 8 * i + 4 && (n + 1) / 8 == (n + 2) / 8 == (n + 3) / 8 == i;
      assert n % 8 == 4 && (n + 1) % 8 == 5 && (n + 2) % 8 == 6 && (n + 3) % 8 == 7;
      LowNibble(x[i]);
    }
  }

  lemma HighNibble(b: byte)
    ensures
      var k := (b >> 4) as int;
      k < 16 && (k / 8 % 2 == 1 <==> b & 0x80 != 0) && (k / 4 % 2 == 1 <==> b & 0x40 != 0)
      && (k / 2 % 2 == 1 <==> b & 0x20 != 0) && (k % 2 == 1 <==> b & 0x10 != 0)
  {
  }

  lemma LowNibble(b: byte)
    ensures
      var k := (b & 0xf) as int;
      k < 16 && (k / 8 % 2 == 1 <==> b & 0x08 != 0) && (k / 4 % 2 == 1 <==> b & 0x04 != 0)
      && (k / 2 % 2 == 1 <==> b & 0x02 != 0) && (k % 2 == 1 <==> b & 0x01 != 0)
  {
  }

  /** Horner's rule, a nibble at a time. */
  lemma NibbleStep(x: Block, v: Block, n: nat)
    requires n < 128 && n % 4 == 0
    ensures MulFrom(x, v, n) == Add(TimesP4(MulFrom(x, v, n + 4)), Nibble(NibbleAt(x, n), v))
  {
    hide Xor, TimesP, Coeff, NibbleAt, MulFrom;
    NibbleBits(x, n);
    var c0, c1 := if Coeff(x, n) then v else ZERO, if Coeff(x, n + 1) then v else ZERO;
    var c2, c3 := if Coeff(x, n + 2) then v else ZERO, if Coeff(x, n + 3) then v else ZERO;
    var z := MulFrom(x, v, n + 4);
    MulFromStep(x, v, n);
    MulFromStep(x, v, n + 1);
    MulFromStep(x, v, n + 2);
    MulFromStep(x, v, n + 3);
    var z3 := Xor(c3, TimesP(z));
    TimesPAdds(c3, TimesP(z));
    TimesPAdds(c2, TimesP(z3));
    TimesPAdds(TimesP(c3), TimesP(TimesP(z)));
    TimesPAdds(c1, TimesP(MulFrom(x, v, n + 2)));
    TimesPAdds(TimesP(c2), TimesP(TimesP(z3)));
    TimesPAdds(TimesP(TimesP(c3)), TimesP(TimesP(TimesP(z))));
    TimesPZero();
    Regroup5(c0, TimesP(c1), TimesP(TimesP(c2)), TimesP(TimesP(TimesP(c3))), TimesP4(z));
  }

  lemma Regroup5(a: Block, b: Block, c: Block, d: Block, z: Block)
    ensures Xor(a, Xor(b, Xor(c, Xor(d, z)))) == Xor(z, Xor(Xor(a, b), Xor(c, d)))
  {
    hide Xor;
    XorAssociates(c, d, z);
    XorAssociates(b, Xor(c, d), z);
    XorAssociates(a, Xor(b, Xor(c, d)), z);
    XorAssociates(a, b, Xor(c, d));
    XorLaws(Xor(Xor(a, b), Xor(c, d)), z);
  }

  lemma JoinGet(b: Block)
    ensures Join(GetBe64(b[..8]), GetBe64(b[8..])) == b
  {
    hide PutBe64, GetBe64;
    PutGetBe64(b[..8]);
    PutGetBe64(b[8..]);
  }

  // The code.

  /** The table build of struct internal_ghash_key. */
  class Table {
    const HL: array<bv64>
    const HH: array<bv64>

    constructor ()
      ensures fresh(HL) && fresh(HH) && HL != HH
      ensures HL.Length == HH.Length == 16
    {
      HL := new bv64[16];
      HH := new bv64[16];
    }

    /** Entry k holds k times h. */
    ghost predicate Entry(k: nat, h: Block)
      requires HL.Length == HH.Length == 16 && k < 16
      reads HL, HH
    {
      Join(HH[k], HL[k]) == Nibble(k, h)
    }

    ghost predicate Holds(h: Block)
      reads HL, HH
    {
      HL.Length == HH.Length == 16 && forall k: nat :: k < 16 ==> Entry(k, h)
    }

    /** internal_aes_gcm_ghash_gen_tbl */
    method GenTbl(h: Block)
      requires HL != HH && HL.Length == HH.Length == 16
      modifies HL, HH
      ensures Holds(h)
    {
      hide Join, Nibble, TimesP, GetBe64;
      var vh, vl := GetBe64(h[..8]), GetBe64(h[8..]);
      JoinGet(h);
      NibblePowers(h);
      assert Join(0, 0) == ZERO by { JoinZero(); }
      Store(8, vh, vl, h);
      Store(0, 0, 0, h);
      var i := 4;
      while i > 0
        invariant i == 4 || i == 2 || i == 1 || i == 0
        invariant Entry(0, h) && Entry(8, h)
        invariant i == 4 ==> Join(vh, vl) == h
        invariant i == 2 ==> Join(vh, vl) == TimesP(h)
        invariant i == 1 ==> Join(vh, vl) == TimesP(TimesP(h))
        invariant i < 4 ==> Entry(4, h)
        invariant i < 2 ==> Entry(2, h)
        invariant i < 1 ==> Entry(1, h)
      {
        vh, vl := ShiftBit(vh, vl);
        Store(i, vh, vl, h);
        i := i / 2;
      }
      i := 2;
      while i <= 8
        invariant i == 2 || i == 4 || i == 8 || i == 16
        invariant forall k: nat :: k < i && k < 16 ==> Entry(k, h)
        invariant i <= 2 ==> Entry(2, h)
        invariant i <= 4 ==> Entry(4, h)
        invariant i <= 8 ==> Entry(8, h)
        decreases 16 - i
      {
        FillRow(i, h);
        i := i * 2;
      }
    }

    /** The inner loop: entries i + j for 0 < j < i. */
    method FillRow(i: nat, ghost h: Block)
      requires HL != HH && HL.Length == HH.Length == 16
      requires i == 2 || i == 4 || i == 8
      requires forall k: nat :: k <= i ==> Entry(k, h)
      modifies HL, HH
      ensures forall k: nat :: k < 2 * i ==> Entry(k, h)
      ensures forall k: nat :: k >= 2 * i && k < 16 ==> HH[k] == old(HH[k]) && HL[k] == old(HL[k])
    {
      hide Join, Nibble;
      var vh, vl := HH[i], HL[i];
      assert Entry(i, h);
      var j := 1;
      while j < i
        invariant 1 <= j <= i
        invariant forall k: nat :: k < i + j ==> Entry(k, h)
        invariant forall k: nat :: k >= 2 * i && k < 16 ==> HH[k] == old(HH[k]) && HL[k] == old(HL[k])
        invariant Join(vh, vl) == Nibble(i, h)
      {
        assert Entry(j, h);
        NibbleAdds(i, j, h);
        var xh, xl := XorWords(vh, vl, HH[j], HL[j]);
        Store(i + j, xh, xl, h);
        j := j + 1;
      }
    }

    method Store(k: nat, xh: bv64, xl: bv64, ghost h: Block)
      requires HL != HH && HL.Length == HH.Length == 16 && k < 16
      modifies HL, HH
      ensures HH[k] == xh && HL[k] == xl
      ensures forall m: nat :: m < 16 && m != k ==> HH[m] == old(HH[m]) && HL[m] == old(HL[m])
      ensures forall m: nat :: m < 16 && m != k && old(Entry(m, h)) ==> Entry(m, h)
    {
      hide Join, Nibble;
      HH[k] := xh;
      HL[k] := xl;
    }

    /** internal_aes_gcm_ghash_mult_tbl */
    method MultTbl(x: Block, ghost h: Block) returns (output: Block)
      requires Holds(h)
      ensures output == Mul(x, h)
    {
      hide Join, Nibble, NibbleAt, TimesP4, MulFrom, Xor, Coeff;
      var lo, hi := NibbleAt(x, 124), 0;
      NibbleBits(x, 124);
      assert Entry(lo, h);
      var zh, zl := HH[lo], HL[lo];
      NibbleStep(x, h, 124);
      assert Join(zh, zl) == MulFrom(x, h, 124) by {
        MulFromStep(x, h, 128);
        TimesP4Zero();
        XorLaws(Join(zh, zl), ZERO);
      }
      var i := 15;
      while i >= 0
        invariant -1 <= i <= 15
        invariant Join(zh, zl) == MulFrom(x, h, if i == 15 then 124 else 8 * i + 8)
      {
        NibbleBits(x, 8 * i);
        NibbleBits(x, 8 * i + 4);
        lo, hi := NibbleAt(x, 8 * i + 4), NibbleAt(x, 8 * i);
        if i != 15 {
          zh, zl := ShiftIn(zh, zl, lo, h);
          NibbleStep(x, h, 8 * i + 4);
        }
        zh, zl := ShiftIn(zh, zl, hi, h);
        NibbleStep(x, h, 8 * i);
        i := i - 1;
      }
      output := Join(zh, zl);
    }

    /** One step of the loop above: shift by a nibble, reduce, add a table entry. */
    method ShiftIn(zh: bv64, zl: bv64, nibble: nat, ghost h: Block) returns (zh': bv64, zl': bv64)
      requires Holds(h) && nibble < 16
      ensures Join(zh', zl') == Add(TimesP4(Join(zh, zl)), Nibble(nibble, h))
    {
      hide Join, Nibble, TimesP4;
      zh', zl' := ShiftNibble(zh, zl);
      assert Entry(nibble, h);
      zh', zl' := XorWords(zh', zl', HH[nibble], HL[nibble]);
    }
  }

  method XorWords(h: bv64, l: bv64, h': bv64, l': bv64) returns (zh: bv64, zl: bv64)
    ensures Join(zh, zl) == Add(Join(h, l), Join(h', l'))
  {
    hide Join, Xor;
    JoinAdds(h, l, h', l');
    zh, zl := h ^ h', l ^ l';
  }

  method ShiftNibble(h: bv64, l: bv64) returns (zh: bv64, zl: bv64)
    ensures Join(zh, zl) == TimesP4(Join(h, l))
  {
    hide Join, TimesP4;
    JoinTimesP4(h, l);
    var rem := (l & 0xf) as bv4;
    zh, zl := (h >> 4) ^ (Last4(rem) << 48), (h << 60) | (l >> 4);
  }

  method ShiftBit(h: bv64, l: bv64) returns (zh: bv64, zl: bv64)
    ensures Join(zh, zl) == TimesP(Join(h, l))
  {
    hide Join, TimesP;
    JoinTimesP(h, l);
    zh, zl := (h >> 1) ^ (if l & 1 == 1 then 0xe100_0000_0000_0000 else 0), (h << 63) | (l >> 1);
  }

  lemma TimesP4Zero()
    ensures TimesP4(ZERO) == ZERO
  {
    hide TimesP;
    TimesPZero();
  }

  lemma JoinZero()
    ensures Join(0, 0) == ZERO
  {
  }

  /** The test x & (1 << (~n & 7)). */
  predicate TestBit(x: byte, n: nat) {
    x & ((1 as byte) << (7 - n % 8)) != 0
  }

  lemma TestBitIsCoeff(x: Block, n: nat)
    requires n < 128
    ensures TestBit(x[n / 8], n) == Coeff(x, n)
  {
    var j := n % 8;
    if j == 0 {} else if j == 1 {} else if j == 2 {} else if j == 3 {}
    else if j == 4 {} else if j == 5 {} else if j == 6 {} else {}
  }

  /** internal_aes_gcm_gfmul */
  method Gfmul(X: Block, Y: Block) returns (product: Block)
    ensures product == Mul(X, Y)
  {
    hide Join, TimesP, MulFrom, GetBe64, TestBit, Coeff, Xor;
    var y0, y1 := GetBe64(Y[..8]), GetBe64(Y[8..]);
    var z0: bv64, z1: bv64 := 0, 0;
    JoinGet(Y);
    JoinZero();
    XorLaws(MulFrom(X, Y, 0), ZERO);
    for n := 0 to 128
      invariant Mul(X, Y) == Add(Join(z0, z1), MulFrom(X, Join(y0, y1), n))
    {
      MulFromStep(X, Join(y0, y1), n);
      TestBitIsCoeff(X, n);
      ghost var z, v := Join(z0, z1), Join(y0, y1);
      ghost var rest := MulFrom(X, TimesP(v), n + 1);
      if TestBit(X[n / 8], n) {
        z0, z1 := XorWords(z0, z1, y0, y1);
        XorAssociates(z, v, rest);
      } else {
        XorLaws(ZERO, rest);
        XorLaws(rest, ZERO);
      }
      y0, y1 := ShiftBit(y0, y1);
    }
    MulFromStep(X, Join(y0, y1), 128);
    XorLaws(Join(z0, z1), ZERO);
    product := Join(z0, z1);
  }
}
