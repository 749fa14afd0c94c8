/**
 The field GF(2^128) of GCM: a block is the polynomial whose coefficient of P^n
 is bit n, bit 0 being the high-order bit of the first byte.
 */
module GaloisField {
  import opened Bytes

  function BitMask(j: nat): byte
    requires j < 8
  {
    match j
    case 0 => 0x80
    case 1 => 0x40
    case 2 => 0x20
    case 3 => 0x10
    case 4 => 0x08
    case 5 => 0x04
    case 6 => 0x02
    case 7 => 0x01
  }

  /** The coefficient of P^n. */
  predicate Coeff(x: Block, n: nat)
    requires n < 128
  {
    x[n / 8] & BitMask(n % 8) != 0
  }

  const ZERO: Block := Zeros(16)
  const ONE: Block := [0x80 as byte] + Zeros(15)

  function Add(a: Block, b: Block): Block {
    Xor(a, b)
  }

  /** P^128 reduced modulo the field polynomial P^128 + P^7 + P^2 + P + 1, as the first byte of a block. */
  function Carry(last: byte): byte {
    if last & 1 == 1 then 0xe1 else 0
  }

  function Half(b: byte): byte { b >> 1 }

  function LowBit(b: byte): byte { b << 7 }

  /** Every byte of v shifted right by one. */
  function Halves(v: Block): Block {
    seq(16, i requires 0 <= i < 16 => Half(v[i]))
  }

  /** What every byte of P * v receives from the bit shifted out of its neighbour. */
  function Carries(v: Block): Block {
    seq(16, i requires 0 <= i < 16 => if i == 0 then Carry(v[15]) else LowBit(v[i - 1]))
  }

  /** P * v. */
  function TimesP(v: Block): Block {
    Add(Halves(v), Carries(v))
  }

  /** The sum over m >= n of Coeff(x, m) * P^(m - n) * v. */
  function MulFrom(x: Block, v: Block, n: nat): Block
    requires n <= 128
    decreases 128 - n
  {
    if n == 128 then ZERO
    else Add(if Coeff(x, n) then v else ZERO, MulFrom(x, TimesP(v), n + 1))
  }

  /** The product, in the order of summation of section 6.3 of NIST SP 800-38D. */
  function Mul(x: Block, v: Block): Block {
    MulFrom(x, v, 0)
  }

  lemma ShiftsAdd(a: byte, b: byte)
    ensures Half(Xor8(a, b)) == Xor8(Half(a), Half(b)) && LowBit(Xor8(a, b)) == Xor8(LowBit(a), LowBit(b))
    ensures Carry(Xor8(a, b)) == Xor8(Carry(a), Carry(b))
  {
  }

  lemma HalvesAdd(a: Block, b: Block)
    ensures Halves(Add(a, b)) == Add(Halves(a), Halves(b))
  {
    hide Carry, Half, LowBit, Xor8;
    forall i | 0 <= i < 16 ensures Halves(Add(a, b))[i] == Add(Halves(a), Halves(b))[i] {
      ShiftsAdd(a[i], b[i]);
    }
  }

  lemma CarriesAdd(a: Block, b: Block)
    ensures Carries(Add(a, b)) == Add(Carries(a), Carries(b))
  {
    hide Carry, Half, LowBit, Xor8;
    forall i | 0 <= i < 16 ensures Carries(Add(a, b))[i] == Add(Carries(a), Carries(b))[i] {
      ShiftsAdd(a[if i == 0 then 15 else i - 1], b[if i == 0 then 15 else i - 1]);
    }
  }

  lemma TimesPAdds(a: Block, b: Block)
    ensures TimesP(Add(a, b)) == Add(TimesP(a), TimesP(b))
  {
    hide Xor, Halves, Carries;
    HalvesAdd(a, b);
    CarriesAdd(a, b);
    XorRegroups(Halves(a), Halves(b), Carries(a), Carries(b));
  }

  lemma {:induction false} MulFromAdds(x: Block, u: Block, v: Block, n: nat)
    requires n <= 128
    ensures MulFrom(x, Add(u, v), n) == Add(MulFrom(x, u, n), MulFrom(x, v, n))
    decreases 128 - n
  {
    hide Xor, TimesP, Coeff;
    XorLaws(ZERO, ZERO);
    if n < 128 {
      TimesPAdds(u, v);
      MulFromAdds(x, TimesP(u), TimesP(v), n + 1);
      var t := Coeff(x, n);
      XorRegroups(if t then u else ZERO, if t then v else ZERO,
                  MulFrom(x, TimesP(u), n + 1), MulFrom(x, TimesP(v), n + 1));
    }
  }

  lemma TimesPZero()
    ensures TimesP(ZERO) == ZERO
  {
    hide Half, LowBit, Carry, Xor8;
    ShiftsOfZero();
    Xor8Laws(0, 0, 0);
  }

  lemma ShiftsOfZero()
    ensures Half(0) == 0 && LowBit(0) == 0 && Carry(0) == 0
  {
  }

  lemma {:induction false} MulFromScales(x: Block, v: Block, n: nat)
    requires n <= 128
    ensures MulFrom(x, TimesP(v), n) == TimesP(MulFrom(x, v, n))
    decreases 128 - n
  {
    hide Xor, TimesP, Coeff;
    TimesPZero();
    if n < 128 {
      MulFromScales(x, TimesP(v), n + 1);
      TimesPAdds(if Coeff(x, n) then v else ZERO, MulFrom(x, TimesP(v), n + 1));
    }
  }

  // ONE is a unit: summing Coeff(x, m) * P^m over all m rebuilds x.

  /** The byte that `here` becomes when the string is shifted left by j bits in front of `next`. */
  function ShiftedIn(here: byte, next: byte, j: nat): byte
    requires j <= 8
  {
    match j
    case 0 => here
    case 1 => (here << 1) | (next >> 7)
    case 2 => (here << 2) | (next >> 6)
    case 3 => (here << 3) | (next >> 5)
    case 4 => (here << 4) | (next >> 4)
    case 5 => (here << 5) | (next >> 3)
    case 6 => (here << 6) | (next >> 2)
    case 7 => (here << 7) | (next >> 1)
    case 8 => next
  }

  function ByteAt(x: Block, m: nat): byte {
    if m < 16 then x[m] else 0
  }

  /** The element whose coefficient of P^m is that of P^(8 * i + j + m) in x. */
  function Tail(x: Block, i: nat, j: nat): Block
    requires j <= 8
  {
    seq(16, m requires 0 <= m < 16 => ShiftedIn(ByteAt(x, i + m), ByteAt(x, i + m + 1), j))
  }

  lemma ShiftedInStep(before: byte, here: byte, next: byte, j: nat)
    requires j < 8
    ensures Xor8(Half(ShiftedIn(here, next, j + 1)), LowBit(ShiftedIn(before, here, j + 1))) == ShiftedIn(here, next, j)
  {
    if j == 0 {} else if j == 1 {} else if j == 2 {} else if j == 3 {}
    else if j == 4 {} else if j == 5 {} else if j == 6 {} else {}
  }

  lemma ShiftedInFirst(here: byte, next: byte, j: nat)
    requires j < 8
    ensures
      Xor8(if here & BitMask(j) != 0 then 0x80 else 0, Half(ShiftedIn(here, next, j + 1))) == ShiftedIn(here, next, j)
  {
    if j == 0 {} else if j == 1 {} else if j == 2 {} else if j == 3 {}
    else if j == 4 {} else if j == 5 {} else if j == 6 {} else {}
  }

  lemma ShiftedInLast(here: byte, j: nat)
    requires j < 8
    ensures Carry(ShiftedIn(here, 0, j + 1)) == 0
  {
    if j == 0 {} else if j == 1 {} else if j == 2 {} else if j == 3 {}
    else if j == 4 {} else if j == 5 {} else if j == 6 {} else {}
  }

  lemma TailStepFirst(x: Block, i: nat, j: nat)
    requires i < 16 && j < 8
    ensures Add(if Coeff(x, 8 * i + j) then ONE else ZERO, TimesP(Tail(x, i, j + 1)))[0] == Tail(x, i, j)[0]
  {
    hide Xor8, Half, LowBit, Carry, ShiftedIn, BitMask;
    var t := if Coeff(x, 8 * i + j) then ONE else ZERO;
    var v := Tail(x, i, j + 1);
    var here, next := ByteAt(x, i), ByteAt(x, i + 1);
    assert (8 * i + j) / 8 == i && (8 * i + j) % 8 == j;
    ShiftedInFirst(here, next, j);
    ShiftedInLast(ByteAt(x, i + 15), j);
    Xor8Laws(t[0], Half(v[0]), 0);
    Xor8Laws(Half(v[0]), 0, 0);
    assert t[0] == if here & BitMask(j) != 0 then 0x80 else 0;
    if i == 0 {
      assert v[15] == ShiftedIn(x[15], 0, j + 1);
    }
  }

  lemma TailStepNext(x: Block, i: nat, j: nat, m: nat)
    requires i < 16 && j < 8 && 1 <= m < 16
    ensures Add(if Coeff(x, 8 * i + j) then ONE else ZERO, TimesP(Tail(x, i, j + 1)))[m] == Tail(x, i, j)[m]
  {
    hide Xor8, Half, LowBit, Carry, ShiftedIn, BitMask, Coeff;
    var t, v := if Coeff(x, 8 * i + j) then ONE else ZERO, Tail(x, i, j + 1);
    ShiftedInStep(ByteAt(x, i + m - 1), ByteAt(x, i + m), ByteAt(x, i + m + 1), j);
    assert t[m] == 0;
    var moved := Xor8(Half(v[m]), LowBit(v[m - 1]));
    assert TimesP(v)[m] == moved;
    Xor8Laws(moved, 0, 0);
    Xor8Laws(0, moved, 0);
  }

  lemma TailStep(x: Block, i: nat, j: nat)
    requires i < 16 && j < 8
    ensures Add(if Coeff(x, 8 * i + j) then ONE else ZERO, TimesP(Tail(x, i, j + 1))) == Tail(x, i, j)
  {
    hide Add, TimesP, Tail, Coeff;
    TailStepFirst(x, i, j);
    forall m | 1 <= m < 16
      ensures Add(if Coeff(x, 8 * i + j) then ONE else ZERO, TimesP(Tail(x, i, j + 1)))[m] == Tail(x, i, j)[m]
    {
      TailStepNext(x, i, j, m);
    }
  }

  lemma {:induction false} MulFromOne(x: Block, i: nat, j: nat)
    requires i <= 16 && j < 8 && (i == 16 ==> j == 0)
    ensures MulFrom(x, ONE, 8 * i + j) == Tail(x, i, j)
    decreases 16 - i, 8 - j
  {
    hide Add, TimesP, Coeff, ShiftedIn;
    if i < 16 {
      var rest := MulFrom(x, ONE, 8 * i + j + 1);
      assert rest == Tail(x, i, j + 1) by {
        if j < 7 {
          MulFromOne(x, i, j + 1);
        } else {
          MulFromOne(x, i + 1, 0);
          TailWraps(x, i);
        }
      }
      MulFromScales(x, ONE, 8 * i + j + 1);
      TailStep(x, i, j);
    } else {
      TailEnds(x);
    }
  }

  lemma ShiftedInEnds(here: byte, next: byte)
    ensures ShiftedIn(here, next, 0) == here && ShiftedIn(here, next, 8) == next
  {
  }

  lemma TailWraps(x: Block, i: nat)
    ensures Tail(x, i, 8) == Tail(x, i + 1, 0) && Tail(x, 0, 0) == x
  {
    hide ShiftedIn;
    forall m | 0 <= m < 16 ensures Tail(x, i, 8)[m] == Tail(x, i + 1, 0)[m] && Tail(x, 0, 0)[m] == x[m] {
      assert i + m + 1 == (i + 1) + m;
      ShiftedInEnds(ByteAt(x, i + m), ByteAt(x, i + m + 1));
      ShiftedInEnds(ByteAt(x, i + m + 1), ByteAt(x, i + m + 2));
      ShiftedInEnds(x[m], ByteAt(x, m + 1));
    }
  }

  lemma TailEnds(x: Block)
    ensures Tail(x, 16, 0) == ZERO
  {
  }

  // The laws of the field.

  /** Mul(y, _) commutes with every sum of multiples. */
  lemma {:induction false} MulThrough(x: Block, y: Block, v: Block, n: nat)
    requires n <= 128
    ensures Mul(y, MulFrom(x, v, n)) == MulFrom(x, Mul(y, v), n)
    decreases 128 - n
  {
    hide Xor, TimesP, Coeff, MulFrom;
    MulZero(y);
    if n == 128 {
      MulFromStep(x, v, n);
      MulFromStep(x, Mul(y, v), n);
    } else {
      MulFromStep(x, v, n);
      MulFromStep(x, Mul(y, v), n);
      MulFromAdds(y, if Coeff(x, n) then v else ZERO, MulFrom(x, TimesP(v), n + 1), 0);
      MulThrough(x, y, TimesP(v), n + 1);
      MulFromScales(y, v, 0);
    }
  }

  lemma MulFromStep(x: Block, v: Block, n: nat)
    requires n <= 128
    ensures n == 128 ==> MulFrom(x, v, n) == ZERO
    ensures n < 128 ==> MulFrom(x, v, n) == Add(if Coeff(x, n) then v else ZERO, MulFrom(x, TimesP(v), n + 1))
    ensures n < 128 ==> MulFrom(x, v, n) == Add(if Coeff(x, n) then v else ZERO, TimesP(MulFrom(x, v, n + 1)))
  {
    if n < 128 {
      MulFromScales(x, v, n + 1);
    }
  }

  lemma {:induction false} MulZero(x: Block)
    ensures Mul(x, ZERO) == ZERO
  {
    hide Xor;
    XorLaws(ZERO, ZERO);
    MulFromAdds(x, ZERO, ZERO, 0);
    XorLaws(Mul(x, ZERO), ZERO);
  }

  /** ONE is the unit, the product is commutative, associative and distributes over Add. */
  lemma MulIsFieldProduct(x: Block, y: Block, z: Block)
    ensures Mul(x, ONE) == x && Mul(ONE, x) == x
    ensures Mul(x, y) == Mul(y, x)
    ensures Mul(x, Mul(y, z)) == Mul(Mul(x, y), z)
    ensures Mul(x, Add(y, z)) == Add(Mul(x, y), Mul(x, z))
    ensures Mul(x, TimesP(y)) == TimesP(Mul(x, y))
  {
    hide Add, TimesP, MulFrom;
    MulCommutes(x, y);
    MulCommutes(x, ONE);
    MulOne(x);
    MulThrough(y, x, z, 0);
    MulCommutes(y, z);
    MulThrough(z, x, y, 0);
    MulCommutes(z, Mul(x, y));
    MulFromAdds(x, y, z, 0);
    MulFromScales(x, y, 0);
  }

  /** P^n. */
  function PowP(n: nat): Block {
    if n == 0 then ONE else TimesP(PowP(n - 1))
  }

  lemma BitStep(j: nat)
    requires 0 < j < 8
    ensures Half(BitMask(j - 1)) == BitMask(j) && LowBit(BitMask(j - 1)) == 0 && Half(BitMask(7)) == 0
    ensures LowBit(BitMask(7)) == BitMask(0) && Carry(BitMask(j - 1)) == 0 && Half(0) == LowBit(0) == Carry(0) == 0
  {
    if j == 1 {} else if j == 2 {} else if j == 3 {} else if j == 4 {}
    else if j == 5 {} else if j == 6 {} else {}
  }

  /** The block whose only bit is bit j of byte i. */
  function SingleBit(i: nat, j: nat): Block
    requires j < 8
  {
    seq(16, m requires 0 <= m < 16 => if m == i then BitMask(j) else 0)
  }

  lemma TimesPSingleBit(i: nat, j: nat)
    requires i < 16 && j < 8 && (i < 15 || j < 7)
    ensures TimesP(SingleBit(i, j)) == if j == 7 then SingleBit(i + 1, 0) else SingleBit(i, j + 1)
  {
    hide Half, LowBit, Carry, BitMask, Xor8;
    BitStep(if j == 7 then 7 else j + 1);
    var v := SingleBit(i, j);
    forall m | 0 <= m < 16 ensures TimesP(v)[m] == if j == 7 then SingleBit(i + 1, 0)[m] else SingleBit(i, j + 1)[m] {
      Xor8Laws(Half(v[m]), 0, 0);
      var carried := if m == 0 then Carry(v[15]) else LowBit(v[m - 1]);
      Xor8Laws(carried, 0, 0);
    }
  }

  /** Below P^128 a power of P is a single bit. */
  lemma {:induction false} PowPIsBit(i: nat, j: nat)
    requires i < 16 && j < 8
    ensures PowP(8 * i + j) == SingleBit(i, j)
    decreases i, j
  {
    hide TimesP, BitMask;
    if i == 0 && j == 0 {
      BitMaskFirst();
    } else if j == 0 {
      PowPIsBit(i - 1, 7);
      TimesPSingleBit(i - 1, 7);
    } else {
      PowPIsBit(i, j - 1);
      TimesPSingleBit(i, j - 1);
    }
  }

  lemma BitMaskFirst()
    ensures BitMask(0) == 0x80
  {
  }

  /** P satisfies the field polynomial: P^128 = P^7 + P^2 + P + 1. */
  lemma FieldPolynomial()
    ensures PowP(128) == Add(Add(PowP(7), PowP(2)), Add(PowP(1), ONE))
  {
    hide PowP;
    PowPIsBit(15, 7);
    PowPIsBit(0, 7);
    PowPIsBit(0, 2);
    PowPIsBit(0, 1);
    assert PowP(128) == TimesP(PowP(127)) by { PowPStep(128); }
  }

  lemma PowPStep(n: nat)
    requires n > 0
    ensures PowP(n) == TimesP(PowP(n - 1))
  {
  }

  lemma MulOne(x: Block)
    ensures Mul(x, ONE) == x
  {
    hide ShiftedIn, MulFrom;
    MulFromOne(x, 0, 0);
    TailWraps(x, 0);
  }

  lemma MulCommutes(x: Block, y: Block)
    ensures Mul(x, y) == Mul(y, x)
  {
    hide MulFrom;
    MulOne(x);
    MulOne(y);
    MulThrough(x, y, ONE, 0);
  }
}
