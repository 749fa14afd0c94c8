/** 32-bit register words as numbers. */
module RegisterWords {
  import opened Arith

  /** The number a word stands for. */
  function Number(w: bv32): nat
    decreases w
  {
    if w == 0 then 0 else 2 * Number(w >> 1) + if w & 1 != 0 then 1 else 0
  }

  /** The word of a number, bits past the 31st shifted out. */
  function Word(n: nat): bv32 {
    if n == 0 then 0 else Next(Word(n / 2), n % 2 == 1)
  }

  function Next(w: bv32, bit: bool): bv32 { (w << 1) | (if bit then 1 else 0) }

  /** BIT(k) */
  function Bit(k: nat): bv32
    requires k < 32
  {
    match k
    case 0 => 0x1 case 1 => 0x2 case 2 => 0x4 case 3 => 0x8
    case 4 => 0x10 case 5 => 0x20 case 6 => 0x40 case 7 => 0x80
    case 8 => 0x100 case 9 => 0x200 case 10 => 0x400 case 11 => 0x800
    case 12 => 0x1000 case 13 => 0x2000 case 14 => 0x4000 case 15 => 0x8000
    case 16 => 0x1_0000 case 17 => 0x2_0000 case 18 => 0x4_0000 case 19 => 0x8_0000
    case 20 => 0x10_0000 case 21 => 0x20_0000 case 22 => 0x40_0000 case 23 => 0x80_0000
    case 24 => 0x100_0000 case 25 => 0x200_0000 case 26 => 0x400_0000 case 27 => 0x800_0000
    case 28 => 0x1000_0000 case 29 => 0x2000_0000 case 30 => 0x4000_0000 case 31 => 0x8000_0000
  }

  function Or(a: bv32, b: bv32): bv32 { a | b }

  function And(a: bv32, b: bv32): bv32 { a & b }

  predicate HasBit(w: bv32, k: nat)
    requires k < 32
  {
    And(w, Bit(k)) != 0
  }

  lemma NumberStep(w: bv32)
    ensures Number(w) == 2 * Number(w >> 1) + if w & 1 != 0 then 1 else 0
  {
    assert w == 0 ==> w >> 1 == 0 && w & 1 == 0;
  }

  lemma BitDown(w: bv32, k: nat)
    requires 0 < k < 32
    ensures HasBit(w >> 1, k - 1) <==> HasBit(w, k)
  {
    if k < 16 {
      BitDownLow(w, k);
    } else {
      BitDownHigh(w, k);
    }
  }

  lemma BitDownLow(w: bv32, k: nat)
    requires 0 < k < 16
    ensures HasBit(w >> 1, k - 1) <==> HasBit(w, k)
  {
    if k == 1 {} else if k == 2 {} else if k == 3 {} else if k == 4 {} else if k == 5 {} else if k == 6 {}
    else if k == 7 {} else if k == 8 {} else if k == 9 {} else if k == 10 {} else if k == 11 {} else if k == 12 {}
    else if k == 13 {} else if k == 14 {} else {}
  }

  lemma BitDownHigh(w: bv32, k: nat)
    requires 16 <= k < 32
    ensures HasBit(w >> 1, k - 1) <==> HasBit(w, k)
  {
    if k == 16 {} else if k == 17 {} else if k == 18 {} else if k == 19 {} else if k == 20 {} else if k == 21 {}
    else if k == 22 {} else if k == 23 {} else if k == 24 {} else if k == 25 {} else if k == 26 {} else if k == 27 {}
    else if k == 28 {} else if k == 29 {} else if k == 30 {} else {}
  }

  /** The bits of a word are those of its number. */
  lemma {:induction false} BitIs(w: bv32, k: nat)
    requires k < 32
    ensures BitOf(Number(w), k) <==> HasBit(w, k)
  {
    hide Number;
    NumberStep(w);
    if k > 0 {
      BitIs(w >> 1, k - 1);
      BitDown(w, k);
      HalfThenDown(Number(w), Pow2(k - 1));
    }
  }

  /** A number is determined below 2^k by its first k bits. */
  lemma {:induction false} SameLow(a: nat, b: nat, k: nat)
    requires forall j: nat :: j < k ==> (BitOf(a, j) <==> BitOf(b, j))
    ensures a % Pow2(k) == b % Pow2(k)
    decreases k
  {
    if k > 0 {
      forall j: nat | j < k - 1 ensures BitOf(a / 2, j) <==> BitOf(b / 2, j) {
        HalfThenDown(a, Pow2(j));
        HalfThenDown(b, Pow2(j));
        assert BitOf(a, j + 1) <==> BitOf(b, j + 1);
      }
      SameLow(a / 2, b / 2, k - 1);
      assert BitOf(a, 0) <==> BitOf(b, 0);
      LowHalves(a, Pow2(k - 1));
      LowHalves(b, Pow2(k - 1));
    }
  }

  /** Or joins the bits. */
  lemma BitOfOr(a: bv32, b: bv32, k: nat)
    requires k < 32
    ensures BitOf(Number(Or(a, b)), k) <==> BitOf(Number(a), k) || BitOf(Number(b), k)
  {
    hide Number, BitOf, Bit, Or, And;
    BitIs(a, k);
    BitIs(b, k);
    BitIs(Or(a, b), k);
    AndDistributes(a, b, Bit(k));
    OrOfZeros(And(a, Bit(k)), And(b, Bit(k)));
  }

  lemma AndDistributes(a: bv32, b: bv32, bit: bv32)
    ensures And(Or(a, b), bit) == Or(And(a, bit), And(b, bit))
  {
  }

  lemma OrOfZeros(a: bv32, b: bv32)
    ensures Or(a, b) == 0 <==> a == 0 && b == 0
  {
  }

  /** The word of n stands for n and has no bits in the mask. */
  predicate Stands(n: nat, mask: bv32) {
    And(Word(n), mask) == 0 && Number(Word(n)) == n
  }

  /** Numbers below 64 are those of their words. */
  lemma SmallWord(n: nat)
    requires n < 64
    ensures Number(Word(n)) == n && And(Word(n), 0xffff_ffc0) == 0
  {
    assert Stands(n, 0xffff_ffc0) by {
      hide Stands;
      assert n / 2 / 2 == n / 4 && n / 4 / 2 == n / 8 && n / 8 / 2 == n / 16 && n / 16 / 2 == n / 32 && n / 32 / 2 == 0;
      WordOfZero();
      WordOf(n / 32, 0xffff_fffe, 0xffff_ffff);
      WordOf(n / 16, 0xffff_fffc, 0xffff_fffe);
      WordOf(n / 8, 0xffff_fff8, 0xffff_fffc);
      WordOf(n / 4, 0xffff_fff0, 0xffff_fff8);
      WordOf(n / 2, 0xffff_ffe0, 0xffff_fff0);
      WordOf(n, 0xffff_ffc0, 0xffff_ffe0);
    }
  }

  lemma WordOfZero()
    ensures Stands(0, 0xffff_ffff)
  {
  }

  /** One bit more, below a mask one bit shorter. */
  lemma WordOf(n: nat, mask: bv32, above: bv32)
    requires mask == above << 1 && above & 0xc000_0000 == 0xc000_0000 && Stands(n / 2, above)
    ensures Stands(n, mask)
  {
    hide Number, And, Next;
    var w, bit := Word(n / 2), n % 2 == 1;
    NextDown(w, bit, mask, above);
    NumberStep(Next(w, bit));
    if n == 0 {
      AndOfZero(mask);
    }
  }

  lemma AndOfZero(mask: bv32)
    ensures And(0, mask) == 0
  {
  }

  lemma NextDown(w: bv32, bit: bool, mask: bv32, above: bv32)
    requires mask == above << 1 && above & 0xc000_0000 == 0xc000_0000 && And(w, above) == 0
    ensures Next(w, bit) >> 1 == w && (Next(w, bit) & 1 != 0 <==> bit) && And(Next(w, bit), mask) == 0
  {
  }
}
