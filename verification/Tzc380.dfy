/** The region allocator of the TZC-380 address space controller (tzc380.c). */
module Tzc380 {
  import opened Arith
  import opened RegionPlan
  import opened RegisterWords

  // The region registers as the hardware reads them.

  /** Where subregion k of sub bytes from base starts. */
  function SubregionStart(base: nat, sub: nat, k: nat): nat {
    base + k * sub
  }

  /** One programmed region: 2^pow bytes from base in eight subregions, some of them disabled. */
  datatype Region = Region(enabled: bool, base: nat, pow: nat, disabled: set<nat>, permissions: set<nat>)

  /** The size and subregion fields, which tzc_auto_configure fills in itself. */
  const OTHER_FIELDS: bv32 := 0xff7e

  /** TZC_ATTR_REGION_SIZE(size) | TZC_ATTR_REGION_EN_MASK | mask | attr */
  function Attributes(size: bv32, mask: bv32, attr: bv32): bv32 {
    Or(Or((size << 1) | 1, mask), attr)
  }

  /** The four bits of the field TZC_ATTR_SP_MASK. */
  ghost function Permissions(attributes: bv32): set<nat> {
    set j: nat | 28 <= j < 32 && BitOf(Number(attributes), j)
  }

  /** The three registers of one region. */
  datatype Registers = Registers(low: nat, high: nat, attributes: bv32)

  ghost predicate Disables(w: bv32, i: nat) {
    BitOf(Number(w), 8 + i)
  }

  /** What the registers mean: the size field holds log2(size) - 1. */
  ghost function Decode(r: Registers): Region {
    var n := Number(r.attributes);
    Region(n % 2 == 1, r.high * TWO32 + r.low, n / 2 % 64 + 1, (set i: nat | i < 8 && Disables(r.attributes, i)),
           Permissions(r.attributes))
  }

  /** Bits 8 to 15 of a word are set except those of subregions from to to - 1. */
  ghost predicate Leaves(w: bv32, from: nat, to: nat) {
    forall j: nat :: 8 <= j < 16 ==> (BitOf(Number(w), j) <==> !(from <= j - 8 < to))
  }

  /**
   The registers as numbers: base, the enable bit, pow - 1 in the size field, and a set bit for each eighth outside
   [from, to).
   */
  ghost predicate Encodes(r: Registers, base: nat, pow: nat, from: nat, to: nat) {
    var n := Number(r.attributes);
    && r.high * TWO32 + r.low == base && base % Pow2(pow) == 0 && from <= to <= 8
    && n % 2 == 1 && n / 2 % 64 == pow - 1
    && forall j: nat :: 8 <= j < 16 ==> (n / Pow2(j) % 2 == 1 <==> !(from <= j - 8 < to))
  }

  /** The registers of a region whose eighths from `from` to before `to` make up [lo, hi). */
  ghost predicate Grants(r: Registers, lo: nat, hi: nat) {
    exists base: nat, pow: nat, from: nat, to: nat ::
      && Encodes(r, base, pow, from, to) && 16 <= pow <= 63
      && lo == base + from * (Pow2(pow) / 8) && hi == base + to * (Pow2(pow) / 8)
  }

  lemma GrantedCovers(r: Registers, lo: nat, hi: nat)
    requires Grants(r, lo, hi)
    ensures Covers(Decode(r), lo, hi)
  {
    hide Pow2, Covers, Encodes, Decode;
    var base: nat, pow: nat, from: nat, to: nat :| Encodes(r, base, pow, from, to) && 16 <= pow <= 63
      && lo == base + from * (Pow2(pow) / 8) && hi == base + to * (Pow2(pow) / 8);
    EncodedCovers(r, base, pow, from, to, lo, hi);
  }

  /** n pieces from lo to hi. */
  predicate Spans(cuts: seq<nat>, lo: nat, hi: nat, n: nat) {
    |cuts| == n + 1 && cuts[0] == lo && cuts[n] == hi
  }

  lemma EncodedCovers(r: Registers, base: nat, pow: nat, from: nat, to: nat, lo: nat, hi: nat)
    requires Encodes(r, base, pow, from, to) && 16 <= pow <= 63
    requires lo == base + from * (Pow2(pow) / 8) && hi == base + to * (Pow2(pow) / 8)
    ensures Covers(Decode(r), lo, hi)
  {
    hide Pow2, Covers, Number, Permissions;
    forall i: nat | i < 8 ensures i in Decode(r).disabled <==> !(from <= i < to) {
      assert 8 <= 8 + i < 16;
    }
    CoversSubregions(Decode(r), from, to);
  }

  /** TZC_ATTR_SUBREGION_DIS(i) */
  function SubregionDis(i: nat): bv32
    requires i < 8
  {
    And(Bit(i + 8), 0xff00)
  }

  /** Byte x belongs to enabled subregion i. */
  predicate InSubregion(r: Region, i: nat, x: nat) {
    var sub := Pow2(r.pow) / 8;
    r.enabled && i < 8 && i !in r.disabled && r.base + i * sub <= x < r.base + (i + 1) * sub
  }

  ghost predicate InRegion(r: Region, x: nat) {
    exists i: nat :: i < 8 && InSubregion(r, i, x)
  }

  /** The enabled subregions are disjoint and make up exactly [lo, hi). */
  ghost predicate Covers(r: Region, lo: nat, hi: nat) {
    && r.base % Pow2(r.pow) == 0
    && (forall x: nat :: InRegion(r, x) <==> lo <= x < hi)
    && (forall x: nat, i: nat, j: nat :: InSubregion(r, i, x) && InSubregion(r, j, x) ==> i == j)
  }

  /** Registers with the subregions outside [from, to) disabled cover exactly those in between. */
  lemma CoversSubregions(r: Region, from: nat, to: nat)
    requires r.enabled && r.pow >= 3 && r.base % Pow2(r.pow) == 0 && from <= to <= 8
    requires forall i: nat :: i < 8 ==> (i in r.disabled <==> !(from <= i < to))
    ensures
      var sub := Pow2(r.pow) / 8;
      Covers(r, r.base + from * sub, r.base + to * sub)
  {
    hide Pow2;
    Eighths(r.pow);
    var sub := Pow2(r.pow) / 8;
    forall x: nat ensures InRegion(r, x) <==> r.base + from * sub <= x < r.base + to * sub {
      if r.base + from * sub <= x < r.base + to * sub {
        var i := (x - r.base) / sub;
        SubregionIndex(x - r.base, sub, i, from, to);
        assert InSubregion(r, i, x);
      }
      if InRegion(r, x) {
        var i: nat :| i < 8 && InSubregion(r, i, x);
        Monotone(from, i, sub);
        Monotone(i + 1, to, sub);
      }
    }
    forall x: nat, i: nat, j: nat | InSubregion(r, i, x) && InSubregion(r, j, x) ensures i == j {
      Monotone(i + 1, j, sub);
      Monotone(j + 1, i, sub);
    }
  }

  lemma SubregionIndex(y: nat, sub: nat, i: nat, from: nat, to: nat)
    requires sub > 0 && i == y / sub && from * sub <= y < to * sub
    ensures i * sub <= y < (i + 1) * sub && from <= i < to
  {
    assert y == sub * i + y % sub;
    Monotone(i + 1, from, sub);
    Monotone(to, i, sub);
  }

  // Fields of the attribute word.

  /** A word without bits in some fields has none of their bits. */
  lemma NoBit(w: bv32, fields: bv32, k: nat)
    requires k < 32 && And(w, fields) == 0 && And(fields, Bit(k)) == Bit(k)
    ensures !BitOf(Number(w), k)
  {
    hide Number, BitOf, Bit;
    BitIs(w, k);
    Masked(w, fields, Bit(k));
  }

  lemma Masked(w: bv32, fields: bv32, bit: bv32)
    requires And(w, fields) == 0 && And(fields, bit) == bit
    ensures And(w, bit) == 0
  {
  }

  lemma FieldBits(k: nat)
    requires k < 32
    ensures 0 < k < 7 || 8 <= k < 16 ==> And(OTHER_FIELDS, Bit(k)) == Bit(k)
    ensures 8 <= k < 16 ==> And(0xff00, Bit(k)) == Bit(k) && And(0xffff_ff80, Bit(k)) == Bit(k)
    ensures k < 8 || 16 <= k ==> And(0xffff_00ff, Bit(k)) == Bit(k)
    ensures 28 <= k ==> And(0xffff_ff80, Bit(k)) == Bit(k)
    ensures 28 <= k ==> And(0xf000_0000, Bit(k)) == Bit(k)
  {
  }

  /** TZC_ATTR_REGION_SIZE(size) | TZC_ATTR_REGION_EN_MASK: the enable bit, and the size one bit up. */
  lemma LowFields(size: bv32)
    requires And(size, 0xffff_ffc0) == 0
    ensures ((size << 1) | 1) >> 1 == size && ((size << 1) | 1) & 1 != 0 && And((size << 1) | 1, 0xffff_ff80) == 0
  {
  }

  /** Bit k of the attribute word. */
  lemma AttributeBit(size: bv32, mask: bv32, attr: bv32, k: nat)
    requires And(size, 0xffff_ffc0) == 0 && And(mask, 0xffff_00ff) == 0 && k < 32
    ensures
      var n := Number(Attributes(size, mask, attr));
      && (k == 0 ==> BitOf(n, k))
      && (28 <= k ==> (BitOf(n, k) <==> BitOf(Number(attr), k)))
      && (And(attr, OTHER_FIELDS) == 0 && 0 < k < 7 ==> (BitOf(n, k) <==> BitOf(Number(size), k - 1)))
      && (And(attr, OTHER_FIELDS) == 0 && 8 <= k < 16 ==> (BitOf(n, k) <==> BitOf(Number(mask), k)))
  {
    hide Number, BitOf, Or, And, Bit;
    var low := (size << 1) | 1;
    LowFields(size);
    BitOfOr(Or(low, mask), attr, k);
    BitOfOr(low, mask, k);
    FieldBits(k);
    if k == 0 {
      FirstBit(low);
    } else if k < 7 {
      BitIs(low, k);
      BitIs(size, k - 1);
      BitDown(low, k);
      NoBit(mask, 0xffff_00ff, k);
      if And(attr, OTHER_FIELDS) == 0 {
        NoBit(attr, OTHER_FIELDS, k);
      }
    } else if 8 <= k < 16 {
      NoBit(low, 0xffff_ff80, k);
      if And(attr, OTHER_FIELDS) == 0 {
        NoBit(attr, OTHER_FIELDS, k);
      }
    } else if 28 <= k {
      NoBit(low, 0xffff_ff80, k);
      NoBit(mask, 0xffff_00ff, k);
    }
  }

  lemma FirstBit(w: bv32)
    ensures w & 1 != 0 <==> BitOf(Number(w), 0)
    ensures w & 1 != 0 <==> Number(w) % 2 == 1
  {
    hide Number;
    NumberStep(w);
  }

  /**
   The attribute word as a number, for a region of 2^(size + 1) bytes: enabled, size in bits 1 to 6, the mask in bits 8
   to 15, the permissions of attr in bits 28 to 31.
   */
  lemma AttributesNumber(size: nat, mask: bv32, attr: bv32)
    requires size < 64 && And(mask, 0xffff_00ff) == 0
    ensures
      var w := Attributes(Word(size), mask, attr);
      && Number(w) % 2 == 1 && Permissions(w) == Permissions(attr)
      && (And(attr, OTHER_FIELDS) == 0 ==>
            Number(w) / 2 % 64 == size
            && forall j: nat :: 8 <= j < 16 ==> (BitOf(Number(w), j) <==> BitOf(Number(mask), j)))
  {
    hide Number, Word, BitOf, And, Attributes;
    SmallWord(size);
    var w := Attributes(Word(size), mask, attr);
    forall k: nat | k < 32
      ensures 28 <= k ==> (BitOf(Number(w), k) <==> BitOf(Number(attr), k))
      ensures And(attr, OTHER_FIELDS) == 0 && 0 < k < 7 ==> (BitOf(Number(w), k) <==> BitOf(size, k - 1))
      ensures And(attr, OTHER_FIELDS) == 0 && 8 <= k < 16 ==> (BitOf(Number(w), k) <==> BitOf(Number(mask), k))
    {
      AttributeBit(Word(size), mask, attr, k);
    }
    AttributeBit(Word(size), mask, attr, 0);
    FirstBit(w);
    if And(attr, OTHER_FIELDS) == 0 {
      forall j: nat | j < 6 ensures BitOf(Number(w) / 2, j) <==> BitOf(size, j) {
        BitAbove(Number(w), j);
      }
      SameLow(Number(w) / 2, size, 6);
      assert Pow2(6) == 64;
    }
  }

  lemma BitAbove(n: nat, j: nat)
    ensures BitOf(n / 2, j) <==> BitOf(n, j + 1)
  {
    HalfThenDown(n, Pow2(j));
  }

  /** Region 0 gets the permission bits only. */
  lemma PermissionsKept(attr: bv32)
    ensures Permissions(And(attr, 0xf000_0000)) == Permissions(attr)
  {
    hide Number, BitOf, And, Bit;
    forall j: nat | 28 <= j < 32 ensures BitOf(Number(And(attr, 0xf000_0000)), j) <==> BitOf(Number(attr), j) {
      BitIs(attr, j);
      BitIs(And(attr, 0xf000_0000), j);
      FieldBits(j);
      AndTwice(attr, 0xf000_0000, Bit(j));
    }
  }

  lemma AndTwice(w: bv32, fields: bv32, bit: bv32)
    requires And(fields, bit) == bit
    ensures And(And(w, fields), bit) == And(w, bit)
  {
  }

  /** The size and subregion fields come out as computed exactly when attr sets no bit in them that is clear. */
  lemma FieldsKept(size: bv32, mask: bv32, attr: bv32)
    requires And(size, 0xffff_ffc0) == 0 && And(mask, 0xffff_00ff) == 0
    ensures (Attributes(size, mask, attr) >> 1) & 0x3f == size && Attributes(size, mask, attr) & 0xff00 == mask <==>
            attr & OTHER_FIELDS & !((size << 1) | mask) == 0
  {
  }

  /** mask |= TZC_ATTR_SUBREGION_DIS(i) */
  function Disabling(mask: bv32, i: nat): bv32
    requires i < 8
  {
    Or(mask, SubregionDis(i))
  }

  lemma AddToMask(mask: bv32, i: nat, j: nat)
    requires i < 8 && 8 <= j < 16
    ensures BitOf(Number(Disabling(mask, i)), j) <==> BitOf(Number(mask), j) || j == 8 + i
  {
    hide Number, BitOf, Or, SubregionDis;
    BitOfOr(mask, SubregionDis(i), j);
    BitIs(SubregionDis(i), j);
    OtherSubregion(i, j);
  }

  lemma OtherSubregion(i: nat, j: nat)
    requires i < 8 && 8 <= j < 16
    ensures HasBit(SubregionDis(i), j) <==> j == 8 + i
  {
  }

  lemma MaskField(mask: bv32, i: nat)
    requires i < 8 && And(mask, 0xffff_00ff) == 0
    ensures And(Disabling(mask, i), 0xffff_00ff) == 0
  {
    hide And, Or, SubregionDis;
    AndDistributes(mask, SubregionDis(i), 0xffff_00ff);
    OrOfZeros(And(mask, 0xffff_00ff), And(SubregionDis(i), 0xffff_00ff));
    SubregionField(i);
  }

  lemma SubregionField(i: nat)
    requires i < 8
    ensures And(SubregionDis(i), 0xffff_00ff) == 0
  {
  }

  /** What tzc_configure_region is given for a region, read back. */
  lemma Written(r: Registers, base: nat, pow: nat, mask: bv32, attr: bv32, from: nat, to: nat)
    requires 16 <= pow <= 63 && On(base, pow) && from <= to <= 8 && r.high * TWO32 + r.low == base
    requires And(mask, 0xffff_00ff) == 0 && Leaves(mask, from, to) && And(attr, OTHER_FIELDS) == 0
    requires r.attributes == Attributes(Word(pow - 1), mask, attr)
    ensures Encodes(r, base, pow, from, to)
  {
    hide Pow2, Number, Word, And, Attributes, Permissions;
    AttributesNumber(pow - 1, mask, attr);
    forall j: nat | 8 <= j < 16 ensures Number(r.attributes) / Pow2(j) % 2 == 1 <==> !(from <= j - 8 < to) {
      assert BitOf(Number(r.attributes), j) <==> BitOf(Number(mask), j);
    }
  }

  function Wrap64(n: nat): nat { n % TWO64 }

  datatype Outcome = Configured(next: nat) | RegionAssertFails | SizeAssertFails | AddressAssertFails

  class Controller {
    const addr_width: nat
    const num_regions: nat
    const setup_low: array<nat>
    const setup_high: array<nat>
    const attributes: array<bv32>

    ghost predicate Valid()
      reads {}
    {
      && setup_low != setup_high && setup_low as object != attributes && setup_high as object != attributes
      && setup_low.Length == setup_high.Length == attributes.Length == num_regions
      && 16 <= addr_width <= 63
    }

    ghost function RegistersAt(k: nat): Registers
      requires Valid() && k < num_regions
      reads setup_low, setup_high, attributes
    {
      Registers(setup_low[k], setup_high[k], attributes[k])
    }

    ghost function RegionAt(k: nat): Region
      requires Valid() && k < num_regions
      reads setup_low, setup_high, attributes
    {
      Decode(RegistersAt(k))
    }

    /** tzc_configure_region; false stands for the failing assertion on the region number. */
    method ConfigureRegion(region: nat, region_base: nat, attr: bv32) returns (ok: bool)
      requires Valid() && region_base < TWO64
      modifies setup_low, setup_high, attributes
      ensures ok == (region < num_regions)
      ensures ok && region != 0 ==>
        && setup_high[region] * TWO32 + setup_low[region] == region_base && setup_low[region] < TWO32
        && setup_high[region] < TWO32 && attributes[region] == attr
      ensures ok && region == 0 ==> attributes[0] == And(attr, 0xf000_0000)
      ensures forall k: nat :: k < num_regions && k != region ==> RegistersAt(k) == old(RegistersAt(k))
    {
      if region >= num_regions {
        return false;
      }
      assert region_base == TWO32 * (region_base / TWO32) + region_base % TWO32;
      if region != 0 {
        setup_low[region] := region_base % TWO32;
        setup_high[region] := region_base / TWO32;
        attributes[region] := attr;
      } else {
        attributes[region] := And(attr, 0xf000_0000);
      }
      return true;
    }

    /**
     Region k grants what attr says and, unless it is region 0, its registers are those of [lo, hi); that takes an
     attr without bits in the fields computed here.
     */
    ghost predicate Piece(k: nat, attr: bv32, lo: nat, hi: nat)
      requires Valid() && k < num_regions
      reads setup_low, setup_high, attributes
    {
      && lo <= hi && Permissions(RegistersAt(k).attributes) == Permissions(attr)
      && (k > 0 && And(attr, OTHER_FIELDS) == 0 ==> Grants(RegistersAt(k), lo, hi))
    }

    /** The call made for one region of tzc_auto_configure. */
    method Program(region: nat, base: nat, pow: nat, mask: bv32, attr: bv32, ghost from: nat, ghost to: nat)
      returns (ok: bool)
      requires Valid() && 16 <= pow <= 63 && base < TWO64 && On(base, pow)
      requires And(mask, 0xffff_00ff) == 0 && from <= to <= 8 && Leaves(mask, from, to)
      modifies setup_low, setup_high, attributes
      ensures ok == (region < num_regions)
      ensures ok && region != 0 && And(attr, OTHER_FIELDS) == 0 ==> Encodes(RegistersAt(region), base, pow, from, to)
      ensures
        var sub := Pow2(pow) / 8;
        ok ==> Piece(region, attr, SubregionStart(base, sub, from), SubregionStart(base, sub, to))
      ensures forall k: nat :: k < num_regions && k != region ==> RegistersAt(k) == old(RegistersAt(k))
    {
      hide Pow2, Number, BitOf, Word, And, Attributes, Permissions, Encodes, Leaves;
      var word := Attributes(Word(pow - 1), mask, attr);
      ok := ConfigureRegion(region, base, word);
      AttributesNumber(pow - 1, mask, attr);
      PermissionsKept(word);
      Monotone(from, to, Pow2(pow) / 8);
      if ok && region != 0 && And(attr, OTHER_FIELDS) == 0 {
        Written(RegistersAt(region), base, pow, mask, attr, from, to);
        assert Grants(RegistersAt(region), base + from * (Pow2(pow) / 8), base + to * (Pow2(pow) / 8));
      }
    }

    /** The loop over the eight subregions; first and count locate the part of the region inside the range. */
    method MaskSubregions(sub_address: nat, sub: nat, start: nat, end: nat, ghost first: nat, ghost last: nat)
      returns (mask: bv32, address: nat, lsize: nat)
      requires sub > 0 && start == SubregionStart(sub_address, sub, first) < end
      requires Window(sub_address, sub, end, first, last)
      ensures And(mask, 0xffff_00ff) == 0
      ensures forall j: nat :: 8 <= j < 16 ==> (BitOf(Number(mask), j) <==> !(first <= j - 8 < last))
      ensures address == SubregionStart(sub_address, sub, last) && lsize == end - address
    {
      ReachedEnds(first, last);
      hide Number, BitOf, Wrap64, Reached, Window;
      address, lsize, mask := start, end - start, 0;
      NothingDisabled();
      for i := 0 to 8
        invariant address == sub_address + Reached(first, last, i) * sub && lsize == end - address
        invariant And(mask, 0xffff_00ff) == 0
        invariant forall j: nat :: 8 <= j < 16 ==> (BitOf(Number(mask), j) <==> j < 8 + i && !(first <= j - 8 < last))
      {
        SubregionTest(sub_address, sub, end, first, last, i);
        var area := (i + 1) * sub;
        if Wrap64(sub_address + area) <= address || Wrap64(sub_address + area) > Wrap64(address + lsize) {
          mask := Disable(mask, i);
        } else {
          address := address + sub;
          lsize := lsize - sub;
        }
      }
    }

    /** Each region is the piece between two consecutive cuts. */
    ghost predicate Tiled(region: nat, attr: bv32, cuts: seq<nat>)
      requires Valid()
      reads setup_low, setup_high, attributes
    {
      && 0 < |cuts| && region + |cuts| <= num_regions + 1
      && forall k: nat :: k + 1 < |cuts| ==> Piece(region + k, attr, cuts[k], cuts[k + 1])
    }

    /** First case of the loop: a whole region starts at address. */
    method CoverWhole(lregion: nat, address: nat, lsize: nat, pow: nat, attr: bv32) returns (ok: bool)
      requires Valid() && 16 <= pow <= 63 && address < TWO64 && WholeFits(address, lsize, pow)
      modifies setup_low, setup_high, attributes
      ensures ok == (lregion < num_regions)
      ensures ok ==> Piece(lregion, attr, address, address + Pow2(pow))
      ensures forall k: nat :: k < num_regions && k != lregion ==> RegistersAt(k) == old(RegistersAt(k))
    {
      hide Pow2, Decode, Number, BitOf, Permissions, Piece, Encodes;
      Eighths(pow);
      NothingDisabled();
      ok := Program(lregion, address, pow, 0, attr, 0, 8);
    }

    /** Second case: some subregions of the region around address, or none below the top of the 64-bit space. */
    method CoverPart(lregion: nat, address: nat, end: nat, pow: nat, attr: bv32) returns (ok: bool, to: nat, lsize: nat)
      requires Valid() && 16 <= pow <= 63 && address < end <= TWO64 && PartFits(address, end - address, pow)
      modifies setup_low, setup_high, attributes
      ensures ok == (lregion < num_regions)
      ensures address <= to == PartEnd(address, end - address, pow) <= end && lsize == end - to
      ensures ok ==> Piece(lregion, attr, address, to)
      ensures forall k: nat :: k < num_regions && k != lregion ==> RegistersAt(k) == old(RegistersAt(k))
    {
      hide Pow2, RegionAt, Number, BitOf, RoundDown, Permissions, PartEnd, Window, On, Piece, SubregionStart, Encodes;
      var region_size := Pow2(pow);
      var sub_region_size := region_size / 8;
      Eighths(pow);
      var sub_address := RoundDown(address, region_size);
      ghost var first, last := TheWindow(address, end, pow);
      var mask;
      mask, to, lsize := MaskSubregions(sub_address, sub_region_size, address, end, first, last);
      ok := Program(lregion, sub_address, pow, mask, attr, first, last);
    }

    /** One round of the loop: either case if it fits at this region size, up to address `to`. */
    method Round(lregion: nat, address: nat, lsize: nat, pow: nat, attr: bv32)
      returns (fits: bool, ok: bool, to: nat, lsize': nat)
      requires Valid() && 16 <= pow <= 63 && lsize > 0 && address + lsize <= TWO64
      modifies setup_low, setup_high, attributes
      ensures fits <==> FitsAt(address, lsize, pow)
      ensures !fits ==> lsize' == lsize
      ensures fits ==> ok == (lregion < num_regions)
      ensures fits ==> address <= to == StepTo(address, lsize, pow) <= address + lsize && to + lsize' == address + lsize
      ensures fits && ok ==> Piece(lregion, attr, address, to)
      ensures forall k: nat :: k < num_regions && (k != lregion || !fits) ==> RegistersAt(k) == old(RegistersAt(k))
    {
      hide Covers, Pow2, RegionAt, Permissions, PartEnd, Wrap64, Piece;
      Eighths(pow);
      WrapOn(address + lsize, pow);
      var region_size := Pow2(pow);
      var sub_region_size := region_size / 8;
      fits, ok, to, lsize' := true, true, address, lsize;
      if address % region_size == 0 && Wrap64(address + lsize) % region_size == 0 {
        StepInside(address, lsize, pow);
        ok := CoverWhole(lregion, address, lsize, pow, attr);
        to := address + region_size;
        lsize' := lsize - region_size;
      } else if address % sub_region_size == 0 && lsize > 2 * sub_region_size {
        ok, to, lsize' := CoverPart(lregion, address, address + lsize, pow, attr);
      } else {
        fits := false;
      }
    }

    ghost function RegionsFrom(region: nat, next: nat): (rs: seq<Region>)
      requires Valid() && region <= next <= num_regions
      reads setup_low, setup_high, attributes
      ensures |rs| == next - region
    {
      seq(next - region,
          k requires 0 <= k < next - region reads setup_low, setup_high, attributes => RegionAt(region + k))
    }

    /**
     Regions region to next - 1 hold the registers of consecutive pieces of [lo, hi), grant what attr says and, if attr
     has no bits in the fields computed here, do so on exactly [lo, hi).  Region 0 always spans all of memory: it stands
     for the first piece, and the other regions cover what is left of the range.
     */
    ghost predicate Configures(region: nat, next: nat, attr: bv32, lo: nat, hi: nat)
      requires Valid() && region <= next <= num_regions
      reads setup_low, setup_high, attributes
    {
      && (exists cuts: seq<nat> :: Tiled(region, attr, cuts) && Spans(cuts, lo, hi, next - region))
      && (forall k: nat :: region <= k < next ==> RegionAt(k).permissions == Permissions(attr))
      && (And(attr, OTHER_FIELDS) == 0 ==>
            if region == 0 < next
            then exists mid: nat :: lo <= mid <= hi && ExactlyCovers(RegionsFrom(1, next), mid, hi)
            else ExactlyCovers(RegionsFrom(region, next), lo, hi))
    }

    lemma AtRegisters(k: nat)
      requires Valid() && k < num_regions
      ensures RegionAt(k) == Decode(RegistersAt(k))
    {
    }

    lemma TiledConfigures(region: nat, next: nat, attr: bv32, cuts: seq<nat>)
      requires Valid() && region <= next <= num_regions && |cuts| == next - region + 1 && Tiled(region, attr, cuts)
      ensures Configures(region, next, attr, cuts[0], cuts[|cuts| - 1])
    {
      hide Covers, RegionAt, RegistersAt, InRegion, Permissions, ExactlyCovers, Grants;
      assert Spans(cuts, cuts[0], cuts[|cuts| - 1], next - region);
      forall k: nat | region <= k < next
        ensures RegionAt(k).permissions == Permissions(attr)
        ensures k > 0 && And(attr, OTHER_FIELDS) == 0 ==> Covers(RegionAt(k), cuts[k - region], cuts[k - region + 1])
      {
        assert Piece(region + (k - region), attr, cuts[k - region], cuts[k - region + 1]);
        AtRegisters(k);
        if k > 0 && And(attr, OTHER_FIELDS) == 0 {
          GrantedCovers(RegistersAt(k), cuts[k - region], cuts[k - region + 1]);
        }
      }
      if And(attr, OTHER_FIELDS) != 0 {
      } else if region == 0 < next {
        TilesCover(RegionsFrom(1, next), cuts[1..]);
      } else {
        TilesCover(RegionsFrom(region, next), cuts);
      }
    }

    /** tzc_auto_configure.  What becomes of a range is decided by its plan, which no register enters. */
    method AutoConfigure(addr: nat, size: nat, attr: bv32, region: nat) returns (r: Outcome)
      requires Valid() && region <= num_regions && addr < TWO64 && size < TWO64 && addr + size <= TWO64
      modifies setup_low, setup_high, attributes
      ensures
        var plan := PlanFor(addr, size, addr_width, num_regions - region);
        r == if !plan.enough then RegionAssertFails
             else if plan.leftover != 0 then SizeAssertFails
             else Configured(region + plan.pieces)
      // For a range of whole 32 KiB, running out of regions is the only assertion that can fail.
      ensures r.SizeAssertFails? ==> !InSteps(addr, size)
      // What was done before a failure: all of the regions are in use, or a smaller range is covered.
      ensures r.SizeAssertFails? ==>
        exists next: nat, to :: region <= next <= num_regions && addr <= to < addr + size
          && Configures(region, next, attr, addr, to)
      ensures r.RegionAssertFails? ==>
        exists to :: addr <= to < addr + size && Configures(region, num_regions, attr, addr, to)
      ensures r.Configured? ==> region <= r.next <= num_regions
      ensures r.Configured? ==> Configures(region, r.next, attr, addr, addr + size)
      ensures forall k: nat :: k < region ==> RegistersAt(k) == old(RegistersAt(k))
    {
      hide Covers, RegionAt, InRegion, Configures, PlanFor, InSteps;
      var ok, lregion, address, lsize;
      ghost var cuts;
      ok, lregion, address, lsize, cuts := Tile(addr, size, attr, region);
      if InSteps(addr, size) {
        StepsFinish(addr, size, addr_width, num_regions - region);
      }
      if !ok {
        TiledConfigures(region, num_regions, attr, cuts);
        return RegionAssertFails;
      }
      TiledConfigures(region, lregion, attr, cuts);
      if lsize != 0 {
        return SizeAssertFails;
      }
      if address != addr + size {
        return AddressAssertFails;
      }
      return Configured(lregion);
    }

    /** The loop of tzc_auto_configure, with the cut points between the regions as a witness. */
    method Tile(addr: nat, size: nat, attr: bv32, region: nat)
      returns (ok: bool, lregion: nat, address: nat, lsize: nat, ghost cuts: seq<nat>)
      requires Valid() && region <= num_regions && addr + size <= TWO64
      modifies setup_low, setup_high, attributes
      ensures
        var plan := PlanFor(addr, size, addr_width, num_regions - region);
        ok == plan.enough && (ok ==> lregion == region + plan.pieces && lsize == plan.leftover)
      ensures !ok ==> |cuts| == num_regions - region + 1 && cuts[0] == addr && Tiled(region, attr, cuts)
      ensures !ok ==> addr <= cuts[|cuts| - 1] < addr + size
      ensures ok ==> addr <= address && address + lsize == addr + size && region <= lregion <= num_regions
      ensures ok ==> |cuts| == lregion - region + 1 && cuts[0] == addr && cuts[|cuts| - 1] == address
      ensures ok ==> Tiled(region, attr, cuts)
      ensures forall k: nat :: k < region ==> RegistersAt(k) == old(RegistersAt(k))
    {
      hide Covers, Pow2, RegistersAt, Grants, Permissions, FitPow, FitsAt, StepTo, PlanFor;
      ghost var end := addr + size;
      ghost var plan := PlanFor(addr, size, addr_width, num_regions - region);
      lregion, address, lsize := region, addr, size;
      cuts := [addr];
      var pow := addr_width;
      while lsize != 0 && pow > 15
        invariant 15 <= pow <= addr_width && addr <= address && address + lsize == end
        invariant lsize != 0 ==> FitPow(address, lsize, addr_width) == FitPow(address, lsize, pow)
        invariant region <= lregion <= num_regions && |cuts| == lregion - region + 1
        invariant
          var rest := PlanFor(address, lsize, addr_width, num_regions - lregion);
          plan == rest.(pieces := lregion - region + rest.pieces)
        invariant cuts[0] == addr && cuts[|cuts| - 1] == address && Tiled(region, attr, cuts)
        invariant forall k: nat :: k < region ==> RegistersAt(k) == old(RegistersAt(k))
        decreases num_regions - lregion, pow
      {
        FitPowHere(address, lsize, pow);
        PlanHere(address, lsize, addr_width, num_regions - lregion);
        var fits, to;
        fits, ok, to, lsize := Round(lregion, address, lsize, pow, attr);
        if !fits {
          pow := pow - 1;
          continue;
        }
        if !ok {
          return;
        }
        address := to;
        lregion := lregion + 1;
        cuts := cuts + [to];
        pow := addr_width;
      }
      PlanEnds(address, lsize, addr_width, num_regions - lregion, pow);
      ok := true;
    }
  }

  ghost predicate InSome(rs: seq<Region>, x: nat) {
    exists k: nat :: k < |rs| && InRegion(rs[k], x)
  }

  /** Regions that tile consecutive intervals cover the whole without overlap. */
  lemma {:induction false} TilesMakeUp(rs: seq<Region>, cuts: seq<nat>, x: nat)
    requires |cuts| == |rs| + 1
    requires forall k: nat :: k < |rs| ==> cuts[k] <= cuts[k + 1] && Covers(rs[k], cuts[k], cuts[k + 1])
    ensures InSome(rs, x) <==> cuts[0] <= x < cuts[|rs|]
    ensures forall j: nat, k: nat :: j < |rs| && k < |rs| && InRegion(rs[j], x) && InRegion(rs[k], x) ==> j == k
    ensures cuts[0] <= cuts[|rs|]
  {
    hide InRegion;
    if |rs| > 0 {
      var n := |rs| - 1;
      TilesMakeUp(rs[..n], cuts[..n + 1], x);
      assert forall k: nat :: k < n ==> rs[..n][k] == rs[k];
      assert InRegion(rs[n], x) <==> cuts[n] <= x < cuts[n + 1];
    }
  }

  /** Every byte of [lo, hi) lies in exactly one enabled subregion, no other byte in any, and bases are aligned. */
  ghost predicate ExactlyCovers(rs: seq<Region>, lo: nat, hi: nat) {
    && (forall x: nat :: InSome(rs, x) <==> lo <= x < hi)
    && (forall x: nat, j: nat, k: nat :: j < |rs| && k < |rs| && InRegion(rs[j], x) && InRegion(rs[k], x) ==> j == k)
    && (forall x: nat, k: nat, i: nat, j: nat ::
          k < |rs| && InSubregion(rs[k], i, x) && InSubregion(rs[k], j, x) ==> i == j)
    && (forall k: nat :: k < |rs| ==> rs[k].base % Pow2(rs[k].pow) == 0)
  }

  lemma TilesCover(rs: seq<Region>, cuts: seq<nat>)
    requires |cuts| == |rs| + 1
    requires forall k: nat :: k < |rs| ==> cuts[k] <= cuts[k + 1] && Covers(rs[k], cuts[k], cuts[k + 1])
    ensures cuts[0] <= cuts[|rs|] && ExactlyCovers(rs, cuts[0], cuts[|rs|])
  {
    hide InRegion, InSubregion, InSome;
    TilesMakeUp(rs, cuts, 0);
    forall x: nat ensures InSome(rs, x) <==> cuts[0] <= x < cuts[|rs|] {
      TilesMakeUp(rs, cuts, x);
    }
    forall x: nat, j: nat, k: nat | j < |rs| && k < |rs| && InRegion(rs[j], x) && InRegion(rs[k], x) ensures j == k {
      TilesMakeUp(rs, cuts, x);
    }
    forall x: nat, k: nat, i: nat, j: nat | k < |rs| && InSubregion(rs[k], i, x) && InSubregion(rs[k], j, x)
      ensures i == j
    {
      assert Covers(rs[k], cuts[k], cuts[k + 1]);
    }
    forall k: nat | k < |rs| ensures rs[k].base % Pow2(rs[k].pow) == 0 {
      assert Covers(rs[k], cuts[k], cuts[k + 1]);
    }
  }

  method Disable(mask: bv32, i: nat) returns (mask': bv32)
    requires i < 8 && And(mask, 0xffff_00ff) == 0
    ensures And(mask', 0xffff_00ff) == 0
    ensures forall j: nat :: 8 <= j < 16 ==> (BitOf(Number(mask'), j) <==> BitOf(Number(mask), j) || j == 8 + i)
  {
    hide Number, BitOf, Disabling;
    MaskField(mask, i);
    forall j: nat | 8 <= j < 16
      ensures BitOf(Number(Disabling(mask, i)), j) <==> BitOf(Number(mask), j) || j == 8 + i
    {
      AddToMask(mask, i, j);
    }
    mask' := Disabling(mask, i);
  }

  lemma ReachedEnds(first: nat, last: nat)
    requires first <= last <= 8
    ensures Reached(first, last, 0) == first && Reached(first, last, 8) == last
  {
  }

  /**
   Subregions first to last - 1 are those inside a range that ends at end.  If it ends at the top of the 64-bit space,
   there the source has zero, and takes none.
   */
  predicate Window(sub_address: nat, sub: nat, end: nat, first: nat, last: nat) {
    && end <= TWO64 && sub_address + 8 * sub <= TWO64 && first < 8
    && if end == TWO64 then last == first
       else first < last <= 8 && sub_address + last * sub <= end && (last < 8 ==> end < sub_address + (last + 1) * sub)
  }

  /** The test of the loop, wrap-around of sub_address + area included. */
  lemma SubregionTest(sub_address: nat, sub: nat, end: nat, first: nat, last: nat, i: nat)
    requires sub > 0 && i < 8 && sub_address + first * sub < end && Window(sub_address, sub, end, first, last)
    ensures
      var c := Reached(first, last, i);
      var reach := Wrap64(sub_address + (i + 1) * sub);
      && (reach <= sub_address + c * sub || reach > Wrap64(end) <==> !(first <= i < last))
      && sub_address + c * sub <= end && (c + 1) * sub == c * sub + sub
      && (first <= i < last ==> sub_address + (c + 1) * sub <= end)
      && (first <= i < last ==> Reached(first, last, i + 1) == c + 1)
      && (!(first <= i < last) ==> Reached(first, last, i + 1) == c)
  {
    hide Wrap64;
    Monotone(i + 1, 8, sub);
    Monotone(first, last, sub);
    MulRearranges(sub, i, 1);
    WrapValues(sub_address + (i + 1) * sub);
    WrapValues(end);
    if i < first {
      Monotone(i + 1, first, sub);
    } else if i < last {
      Monotone(i + 1, last, sub);
    } else if last < 8 {
      Monotone(last + 1, i + 1, sub);
    }
  }

  lemma WrapValues(n: nat)
    requires n <= TWO64
    ensures Wrap64(n) == if n == TWO64 then 0 else n
  {
  }

  lemma NothingDisabled()
    ensures forall j: nat :: 8 <= j < 16 ==> !BitOf(Number(0), j)
  {
  }

  /** How many subregions lie below the current address after i rounds. */
  ghost function Reached(first: nat, last: nat, i: nat): nat {
    if i <= first then first else if i <= last then i else last
  }

  lemma WrapOn(end: nat, pow: nat)
    requires end <= TWO64 && pow <= 64
    ensures Wrap64(end) % Pow2(pow) == 0 <==> On(end, pow)
  {
    hide Pow2;
    if end == TWO64 {
      TopOn(pow);
    }
  }

  /** The two conditions of the loop at one region size, the end of the range as the 64-bit sum the source computes. */
  lemma FitsWhen(address: nat, lsize: nat, pow: nat)
    requires 16 <= pow <= 63 && address + lsize <= TWO64
    ensures FitsAt(address, lsize, pow) <==>
      || (address % Pow2(pow) == 0 && (address + lsize) % TWO64 % Pow2(pow) == 0)
      || (address % Pow2(pow - 3) == 0 && lsize > 2 * Pow2(pow - 3))
  {
    hide Pow2;
    WrapOn(address + lsize, pow);
  }

  /** The top of the 64-bit space lies on a boundary of every size. */
  lemma TopOn(pow: nat)
    requires pow <= 64
    ensures On(TWO64, pow)
  {
    hide Pow2;
    Pow2Splits(64, pow);
    Pow2Splits(64, 32);
    Pow2Splits(32, 16);
    Pow2Values();
    Multiple(TWO64, Pow2(pow), Pow2(64 - pow));
  }

  /** The part of [address, end) inside the region around address. */
  lemma TheWindow(address: nat, end: nat, pow: nat) returns (first: nat, last: nat)
    requires 16 <= pow <= 63 && address < end <= TWO64 && PartFits(address, end - address, pow)
    ensures
      var sub, base := Pow2(pow - 3), RoundDown(address, Pow2(pow));
      && On(base, pow) && base < TWO64 && address == SubregionStart(base, sub, first)
      && Window(base, sub, end, first, last) && first <= last <= 8
      && address <= PartEnd(address, end - address, pow) == SubregionStart(base, sub, last) <= end
  {
    hide Pow2, On, RoundDown;
    var sub, base, lsize := Pow2(pow - 3), RoundDown(address, Pow2(pow)), end - address;
    Eighths(pow);
    BaseOn(address, pow);
    TopOn(pow);
    OnNext(base, TWO64, pow);
    first := Steps(base, address, pow);
    if end == TWO64 {
      last := first;
    } else {
      last := LastSubregion(address, lsize, pow);
      PartEnds(address, lsize, pow);
      DivBounds(end - base, sub);
      Monotone(last, first, sub);
    }
  }

  /** How many subregions address is past the base of its region. */
  lemma Steps(base: nat, address: nat, pow: nat) returns (first: nat)
    requires pow >= 3 && On(base, pow) && On(address, pow - 3) && base <= address < base + Pow2(pow)
    ensures address == base + first * Pow2(pow - 3) && first < 8
  {
    hide Pow2;
    var sub := Pow2(pow - 3);
    Eighths(pow);
    OnLess(base, pow, pow - 3);
    OnSum(base, address - base, pow - 3);
    first := (address - base) / sub;
    assert address - base == sub * first;
    MulRearranges(first, sub, 1);
    Monotone(8, first, sub);
  }
}
