/** Which pieces tzc_auto_configure cuts a range into (tzc380.c), apart from the registers it writes for them. */
module RegionPlan {
  import opened Arith

  /** The largest multiple of d up to a: a / d * d. */
  function RoundDown(a: nat, d: nat): (r: nat)
    requires d > 0
    ensures r <= a
  {
    var q := a / d;
    DivBounds(a, d);
    q * d
  }

  // Powers of two and their multiples.

  lemma {:induction false} Pow2Splits(n: nat, k: nat)
    requires k <= n
    ensures Pow2(n) == Pow2(k) * Pow2(n - k)
  {
    if k > 0 {
      Pow2Splits(n - 1, k - 1);
      MulRearranges(2, Pow2(k - 1), Pow2(n - k));
      assert 2 * (Pow2(k - 1) * Pow2(n - k)) == (2 * Pow2(k - 1)) * Pow2(n - k);
    }
  }

  lemma Pow2Values()
    ensures Pow2(3) == 8 && Pow2(13) == 0x2000 && Pow2(14) == 0x4000 && Pow2(15) == 0x8000 && Pow2(16) == 0x1_0000
  {
    Pow2Splits(8, 4);
    Pow2Splits(16, 8);
    assert Pow2(4) == 16;
  }

  /** Eight subregions make a region. */
  lemma Eighths(pow: nat)
    requires pow >= 3
    ensures Pow2(pow) / 8 == Pow2(pow - 3) && Pow2(pow) == 8 * Pow2(pow - 3)
  {
    Pow2Splits(pow, 3);
    Pow2Values();
  }

  lemma {:induction false} Pow2Grows(j: nat, k: nat)
    requires j <= k
    ensures Pow2(j) <= Pow2(k) && (j < k ==> 2 * Pow2(j) <= Pow2(k))
  {
    if j < k {
      Pow2Grows(j, k - 1);
    }
  }

  /** a is a multiple of 2^k. */
  predicate On(a: nat, k: nat) {
    a % Pow2(k) == 0
  }

  lemma OnLess(a: nat, k: nat, j: nat)
    requires j <= k && On(a, k)
    ensures On(a, j)
  {
    hide Pow2;
    Pow2Splits(k, j);
    var q := a / Pow2(k);
    assert a == Pow2(k) * q;
    assert a == Pow2(j) * (Pow2(k - j) * q);
    Multiple(a, Pow2(j), Pow2(k - j) * q);
  }

  lemma OnSum(a: nat, b: nat, k: nat)
    requires On(a, k)
    ensures On(a + b, k) <==> On(b, k)
  {
    hide Pow2;
    var p := Pow2(k);
    DivModUnique(a + b, p, a / p + b / p, b % p) by {
      MulRearranges(p, a / p, b / p);
      assert a == p * (a / p) + a % p && b == p * (b / p) + b % p;
    }
  }

  lemma OnTimes(n: nat, k: nat)
    ensures On(n * Pow2(k), k)
  {
    hide Pow2;
    MulRearranges(n, Pow2(k), 0);
    Multiple(n * Pow2(k), Pow2(k), n);
  }

  /** The next multiple is 2^k further. */
  lemma OnNext(a: nat, b: nat, k: nat)
    requires On(a, k) && On(b, k) && a < b
    ensures a + Pow2(k) <= b
  {
    hide Pow2;
    OnSum(a, b - a, k);
    SmallMultiple(b - a, Pow2(k));
  }

  lemma SmallMultiple(d: nat, p: nat)
    requires p > 0 && d > 0 && d % p == 0
    ensures d >= p
  {
    if d < p {
      DivModUnique(d, p, 0, d);
    }
  }

  /** The least k with n <= 2^k. */
  function Width(n: nat): (w: nat)
    ensures n <= Pow2(w) && (n >= 2 ==> w > 0 && Pow2(w - 1) < n)
  {
    if n <= 1 then 0 else 1 + Width((n + 1) / 2)
  }

  lemma WidthLeast(n: nat, k: nat)
    requires n <= Pow2(k)
    ensures Width(n) <= k
  {
    hide Pow2, Width;
    if n >= 2 {
      if k < Width(n) {
        Pow2Grows(k, Width(n) - 1);
      }
    } else {
      SmallWidth(n);
    }
  }

  lemma SmallWidth(n: nat)
    requires n < 2
    ensures Width(n) == 0
  {
  }

  // One round.

  /** First case: a whole region starts at address, and the range ends on such a boundary. */
  predicate WholeFits(address: nat, lsize: nat, pow: nat) {
    On(address, pow) && On(address + lsize, pow)
  }

  /** Second case: more than two subregions, from a subregion boundary on. */
  predicate PartFits(address: nat, lsize: nat, pow: nat)
    requires pow >= 3
  {
    On(address, pow - 3) && lsize > 2 * Pow2(pow - 3)
  }

  predicate FitsAt(address: nat, lsize: nat, pow: nat)
    requires pow >= 3
  {
    WholeFits(address, lsize, pow) || PartFits(address, lsize, pow)
  }

  /** How many subregions of the region around address end within the range. */
  function LastSubregion(address: nat, lsize: nat, pow: nat): (last: nat)
    requires pow >= 3
    ensures last <= 8
  {
    var y := (address + lsize - RoundDown(address, Pow2(pow))) / Pow2(pow - 3);
    if y < 8 then y else 8
  }

  /**
   Up to where the second case gets: the end of the region around address or the last subregion boundary in the range.
   A range up to the top of the 64-bit space has the end zero, and no subregion is enabled.
   */
  function PartEnd(address: nat, lsize: nat, pow: nat): nat
    requires pow >= 3
  {
    if address + lsize == TWO64 then address
    else RoundDown(address, Pow2(pow)) + LastSubregion(address, lsize, pow) * Pow2(pow - 3)
  }

  function StepTo(address: nat, lsize: nat, pow: nat): nat
    requires pow >= 3
  {
    if WholeFits(address, lsize, pow) then address + Pow2(pow) else PartEnd(address, lsize, pow)
  }

  /** The largest region size that fits, from pow down to 64 KiB; zero if none does. */
  function FitPow(address: nat, lsize: nat, pow: nat): (p: nat)
    ensures p <= pow && (p > 0 ==> p >= 16 && FitsAt(address, lsize, p))
    ensures forall q :: 16 <= q <= pow && q > p ==> !FitsAt(address, lsize, q)
  {
    if pow < 16 then 0
    else if FitsAt(address, lsize, pow) then pow
    else FitPow(address, lsize, pow - 1)
  }

  /** Where the second case ends. */
  lemma PartEnds(address: nat, lsize: nat, pow: nat)
    requires pow >= 3 && PartFits(address, lsize, pow) && address + lsize < TWO64
    ensures
      var to := PartEnd(address, lsize, pow);
      && address < to <= address + lsize && On(to, pow - 3)
      && (On(to, pow) || address + lsize - to < Pow2(pow - 3))
  {
    hide Pow2, On, RoundDown;
    var p, sub, end := Pow2(pow), Pow2(pow - 3), address + lsize;
    var base := RoundDown(address, p);
    var y, last := (end - base) / sub, LastSubregion(address, lsize, pow);
    Eighths(pow);
    BaseOn(address, pow);
    DivBounds(end - base, sub);
    OnTimes(last, pow - 3);
    OnSum(base, last * sub, pow - 3) by { OnLess(base, pow, pow - 3); }
    if y >= 8 {
      Monotone(8, y, sub);
      OnTimes(1, pow);
      OnSum(base, p, pow);
    } else {
      OnBelow(address, base + last * sub, end, pow - 3);
    }
  }

  lemma BaseOn(address: nat, pow: nat)
    ensures var base := RoundDown(address, Pow2(pow)); On(base, pow) && base <= address < base + Pow2(pow)
  {
    hide Pow2;
    var p, q := Pow2(pow), address / Pow2(pow);
    DivBounds(address, p);
    OnTimes(q, pow);
    MulRearranges(p, q, 1);
    assert (q + 1) * p == q * p + p;
  }

  /** A boundary less than 2^k below the end lies above address, which is a boundary with more than 2^k to the end. */
  lemma OnBelow(address: nat, to: nat, end: nat, k: nat)
    requires On(address, k) && On(to, k) && to <= end < to + Pow2(k) && address + Pow2(k) < end
    ensures address < to
  {
  }

  /** A round stays inside the range, and moves on unless the range reaches the top of the 64-bit space. */
  lemma StepInside(address: nat, lsize: nat, pow: nat)
    requires pow >= 3 && lsize > 0 && address + lsize <= TWO64 && FitsAt(address, lsize, pow)
    ensures address <= StepTo(address, lsize, pow) <= address + lsize
    ensures address + lsize < TWO64 ==> address < StepTo(address, lsize, pow)
  {
    hide Pow2, On, PartEnd;
    if WholeFits(address, lsize, pow) {
      OnNext(address, address + lsize, pow);
    } else if address + lsize < TWO64 {
      PartEnds(address, lsize, pow);
    } else {
      assert PartEnd(address, lsize, pow) == address by { TopStays(address, lsize, pow); }
    }
  }

  lemma TopStays(address: nat, lsize: nat, pow: nat)
    requires pow >= 3 && address + lsize == TWO64
    ensures PartEnd(address, lsize, pow) == address
  {
  }

  // The whole loop.

  /** The number of pieces, what is left of the range at the end, and whether there were regions for all the pieces. */
  datatype Plan = Plan(pieces: nat, leftover: nat, enough: bool)

  /** The plan for a range on an address bus of this width, with so many regions left. */
  function PlanFor(address: nat, lsize: nat, width: nat, left: nat): (plan: Plan)
    requires address + lsize <= TWO64
    ensures plan.pieces <= left && plan.leftover <= lsize && (lsize == 0 ==> plan == Plan(0, 0, true))
    decreases left
  {
    var pow := FitPow(address, lsize, width);
    if lsize == 0 || pow == 0 then Plan(0, lsize, true)
    else if left == 0 then Plan(0, lsize, false)
    else
      StepInside(address, lsize, pow);
      var to := StepTo(address, lsize, pow);
      var rest := PlanFor(to, address + lsize - to, width, left - 1);
      rest.(pieces := rest.pieces + 1)
  }

  lemma PlanStep(address: nat, lsize: nat, width: nat, left: nat)
    requires address + lsize <= TWO64 && lsize > 0 && FitPow(address, lsize, width) > 0 && left > 0
    ensures
      var to := StepTo(address, lsize, FitPow(address, lsize, width));
      && address <= to <= address + lsize
      && var rest := PlanFor(to, address + lsize - to, width, left - 1);
      PlanFor(address, lsize, width, left) == rest.(pieces := rest.pieces + 1)
  {
    hide FitPow, StepTo, FitsAt;
    StepInside(address, lsize, FitPow(address, lsize, width));
  }

  /** The size at hand decides. */
  lemma FitPowHere(address: nat, lsize: nat, pow: nat)
    requires pow >= 16
    ensures FitPow(address, lsize, pow) == if FitsAt(address, lsize, pow) then pow else FitPow(address, lsize, pow - 1)
  {
  }

  lemma PlanHere(address: nat, lsize: nat, width: nat, left: nat)
    requires address + lsize <= TWO64 && lsize > 0
    ensures FitPow(address, lsize, width) > 0 && left == 0 ==>
      PlanFor(address, lsize, width, left) == Plan(0, lsize, false)
    ensures FitPow(address, lsize, width) > 0 && left > 0 ==>
      var to := StepTo(address, lsize, FitPow(address, lsize, width));
      && address <= to <= address + lsize
      && var rest := PlanFor(to, address + lsize - to, width, left - 1);
      PlanFor(address, lsize, width, left) == rest.(pieces := rest.pieces + 1)
  {
    hide FitPow, StepTo, FitsAt;
    if FitPow(address, lsize, width) > 0 && left > 0 {
      PlanStep(address, lsize, width, left);
    }
  }

  /** Nothing is left, or no size fits. */
  lemma PlanEnds(address: nat, lsize: nat, width: nat, left: nat, pow: nat)
    requires address + lsize <= TWO64
    requires lsize == 0 || (pow < 16 && FitPow(address, lsize, width) == FitPow(address, lsize, pow))
    ensures PlanFor(address, lsize, width, left) == Plan(0, lsize, true)
  {
  }

  /** With more regions left the plan is the same, once there are enough. */
  lemma {:induction false} PlanSame(address: nat, lsize: nat, width: nat, left: nat, more: nat)
    requires address + lsize <= TWO64 && left <= more && PlanFor(address, lsize, width, left).enough
    ensures PlanFor(address, lsize, width, more) == PlanFor(address, lsize, width, left)
    decreases left
  {
    hide FitPow, StepTo;
    if lsize > 0 && FitPow(address, lsize, width) > 0 {
      var to := StepTo(address, lsize, FitPow(address, lsize, width));
      PlanStep(address, lsize, width, left);
      PlanStep(address, lsize, width, more);
      PlanSame(to, address + lsize - to, width, left - 1, more - 1);
    }
  }

  // Ranges that are always covered.

  /** Whole steps of 32 KiB. */
  predicate InSteps(address: nat, lsize: nat) {
    On(address, 15) && On(lsize, 15)
  }

  lemma StepsFit(address: nat, lsize: nat, width: nat)
    requires InSteps(address, lsize) && lsize > 0 && width >= 16
    ensures lsize >= 0x8000 && FitPow(address, lsize, width) > 0 && Width(lsize) >= 15
  {
    hide Pow2, On, FitPow, Width;
    Pow2Values();
    OnLess(address, 15, 13);
    ZeroOn(15);
    OnNext(0, lsize, 15);
    assert FitsAt(address, lsize, 16);
    if Width(lsize) < 15 {
      Pow2Grows(Width(lsize), 14);
    }
  }

  lemma ZeroOn(k: nat)
    ensures On(0, k)
  {
  }

  lemma StepKeeps(address: nat, lsize: nat, pow: nat)
    requires InSteps(address, lsize) && lsize > 0 && address + lsize <= TWO64
    requires pow >= 16 && FitsAt(address, lsize, pow)
    ensures
      var to := StepTo(address, lsize, pow);
      address <= to <= address + lsize && InSteps(to, address + lsize - to)
  {
    hide Pow2, On, PartEnd;
    var to, end := StepTo(address, lsize, pow), address + lsize;
    StepInside(address, lsize, pow);
    OnSum(address, lsize, 15);
    if WholeFits(address, lsize, pow) {
      OnTimes(1, pow);
      OnSum(address, Pow2(pow), pow);
      OnLess(to, pow, 15);
    } else if end == TWO64 {
      TopStays(address, lsize, pow);
    } else {
      PartEnds(address, lsize, pow);
      if On(to, pow) {
        OnLess(to, pow, 15);
      } else if pow >= 18 {
        OnLess(to, pow - 3, 15);
      } else {
        OnLess(end, 15, pow - 3);
        Closest(to, end, pow - 3);
      }
    }
    OnSum(to, end - to, 15);
  }

  lemma Closest(to: nat, end: nat, k: nat)
    requires On(to, k) && On(end, k) && to <= end < to + Pow2(k)
    ensures to == end
  {
    hide Pow2, On;
    if to < end {
      OnNext(to, end, k);
    }
  }

  /** A range of whole 32 KiB steps is covered to its end, unless the regions run out. */
  lemma {:induction false} StepsFinish(address: nat, lsize: nat, width: nat, left: nat)
    requires InSteps(address, lsize) && width >= 16 && address + lsize <= TWO64
    ensures var plan := PlanFor(address, lsize, width, left); plan.enough ==> plan.leftover == 0
    decreases left
  {
    hide InSteps, FitPow, StepTo, FitsAt, Width;
    if lsize > 0 && left > 0 {
      StepsFit(address, lsize, width);
      var pow := FitPow(address, lsize, width);
      PlanStep(address, lsize, width, left);
      StepKeeps(address, lsize, pow);
      var to := StepTo(address, lsize, pow);
      StepsFinish(to, address + lsize - to, width, left - 1);
    } else if lsize > 0 {
      StepsFit(address, lsize, width);
    }
  }

  // How many regions that takes.

  /** The bus has fewer than 64 address bits, and the range lies below its top. */
  predicate OnBus(address: nat, lsize: nat, width: nat) {
    16 <= width <= 63 && address + lsize <= Pow2(width)
  }

  lemma BusBelowTop(address: nat, lsize: nat, width: nat)
    requires OnBus(address, lsize, width)
    ensures address + lsize < TWO64 && Width(lsize) <= width
  {
    hide Pow2, Width;
    Pow2Splits(64, 32);
    Pow2Splits(32, 16);
    Pow2Values();
    Pow2Grows(width, 64);
    WidthLeast(lsize, width);
  }

  /** A size that the alignment of the address and the length of the range allow is tried. */
  lemma FitsLargest(address: nat, lsize: nat, width: nat, q: nat)
    requires 16 <= q <= width && On(address, q - 3) && q <= Width(lsize) + 1 && lsize >= 2
    ensures FitPow(address, lsize, width) >= q
  {
    hide On, FitPow, Width;
    Pow2Grows(q - 2, Width(lsize) - 1);
    assert 2 * Pow2(q - 3) == Pow2(q - 2);
    assert FitsAt(address, lsize, q);
  }

  /** The first case only ever finishes a range on the bus. */
  lemma WholeFinishes(address: nat, lsize: nat, width: nat, p: nat)
    requires OnBus(address, lsize, width) && lsize > 0 && p == FitPow(address, lsize, width) > 0
    requires WholeFits(address, lsize, p)
    ensures p == width && address + lsize == StepTo(address, lsize, p) && On(address + lsize, p)
  {
    hide On, FitPow, PartEnd;
    OnNext(address, address + lsize, p);
    if p < width {
      NextFits(address, lsize, p);
    }
  }

  /** Where a whole region fits, half of a region of twice its size does. */
  lemma NextFits(address: nat, lsize: nat, p: nat)
    requires p >= 3 && lsize > 0 && WholeFits(address, lsize, p)
    ensures FitsAt(address, lsize, p + 1)
  {
    hide On;
    OnNext(address, address + lsize, p);
    OnLess(address, p, p - 2);
    assert Pow2(p) == 4 * Pow2(p - 2);
  }

  /** How a round ends: on a boundary of the region, or with less than a subregion left. */
  lemma RoundEnds(address: nat, lsize: nat, width: nat, p: nat)
    requires OnBus(address, lsize, width) && lsize > 0 && p == FitPow(address, lsize, width) > 0
    ensures
      var to, end := StepTo(address, lsize, p), address + lsize;
      address < to <= end && On(to, p - 3) && On(address, p - 3) && (On(to, p) || end - to < Pow2(p - 3))
    ensures Pow2(p - 2) < lsize
  {
    hide On, FitPow, Width;
    BusBelowTop(address, lsize, width);
    if WholeFits(address, lsize, p) {
      WholeFinishes(address, lsize, width, p);
      OnLess(address + lsize, p, p - 3);
      OnLess(address, p, p - 3);
      OnNext(address, address + lsize, p);
      Pow2Grows(p - 2, p);
    } else {
      PartEnds(address, lsize, p);
      assert Pow2(p - 2) == 2 * Pow2(p - 3);
    }
  }

  /** The region size chosen once the address is aligned to the length of the range. */
  function ClosePow(lsize: nat, width: nat): nat {
    if Width(lsize) < width then Width(lsize) + 1 else width
  }

  /** From an address aligned to the length of the range, the rest is the length modulo a subregion. */
  lemma Close(address: nat, lsize: nat, width: nat)
    requires OnBus(address, lsize, width) && On(address, Width(lsize)) && Width(lsize) >= 15
    ensures FitPow(address, lsize, width) == ClosePow(lsize, width) >= 16
    ensures
      var k := ClosePow(lsize, width) - 3;
      var to := StepTo(address, lsize, k + 3);
      address < to <= address + lsize && address + lsize - to == lsize % Pow2(k) && On(to, k)
  {
    hide On, Pow2, FitPow, Width, WholeFits, StepTo;
    var w, q := Width(lsize), ClosePow(lsize, width);
    var p := FitPow(address, lsize, width);
    BusBelowTop(address, lsize, width);
    WideEnough(lsize);
    OnLess(address, w, q - 3);
    FitsLargest(address, lsize, width, q);
    RoundEnds(address, lsize, width, p);
    if p > w + 1 {
      Pow2Grows(w, p - 2);
    }
    assert p == q;
    var to, end := StepTo(address, lsize, p), address + lsize;
    if On(to, p) {
      OnLess(to, p, if p < w then p else w);
      BoundaryPastEnd(address, lsize, to, if p < w then p else w);
    }
    Remainder(address, lsize, to, p - 3);
  }

  lemma WideEnough(n: nat)
    requires Width(n) >= 15
    ensures n >= 2
  {
    hide Width;
    if n < 2 {
      SmallWidth(n);
    }
  }

  lemma BoundaryPastEnd(address: nat, lsize: nat, to: nat, w: nat)
    requires On(address, w) && On(to, w) && address < to <= address + lsize && lsize <= Pow2(w)
    ensures to == address + lsize
  {
    hide On;
    OnNext(address, to, w);
  }

  lemma Remainder(address: nat, lsize: nat, to: nat, k: nat)
    requires On(address, k) && On(to, k) && address <= to <= address + lsize < to + Pow2(k)
    ensures address + lsize - to == lsize % Pow2(k)
  {
    hide Pow2;
    OnSum(address, to - address, k);
    var q := (to - address) / Pow2(k);
    assert to - address == Pow2(k) * q;
    DivModUnique(lsize, Pow2(k), q, address + lsize - to);
  }

  /** From an address that is not, it is reached, or the address gains at least three zero bits. */
  lemma Far(address: nat, lsize: nat, width: nat, v: nat)
    requires OnBus(address, lsize, width) && On(address, v) && 15 <= v < Width(lsize)
    ensures FitPow(address, lsize, width) >= 16
    ensures
      var to := StepTo(address, lsize, FitPow(address, lsize, width));
      && address < to <= address + lsize
      && (On(to, Width(address + lsize - to)) || (On(to, v + 3) && v + 3 < Width(address + lsize - to)))
  {
    hide On, Pow2, FitPow, Width, WholeFits, StepTo;
    var w := Width(lsize);
    BusBelowTop(address, lsize, width);
    WideEnough(lsize);
    var q := if v + 3 < ClosePow(lsize, width) then v + 3 else ClosePow(lsize, width);
    OnLess(address, v, q - 3);
    FitsLargest(address, lsize, width, q);
    var p := FitPow(address, lsize, width);
    RoundEnds(address, lsize, width, p);
    var to, rest := StepTo(address, lsize, p), address + lsize - StepTo(address, lsize, p);
    WidthLeast(rest, w);
    if On(to, p) {
      WidthOfRest(to, rest, width, p);
      OnLess(to, p, if p < v + 3 then p else v + 3);
      if Width(rest) <= p {
        OnLess(to, p, Width(rest));
      }
    } else {
      WidthLeast(rest, p - 3);
      OnLess(to, p - 3, Width(rest));
    }
  }

  /** A boundary of the largest region is the end of the bus. */
  lemma WidthOfRest(to: nat, rest: nat, width: nat, p: nat)
    requires On(to, p) && to > 0 && to + rest <= Pow2(width)
    ensures p >= width ==> Width(rest) == 0
  {
    hide On, Pow2;
    if p >= width {
      OnLess(to, p, width);
      ZeroOn(width);
      OnNext(0, to, width);
    }
  }

  /** How many regions are always enough. */
  function RegionBound(width: nat): nat
    requires width >= 16
  {
    (width - 13) / 3 + (width - 13) / 2
  }

  lemma {:induction false} CloseBound(address: nat, lsize: nat, width: nat, left: nat)
    requires InSteps(address, lsize) && OnBus(address, lsize, width) && On(address, Width(lsize))
    requires lsize > 0 ==> Width(lsize) - 13 < 2 * left + 2
    ensures address + lsize < TWO64 && PlanFor(address, lsize, width, left).enough
    decreases left
  {
    hide InSteps, On, Pow2, FitPow, Width, StepTo, FitsAt;
    BusBelowTop(address, lsize, width);
    if lsize > 0 {
      StepsFit(address, lsize, width);
      Close(address, lsize, width);
      var p := ClosePow(lsize, width);
      var to := StepTo(address, lsize, p);
      var rest := address + lsize - to;
      PlanStep(address, lsize, width, left);
      StepKeeps(address, lsize, p);
      WidthLeast(rest, p - 3);
      OnLess(to, p - 3, Width(rest));
      if rest > 0 {
        StepsFit(to, rest, width);
      }
      CloseBound(to, rest, width, left - 1);
    }
  }

  lemma {:induction false} FarBound(address: nat, lsize: nat, width: nat, v: nat, left: nat)
    requires InSteps(address, lsize) && OnBus(address, lsize, width) && On(address, v) && v >= 15
    requires v < width ==> left >= (width - v + 2) / 3 + (width - 13) / 2
    requires left >= (width - 13) / 2
    ensures address + lsize < TWO64 && PlanFor(address, lsize, width, left).enough
    decreases left
  {
    hide InSteps, On, Pow2, FitPow, Width, StepTo, FitsAt;
    BusBelowTop(address, lsize, width);
    if On(address, Width(lsize)) {
      CloseBound(address, lsize, width, left);
    } else {
      if v >= Width(lsize) {
        OnLess(address, v, Width(lsize));
      }
      Far(address, lsize, width, v);
      var p := FitPow(address, lsize, width);
      var to := StepTo(address, lsize, p);
      var rest := address + lsize - to;
      PlanStep(address, lsize, width, left);
      StepKeeps(address, lsize, p);
      BusBelowTop(to, rest, width);
      if On(to, Width(rest)) {
        CloseBound(to, rest, width, left - 1);
      } else {
        FarBound(to, rest, width, v + 3, left - 1);
      }
    }
  }

  /**
   Every range of whole 32 KiB steps on the bus is covered to its end by at most RegionBound(width) regions: 15 for
   32 address bits.
   */
  lemma RegionsSuffice(address: nat, lsize: nat, width: nat, left: nat)
    requires InSteps(address, lsize) && OnBus(address, lsize, width) && left >= RegionBound(width)
    ensures address + lsize < TWO64
    ensures
      var plan := PlanFor(address, lsize, width, left);
      plan.enough && plan.leftover == 0 && plan.pieces <= RegionBound(width)
  {
    hide FitPow, On;
    FarBound(address, lsize, width, 15, RegionBound(width));
    PlanSame(address, lsize, width, RegionBound(width), left);
    StepsFinish(address, lsize, width, left);
  }

  // Ranges in smaller steps.

  /** Only whole subregions of 8 KiB, and more than two of them, are ever covered. */
  lemma {:induction false} OnlySubregions(address: nat, lsize: nat, width: nat, left: nat)
    requires address + lsize <= TWO64 && lsize > 0
    requires var plan := PlanFor(address, lsize, width, left); plan.enough && plan.leftover == 0
    ensures On(address, 13) && On(lsize, 13) && lsize > 0x4000
    decreases left
  {
    hide On, Pow2, FitPow, StepTo, FitsAt;
    var p := FitPow(address, lsize, width);
    var to, end := StepTo(address, lsize, p), address + lsize;
    PlanStep(address, lsize, width, left);
    FitNeeds(address, lsize, p);
    if to < end {
      OnlySubregions(to, end - to, width, left - 1);
      OnSum(to, end - to, 13);
    }
    OnSum(address, lsize, 13);
  }

  lemma FitNeeds(address: nat, lsize: nat, p: nat)
    requires p >= 16 && lsize > 0 && address + lsize <= TWO64 && FitsAt(address, lsize, p)
    ensures On(address, 13) && On(StepTo(address, lsize, p), 13) && lsize > 0x4000
  {
    hide On, Pow2, PartEnd;
    Pow2Values();
    if WholeFits(address, lsize, p) {
      OnNext(address, address + lsize, p);
      Pow2Grows(16, p);
      OnTimes(1, p);
      OnSum(address, Pow2(p), p);
      OnLess(address, p, 13);
      OnLess(address + Pow2(p), p, 13);
    } else {
      Pow2Grows(13, p - 3);
      OnLess(address, p - 3, 13);
      if address + lsize == TWO64 {
        TopStays(address, lsize, p);
      } else {
        PartEnds(address, lsize, p);
        OnLess(StepTo(address, lsize, p), p - 3, 13);
      }
    }
  }

  /** Taking the length modulo a subregion, again and again, leaves nothing. */
  predicate Drops(lsize: nat, width: nat)
    requires width >= 16
  {
    lsize == 0 ||
    (lsize > 0x4000 && Drops(Modulo(lsize, Pow2(Subregion(lsize, width))), width))
  }

  function Modulo(a: nat, d: nat): (r: nat)
    requires d > 0
    ensures a >= d ==> r < a
  {
    a % d
  }

  /** log2 of the subregion size, from an address aligned to the length of the range. */
  function Subregion(lsize: nat, width: nat): (k: nat)
    requires width >= 16 && lsize > 0x4000
    ensures k >= 13 && Pow2(k) <= lsize && k + 3 == ClosePow(lsize, width)
  {
    WideRange(lsize);
    Pow2Grows(ClosePow(lsize, width) - 3, Width(lsize) - 1);
    ClosePow(lsize, width) - 3
  }

  lemma WideRange(n: nat)
    requires n > 0x4000
    ensures Width(n) >= 15
  {
    hide Pow2, Width;
    Pow2Values();
    if Width(n) < 15 {
      Pow2Grows(Width(n), 14);
    }
  }

  /** From an address aligned to its length, a range is covered to its end exactly when the lengths drop to zero. */
  lemma {:induction false} ClosedWhen(address: nat, lsize: nat, width: nat, left: nat)
    requires OnBus(address, lsize, width) && On(address, Width(lsize))
    ensures address + lsize < TWO64
    ensures var plan := PlanFor(address, lsize, width, left);
      plan.enough ==> (plan.leftover == 0 <==> Drops(lsize, width))
    decreases left
  {
    hide On, Pow2, FitPow, Width, StepTo, FitsAt;
    BusBelowTop(address, lsize, width);
    var plan := PlanFor(address, lsize, width, left);
    if lsize > 0x4000 {
      WideRange(lsize);
      Close(address, lsize, width);
      if left > 0 {
        var k := Subregion(lsize, width);
        var to := StepTo(address, lsize, k + 3);
        var rest := address + lsize - to;
        PlanStep(address, lsize, width, left);
        WidthLeast(rest, k);
        OnLess(to, k, Width(rest));
        ClosedWhen(to, rest, width, left - 1);
      }
    } else if lsize > 0 && plan.enough && plan.leftover == 0 {
      OnlySubregions(address, lsize, width, left);
    }
  }
}
