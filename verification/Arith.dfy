/** Word sizes, and facts about multiplication and division that the solver is given one at a time. */
module Arith {
  const TWO32: nat := 0x1_0000_0000
  const TWO64: nat := 0x1_0000_0000_0000_0000
  const TWO128: nat := 0x1_0000_0000_0000_0000_0000_0000_0000_0000

  lemma ShiftedSum(a: nat, p: nat, b: nat, v: nat)
    ensures 256 * (a * p + b) + v == a * (256 * p) + (256 * b + v)
  {
  }

  lemma MulAtLeast(d: int, k: int)
    requires d > 0
    ensures (k >= 1 ==> d * k >= d) && (k <= -1 ==> d * k <= -d)
  {
    if k >= 1 {
      assert d * k == d * (k - 1) + d;
    } else {
      assert d * k == d * (k + 1) - d;
    }
  }

  lemma DivModUnique(n: nat, d: nat, q: nat, r: nat)
    requires d > 0 && n == d * q + r && r < d
    ensures n / d == q && n % d == r
  {
    assert n == d * (n / d) + n % d;
    assert d * (n / d - q) == d * (n / d) - d * q;
    MulAtLeast(d, n / d - q);
  }

  lemma DivMod256(n: nat, p: nat)
    requires p > 0
    ensures n % (256 * p) == 256 * (n / 256 % p) + n % 256
    ensures n / (256 * p) == n / 256 / p
  {
    var q, r := n / 256 / p, n / 256 % p;
    assert n / 256 == p * q + r;
    assert (256 * p) * q == 256 * (p * q);
    DivModUnique(n, 256 * p, q, 256 * r + n % 256);
  }

  lemma Multiple(n: nat, d: nat, q: nat)
    requires d > 0 && n == d * q
    ensures n % d == 0 && n / d == q
  {
    assert d * (n / d - q) == n - n % d - d * q;
    MulAtLeast(d, n / d - q);
  }

  lemma Monotone(a: nat, b: nat, d: nat)
    ensures a <= b ==> a * d <= b * d
  {
  }

  lemma MulRearranges(a: int, b: int, c: int)
    ensures a * (b * c) == b * (a * c) && a * (b + c) == a * b + a * c && a * b == b * a
  {
  }

  lemma DivBounds(n: nat, d: nat)
    requires d > 0
    ensures n / d * d <= n < (n / d + 1) * d
  {
    assert n == d * (n / d) + n % d;
  }

  function Pow2(n: nat): (p: nat)
    ensures p > 0
  {
    if n == 0 then 1 else 2 * Pow2(n - 1)
  }

  /** Bit k of a number. */
  predicate BitOf(n: nat, k: nat) {
    n / Pow2(k) % 2 == 1
  }

  lemma HalfThenDown(n: nat, p: nat)
    requires p > 0
    ensures n / (2 * p) == n / 2 / p
  {
    var q, r := n / 2 / p, n / 2 % p;
    assert n / 2 == p * q + r;
    assert (2 * p) * q == 2 * (p * q);
    DivModUnique(n, 2 * p, q, 2 * r + n % 2);
  }

  lemma LowHalves(a: nat, p: nat)
    requires p > 0
    ensures a % (2 * p) == 2 * (a / 2 % p) + a % 2
  {
    var q, r := a / 2 / p, a / 2 % p;
    assert a / 2 == p * q + r;
    assert (2 * p) * q == 2 * (p * q);
    DivModUnique(a, 2 * p, q, 2 * r + a % 2);
  }

  lemma Pow2Of16()
    ensures Pow2(16) == 0x1_0000
  {
    assert Pow2(4) == 0x10;
    assert Pow2(8) == 0x100;
    assert Pow2(12) == 0x1000;
  }
}
