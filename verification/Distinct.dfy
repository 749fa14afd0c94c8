/** Sequences without repetition, and how long they can be. */
module Distinct {
  function Elements(q: seq<nat>): set<nat> {
    set x | x in q
  }

  ghost predicate NoDuplicates(q: seq<nat>) {
    forall i, j :: 0 <= i < j < |q| ==> q[i] != q[j]
  }

  lemma {:induction false} FitsIn(q: seq<nat>, u: set<nat>)
    requires NoDuplicates(q) && Elements(q) <= u
    ensures |q| <= |u|
  {
    if q != [] {
      var last := q[|q| - 1];
      assert last in Elements(q);
      assert Elements(q[..|q| - 1]) <= u - {last};
      FitsIn(q[..|q| - 1], u - {last});
    }
  }

  /** The numbers below n. */
  function Below(n: nat): (s: set<nat>)
    ensures |s| == n && forall i :: i in s <==> 0 <= i < n
  {
    if n == 0 then {} else Below(n - 1) + {n - 1}
  }

  /** More numbers below n than there are: two of them are equal. */
  lemma Repeats(q: seq<nat>, n: nat)
    requires |q| > n && forall i :: 0 <= i < |q| ==> q[i] < n
    ensures exists i, j :: 0 <= i < j < |q| && q[i] == q[j]
  {
    if NoDuplicates(q) {
      assert Elements(q) <= Below(n);
      FitsIn(q, Below(n));
    }
  }
}
