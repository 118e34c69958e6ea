/** Products and finite sets of numbers, away from everything that uses them. */
module Arithmetic {
  lemma MulMonotone(x: nat, y: nat, n: nat)
    requires x <= y
    ensures x * n <= y * n
  {
  }

  lemma MulSuccessor(x: nat, y: nat)
    ensures x * (y + 1) == x * y + x
  {
  }

  lemma MulAssociates(x: nat, y: nat, z: nat)
    ensures x * (y * z) == (x * y) * z
  {
  }

  lemma DivTimes(n: nat, d: nat)
    requires 0 < d
    ensures n / d * d <= n
  {
  }

  lemma DivAtLeast(x: nat, d: nat, n: nat)
    requires 0 < d && x * d <= n
    ensures x <= n / d
  {
    if x > n / d { MulMonotone(n / d + 1, x, d); }
  }

  lemma DivBelow(n: nat, d: nat, k: nat)
    requires 0 < d && n <= (d - 1) * k && 0 < k
    ensures n / d < k
  {
    DivTimes(n, d);
    MulSuccessor(k, d - 1);
    if n / d >= k { MulMonotone(k, n / d, d); }
  }

  lemma DivMod(q: nat, r: nat, n: nat)
    requires r < n
    ensures (q * n + r) / n == q && (q * n + r) % n == r
  {
    var x := q * n + r;
    var d, m := x / n, x % n;
    assert x == d * n + m;
    if d < q { MulMonotone(d + 1, q, n); }
    if q < d { MulMonotone(q + 1, d, n); }
  }

  lemma {:induction false} BelowBound(x: set<nat>, n: nat)
    requires forall k :: k in x ==> k < n
    ensures |x| <= n
  {
    if n > 0 {
      BelowBound(x - {n - 1}, n - 1);
    } else {
      assert x == {};
    }
  }

  lemma UnionSize<T>(x: set<T>, y: set<T>)
    requires x !! y
    ensures |x + y| == |x| + |y|
  {
  }

  lemma DifferenceSize<T>(x: set<T>, y: set<T>)
    requires y <= x
    ensures |x - y| == |x| - |y|
  {
    assert x == (x - y) + y;
  }
}
