/** Integer arithmetic shared by the models: the facts about products and
    Euclidean division that the solver needs spelled out, and the integer
    square roots that stand in for the floating-point `sqrt` of the sources. */
module IntMath {

  lemma DivMod(a: int, x: int)
    requires x > 0
    ensures a == (a / x) * x + a % x && 0 <= a % x < x
  {
  }

  /** If k*x <= q*x + r with 0 <= r < x, then k <= q. */
  lemma MultipleBelow(k: int, q: int, r: int, x: int)
    requires x > 0 && 0 <= r < x
    requires k * x <= q * x + r
    ensures k <= q
  {
    if k >= q + 1 {
      MulMonotone(q + 1, k, x);
      assert false;
    }
  }

  /** A multiple of x leaves no remainder. */
  lemma MultipleMod(k: int, x: int)
    requires x > 0
    ensures (k * x) % x == 0
  {
    var m := k * x;
    var q, r := m / x, m % x;
    assert (k - q) * x == r;
    if k - q >= 1 {
      MulMonotone(1, k - q, x);
      assert false;
    } else if k - q <= -1 {
      MulMonotone(k - q, -1, x);
      assert false;
    }
  }

  /** The quotient and remainder are the only ones: a == k*x + s with
      0 <= s < x forces a % x == s. */
  lemma DivModUnique(a: int, x: int, k: int, s: int)
    requires x > 0 && 0 <= s < x && a == k * x + s
    ensures a % x == s && a / x == k
  {
    var q := a / x;
    DivMod(a, x);
    MultipleBelow(k, q, a % x, x);
    MultipleBelow(q, k, s, x);
  }

  lemma MulMonotone(a: int, b: int, x: int)
    requires a <= b && x >= 0
    ensures a * x <= b * x
  {
  }


  lemma SquareMonotone(a: int, b: int)
    requires 0 <= a <= b
    ensures a * a <= b * b
  {
    MulMonotone(a, b, a);
    MulMonotone(a, b, b);
  }

  /** The floor of the square root of n. */
  function FloorSqrt(n: nat): (r: nat)
    ensures r * r <= n < (r + 1) * (r + 1)
  {
    if n == 0 then 0
    else
      var s := FloorSqrt(n - 1);
      if (s + 1) * (s + 1) <= n then s + 1 else s
  }

  /** The floor square root is the only r with r*r <= n < (r+1)*(r+1). */
  lemma FloorSqrtUnique(n: nat, r: nat)
    requires r * r <= n < (r + 1) * (r + 1)
    ensures FloorSqrt(n) == r
  {
    var s := FloorSqrt(n);
    if s < r {
      SquareMonotone(s + 1, r);
      assert false;
    } else if r < s {
      SquareMonotone(r + 1, s);
      assert false;
    }
  }

  /** The ceiling of the square root of m (0 for m <= 0). */
  function CeilSqrt(m: int): (r: nat)
    ensures m <= r * r
    ensures r > 0 ==> (r - 1) * (r - 1) < m
  {
    if m <= 0 then 0
    else
      var f := FloorSqrt(m);
      if f * f == m then f else f + 1
  }
}
