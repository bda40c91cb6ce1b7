/** Bus routes: route i runs only on days that are multiples of xs[i]; the
    routes must be taken in order and the last one by day d. Rounding the
    deadline down route by route, from the last route to the first, gives the
    latest day on which the first route can be taken. */
module BusRoutes {
  import opened IntMath

  /** The remainder of C#'s `%` operator, which truncates toward zero: its sign
      follows the dividend (Dafny's own `%` is Euclidean). */
  function CsRem(a: int, b: int): (r: int)
    requires b != 0
    ensures a >= 0 ==> 0 <= r < (if b > 0 then b else -b)
    ensures a < 0 ==> -(if b > 0 then b else -b) < r <= 0
  {
    if a >= 0 then a % b else -((-a) % b)
  }

  /** The value of `di` once routes xs[i..] have been processed (from the last
      route down to route i), starting from d. */
  function RoundedFrom(xs: seq<int>, d: int, i: nat): int
    requires i <= |xs|
    requires forall j :: 0 <= j < |xs| ==> xs[j] != 0
    decreases |xs| - i
  {
    if i == |xs| then d
    else
      var t := RoundedFrom(xs, d, i + 1);
      t - CsRem(t, xs[i])
  }

  /** A plan takes route i on day t[i]: a multiple of xs[i], the days in route
      order, the last one no later than d. */
  predicate IsPlan(xs: seq<int>, d: int, t: seq<int>)
    requires forall j :: 0 <= j < |xs| ==> xs[j] != 0
  {
    && |t| == |xs|
    && (forall i :: 0 <= i < |t| ==> t[i] % xs[i] == 0)
    && (forall i :: 0 <= i < |t| - 1 ==> t[i] <= t[i + 1])
    && (|t| > 0 ==> t[|t| - 1] <= d)
  }

  /** The backward rounding loop. The routes are visited from the last to the
      first; with a non-negative deadline and positive periods, `di` never
      increases, stays non-negative, and ends as a multiple of xs[0]. */
  method LatestStart(xs: seq<int>, d: int) returns (di: int)
    requires forall j :: 0 <= j < |xs| ==> xs[j] != 0
    ensures di == RoundedFrom(xs, d, 0)
    ensures d >= 0 && (forall j :: 0 <= j < |xs| ==> xs[j] > 0) ==>
              0 <= di <= d && (|xs| > 0 ==> di % xs[0] == 0)
  {
    di := d;
    var i := |xs| - 1;
    while i >= 0
      invariant -1 <= i < |xs|
      invariant di == RoundedFrom(xs, d, i + 1)
      invariant d >= 0 && (forall j :: 0 <= j < |xs| ==> xs[j] > 0) ==>
                  0 <= di <= d && (i + 1 < |xs| ==> di % xs[i + 1] == 0)
    {
      var x := xs[i];
      if d >= 0 && (forall j :: 0 <= j < |xs| ==> xs[j] > 0) {
        RoundDownIsLargestMultiple(di, x, 0);
      }
      di := di - CsRem(di, x);
      i := i - 1;
    }
  }

  /** One step of the loop: for di >= 0 and x > 0 the new value is the largest
      multiple of x that is no greater than di. */
  lemma RoundDownIsLargestMultiple(di: int, x: int, m: int)
    requires di >= 0 && x > 0
    requires m % x == 0 && m <= di
    ensures 0 <= di - CsRem(di, x) <= di
    ensures (di - CsRem(di, x)) % x == 0
    ensures m <= di - CsRem(di, x)
  {
    RoundDownIsMultiple(di, x);
    RoundDownIsLargest(di, x, m);
  }

  lemma RoundDownIsMultiple(di: int, x: int)
    requires di >= 0 && x > 0
    ensures di - CsRem(di, x) == (di / x) * x
    ensures 0 <= (di / x) * x <= di
    ensures ((di / x) * x) % x == 0
  {
    var q := di / x;
    DivMod(di, x);
    if q < 0 {
      MulMonotone(q, -1, x);
      assert false;
    }
    MulMonotone(0, q, x);
    MultipleMod(q, x);
  }

  lemma RoundDownIsLargest(di: int, x: int, m: int)
    requires di >= 0 && x > 0
    requires m % x == 0 && m <= di
    ensures m <= (di / x) * x
  {
    var q, r := di / x, di % x;
    DivMod(di, x);
    var k := m / x;
    DivMod(m, x);
    MultipleBelow(k, q, r, x);
    MulMonotone(k, q, x);
  }

  /** The rounded-down days form a plan. */
  lemma {:induction false} RoundedDaysArePlan(xs: seq<int>, d: int)
    requires d >= 0 && forall j :: 0 <= j < |xs| ==> xs[j] > 0
    ensures IsPlan(xs, d, seq(|xs|, i requires 0 <= i < |xs| => RoundedFrom(xs, d, i)))
  {
    var t := seq(|xs|, i requires 0 <= i < |xs| => RoundedFrom(xs, d, i));
    forall i | 0 <= i < |xs|
      ensures t[i] % xs[i] == 0 && 0 <= t[i] <= RoundedFrom(xs, d, i + 1)
      ensures 0 <= RoundedFrom(xs, d, i + 1) <= d
    {
      RoundedNonNegative(xs, d, i + 1);
      RoundDownIsLargestMultiple(RoundedFrom(xs, d, i + 1), xs[i], 0);
    }
  }

  lemma {:induction false} RoundedNonNegative(xs: seq<int>, d: int, i: nat)
    requires i <= |xs|
    requires d >= 0 && forall j :: 0 <= j < |xs| ==> xs[j] > 0
    ensures 0 <= RoundedFrom(xs, d, i) <= d
    decreases |xs| - i
  {
    if i < |xs| {
      RoundedNonNegative(xs, d, i + 1);
      RoundDownIsLargestMultiple(RoundedFrom(xs, d, i + 1), xs[i], 0);
    }
  }

  /** No plan takes route i later than the rounded-down day: the greedy answer
      is the latest possible first day. */
  lemma {:induction false} PlanNoLaterThanRounded(xs: seq<int>, d: int, t: seq<int>, i: nat)
    requires d >= 0 && forall j :: 0 <= j < |xs| ==> xs[j] > 0
    requires IsPlan(xs, d, t)
    requires i < |xs|
    ensures t[i] <= RoundedFrom(xs, d, i)
    decreases |xs| - i
  {
    RoundedNonNegative(xs, d, i + 1);
    var bound := RoundedFrom(xs, d, i + 1);
    if i + 1 < |xs| {
      PlanNoLaterThanRounded(xs, d, t, i + 1);
    }
    assert t[i] <= bound;
    RoundDownIsLargestMultiple(bound, xs[i], t[i]);
  }

  /** The answer of LatestStart is the latest first day over all plans. */
  lemma LatestStartIsOptimal(xs: seq<int>, d: int, t: seq<int>)
    requires d >= 0 && forall j :: 0 <= j < |xs| ==> xs[j] > 0
    requires IsPlan(xs, d, t) && |xs| > 0
    ensures t[0] <= RoundedFrom(xs, d, 0)
  {
    PlanNoLaterThanRounded(xs, d, t, 0);
  }
}
