/** Countdown: count the places where the sequence contains the contiguous
    run k, k-1, ..., 1. The scan carries a flag that is set on reading k and
    cleared as soon as the run breaks or completes. */
module Countdown {

  /** The run k, k-1, ..., 1. */
  function CountdownOf(k: nat): (r: seq<int>)
    ensures |r| == k
    ensures forall t :: 0 <= t < k ==> r[t] == k - t
  {
    seq(k, t => k - t)
  }

  /** A countdown ends at index j: a[j-k+1..j+1] is k, k-1, ..., 1. */
  predicate CountdownEndsAt(a: seq<int>, k: int, j: int)
  {
    k >= 1 && k - 1 <= j < |a| && a[j - k + 1..j + 1] == CountdownOf(k)
  }

  /** Number of countdowns ending below index m. */
  function CountdownsBelow(a: seq<int>, k: int, m: int): nat
    decreases m
  {
    if m <= 0 then 0
    else CountdownsBelow(a, k, m - 1) + (if CountdownEndsAt(a, k, m - 1) then 1 else 0)
  }

  /** Length of the run of consecutive decrements by one that ends at j. */
  function StepsDownTo(a: seq<int>, j: nat): (r: nat)
    requires j < |a|
    ensures 1 <= r <= j + 1
  {
    if j == 0 then 1
    else if a[j] == a[j - 1] - 1 then StepsDownTo(a, j - 1) + 1
    else 1
  }

  /** The flag after reading a[j]: a countdown that started with k is in
      progress and has not yet reached 1 (closed form over StepsDownTo). */
  predicate InCountdownAfter(a: seq<int>, k: int, j: nat)
    requires j < |a|
  {
    1 <= k - a[j] < StepsDownTo(a, j) && !(a[j] <= 1 <= k - 1)
  }

  /** The countdown-detection loop over a case already read into `a` (a[0] is
      the token read before the loop). For k < 2 it never counts: with k = 1
      the flag is set on reading 1 and only a following 0 could continue it. */
  method CountCountdowns(a: seq<int>, k: int) returns (nCountdowns: nat)
    requires |a| >= 1
    ensures k >= 2 ==> nCountdowns == CountdownsBelow(a, k, |a|)
    ensures k < 2 ==> nCountdowns == 0
    ensures nCountdowns <= |a| - 1
  {
    var aIPrev := a[0];
    nCountdowns := 0;
    var inCountdown := false;
    var idx := 1;
    while idx < |a|
      invariant 1 <= idx <= |a|
      invariant aIPrev == a[idx - 1]
      invariant inCountdown == InCountdownAfter(a, k, idx - 1)
      invariant k >= 2 ==> nCountdowns == CountdownsBelow(a, k, idx)
      invariant k < 2 ==> nCountdowns == 0
      invariant nCountdowns <= idx - 1
    {
      var aI := a[idx];
      if aIPrev == k {
        inCountdown := true;
      }
      if k >= 2 {
        CountdownIffSteps(a, k, idx);
      }
      if inCountdown {
        if aI == aIPrev - 1 {
          if aI == 1 {
            nCountdowns := nCountdowns + 1;
            inCountdown := false;
          }
        } else {
          inCountdown := false;
        }
      }
      aIPrev := aI;
      idx := idx + 1;
    }
    if k >= 2 {
      assert !CountdownEndsAt(a, k, 0);
    }
  }

  /** StepsDownTo(a, j) >= m exactly when the m - 1 steps before j all go down
      by one. */
  lemma {:induction false} StepsDownToSpec(a: seq<int>, j: nat, m: nat)
    requires j < |a| && 1 <= m
    ensures StepsDownTo(a, j) >= m <==>
            (m - 1 <= j && forall t :: j - m + 1 <= t < j ==> a[t + 1] == a[t] - 1)
    decreases m
  {
    if m > 1 && j > 0 {
      StepsDownToSpec(a, j - 1, m - 1);
    }
  }

  /** A countdown of length k >= 1 ends at j exactly when a[j] == 1 and the
      k - 1 steps before j all go down by one. */
  lemma CountdownIffSteps(a: seq<int>, k: int, j: nat)
    requires j < |a| && k >= 1
    ensures CountdownEndsAt(a, k, j) <==> a[j] == 1 && StepsDownTo(a, j) >= k
  {
    StepsDownToSpec(a, j, k);
    if a[j] == 1 && StepsDownTo(a, j) >= k {
      var w := a[j - k + 1..j + 1];
      forall t | 0 <= t < k
        ensures w[t] == k - t
      {
        DescentValue(a, j, k, t);
      }
    }
    if CountdownEndsAt(a, k, j) {
      assert a[j] == a[j - k + 1..j + 1][k - 1];
      forall t | j - k + 1 <= t < j
        ensures a[t + 1] == a[t] - 1
      {
        assert a[t] == a[j - k + 1..j + 1][t - (j - k + 1)];
        assert a[t + 1] == a[j - k + 1..j + 1][t + 1 - (j - k + 1)];
      }
    }
  }

  /** Along a run of decrements ending at a[j] == 1, the value u places before
      j is 1 + u. */
  lemma {:induction false} DescentValue(a: seq<int>, j: nat, k: int, t: int)
    requires j < |a| && 1 <= k && k - 1 <= j && a[j] == 1
    requires forall s :: j - k + 1 <= s < j ==> a[s + 1] == a[s] - 1
    requires 0 <= t < k
    ensures a[j - k + 1 + t] == k - t
    decreases k - t
  {
    if t < k - 1 {
      DescentValue(a, j, k, t + 1);
      assert a[j - k + 1 + t + 1] == a[j - k + 1 + t] - 1;
    }
  }
}
