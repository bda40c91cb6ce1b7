/** Longest arithmetic subarray: the length of the longest contiguous run of
    the sequence whose consecutive differences are all equal. The scan never
    reports less than 2, even for a sequence shorter than that. */
module LongestArithmetic {

  /** a[lo..hi] has one common difference between neighbours (runs of length
      at most 2 trivially do). */
  predicate IsArithmetic(a: seq<int>, lo: int, hi: int)
  {
    && 0 <= lo <= hi <= |a|
    && forall t :: lo + 1 < t < hi ==> a[t] - a[t - 1] == a[lo + 1] - a[lo]
  }

  /** a has an arithmetic run of length len starting at lo. */
  predicate HasRunAt(a: seq<int>, lo: int, len: int)
  {
    0 <= lo && lo + len <= |a| && IsArithmetic(a, lo, lo + len)
  }

  /** The length of the longest arithmetic suffix of a[..i], for i >= 2. */
  function RunEndingAt(a: seq<int>, i: int): (r: int)
    requires 2 <= i <= |a|
    ensures 2 <= r <= i
    decreases i
  {
    if i == 2 then 2
    else if a[i - 1] - a[i - 2] == a[i - 2] - a[i - 3] then RunEndingAt(a, i - 1) + 1
    else 2
  }

  /** The best run among those ending at or before i, and never below 2. */
  function BestRunUpTo(a: seq<int>, i: int): (r: int)
    requires i <= |a|
    ensures r >= 2
    decreases i
  {
    if i <= 2 then 2
    else
      var best := BestRunUpTo(a, i - 1);
      var run := RunEndingAt(a, i);
      if run > best then run else best
  }

  /** The run-tracking loop: `jumpPrev` is the latest difference, `subSize`
      the current run and `maxSubSize` the best run so far. */
  method LongestRun(a: seq<int>) returns (maxSubSize: int)
    ensures maxSubSize >= 2
    ensures |a| < 2 ==> maxSubSize == 2
    ensures forall lo, hi :: IsArithmetic(a, lo, hi) ==> hi - lo <= maxSubSize
    ensures |a| >= 2 ==> exists lo :: HasRunAt(a, lo, maxSubSize)
  {
    var aPrev := 0;
    var jump: int;
    var jumpPrev := 0;
    var subSize := 2;
    maxSubSize := subSize;
    var i := 0;
    while i < |a|
      invariant 0 <= i <= |a|
      invariant i >= 1 ==> aPrev == a[i - 1]
      invariant i >= 2 ==> jumpPrev == a[i - 1] - a[i - 2]
      invariant i >= 2 ==> subSize == RunEndingAt(a, i)
      invariant i < 2 ==> subSize == 2
      invariant maxSubSize == BestRunUpTo(a, i)
      invariant maxSubSize >= subSize
    {
      var ai := a[i];
      if i > 0 {
        jump := ai - aPrev;
        if i > 1 {
          if jump == jumpPrev {
            subSize := subSize + 1;
            maxSubSize := if subSize > maxSubSize then subSize else maxSubSize;
          } else {
            subSize := 2;
          }
        }
        jumpPrev := jump;
      }
      aPrev := ai;
      i := i + 1;
    }
    BestRunIsUpperBound(a, |a|);
    if |a| >= 2 {
      BestRunIsAttained(a, |a|);
    }
  }

  /** The run ending at i is arithmetic. */
  lemma {:induction false} RunEndingAtIsArithmetic(a: seq<int>, i: int)
    requires 2 <= i <= |a|
    ensures 2 <= RunEndingAt(a, i) <= i
    ensures IsArithmetic(a, i - RunEndingAt(a, i), i)
    decreases i
  {
    if i > 2 && a[i - 1] - a[i - 2] == a[i - 2] - a[i - 3] {
      RunEndingAtIsArithmetic(a, i - 1);
      var lo := i - RunEndingAt(a, i);
      assert lo == (i - 1) - RunEndingAt(a, i - 1);
      forall t | lo + 1 < t < i
        ensures a[t] - a[t - 1] == a[lo + 1] - a[lo]
      {
        if t == i - 1 {
          if lo + 1 == i - 2 {
          } else {
            assert a[i - 2] - a[i - 3] == a[lo + 1] - a[lo];
          }
        }
      }
    }
  }

  /** No arithmetic run ending at i is longer than RunEndingAt(a, i). */
  lemma {:induction false} RunEndingAtIsLongest(a: seq<int>, lo: int, i: int)
    requires 2 <= i <= |a|
    requires IsArithmetic(a, lo, i)
    ensures i - lo <= RunEndingAt(a, i)
    decreases i
  {
    if i - lo > 2 {
      assert a[i - 1] - a[i - 2] == a[lo + 1] - a[lo];
      assert a[i - 2] - a[i - 3] == a[lo + 1] - a[lo];
      assert IsArithmetic(a, lo, i - 1);
      RunEndingAtIsLongest(a, lo, i - 1);
    }
  }

  /** Every arithmetic run inside a[..i] is at most BestRunUpTo(a, i) long. */
  lemma {:induction false} BestRunIsUpperBound(a: seq<int>, i: int)
    requires 0 <= i <= |a|
    ensures forall lo, hi :: hi <= i && IsArithmetic(a, lo, hi) ==> hi - lo <= BestRunUpTo(a, i)
    decreases i
  {
    if i > 2 {
      BestRunIsUpperBound(a, i - 1);
      forall lo, hi | hi <= i && IsArithmetic(a, lo, hi)
        ensures hi - lo <= BestRunUpTo(a, i)
      {
        if hi == i && hi - lo > 2 {
          RunEndingAtIsLongest(a, lo, i);
        }
      }
    }
  }

  /** BestRunUpTo(a, i) is the length of an actual arithmetic run. */
  lemma {:induction false} BestRunIsAttained(a: seq<int>, i: int)
    requires 2 <= i <= |a|
    ensures exists lo :: HasRunAt(a, lo, BestRunUpTo(a, i))
    decreases i
  {
    if i == 2 {
      assert BestRunUpTo(a, i) == 2;
      assert HasRunAt(a, 0, 2);
    } else {
      var best := BestRunUpTo(a, i - 1);
      var run := RunEndingAt(a, i);
      if run > best {
        RunEndingAtIsArithmetic(a, i);
        assert BestRunUpTo(a, i) == run;
        assert HasRunAt(a, i - run, run);
      } else {
        assert BestRunUpTo(a, i) == best;
        BestRunIsAttained(a, i - 1);
      }
    }
  }
}
