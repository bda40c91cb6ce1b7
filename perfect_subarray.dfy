/** Perfect subarrays: the number of contiguous non-empty subarrays whose sum
    is a perfect square. Prefix sums P(0) = 0, P(1), ..., P(n) are counted in
    a table indexed by sum, shifted by an offset so that the most negative
    prefix sum lands on slot 0; for each new prefix P(k) and each square s
    the earlier prefixes with sum P(k) - s close a subarray of sum s. */
module PerfectSubarray {
  import opened IntMath

  /** P(k), the sum of the first k elements. */
  function PrefixSum(xs: seq<int>, k: int): int
    requires 0 <= k <= |xs|
  {
    if k == 0 then 0 else PrefixSum(xs, k - 1) + xs[k - 1]
  }

  /** The number of non-empty prefixes of length at most k whose sum is v. */
  function Seen(xs: seq<int>, v: int, k: int): (r: nat)
    requires 0 <= k <= |xs|
  {
    if k == 0 then 0 else Seen(xs, v, k - 1) + (if PrefixSum(xs, k) == v then 1 else 0)
  }

  /** The table entry of sum v, 0 outside the table. */
  function Lookup(data: seq<int>, offset: int, v: int): int
  {
    if 0 <= v + offset < |data| then data[v + offset] else 0
  }

  /** The table counts, for every sum v, the non-empty prefixes of length at
      most k with sum v. */
  ghost predicate Tabulates(xs: seq<int>, k: int, data: seq<int>, offset: int)
    requires 0 <= k <= |xs|
  {
    forall v :: Lookup(data, offset, v) == Seen(xs, v, k)
  }

  /** A list whose entries never decrease. */
  predicate Ascending(squares: seq<int>)
  {
    forall j, k :: 0 <= j < k < |squares| ==> squares[j] <= squares[k]
  }

  /** The count of one prefix sum p against the squares, as the scan takes
      it: a square whose difference is 0 is one subarray starting at the
      front, and the scan stops at the first difference below the table. */
  function CountFrom(p: int, squares: seq<int>, data: seq<int>, offset: int): int
  {
    if squares == [] then 0
    else
      var index := p - squares[0];
      var here := if index == 0 then 1 else 0;
      if index + offset < 0 then here
      else here + Lookup(data, offset, index) + CountFrom(p, squares[1..], data, offset)
  }

  /** The same count over every square, without the early stop. */
  function CountAll(p: int, squares: seq<int>, data: seq<int>, offset: int): int
  {
    if squares == [] then 0
    else
      var index := p - squares[0];
      (if index == 0 then 1 else 0) + Lookup(data, offset, index) + CountAll(p, squares[1..], data, offset)
  }

  /** Subarrays ending at position k whose sum is one of the squares, one per
      square: the front (P(0) = 0) and every earlier non-empty prefix with sum
      P(k) - s. */
  function EndingAt(xs: seq<int>, squares: seq<int>, k: int): int
    requires 1 <= k <= |xs|
  {
    if squares == [] then 0
    else
      var v := PrefixSum(xs, k) - squares[0];
      (if v == 0 then 1 else 0) + Seen(xs, v, k - 1) + EndingAt(xs, squares[1..], k)
  }

  /** Subarrays of xs[..n] whose sum is one of the squares. */
  function Perfect(xs: seq<int>, squares: seq<int>, n: int): int
    requires 0 <= n <= |xs|
  {
    if n == 0 then 0 else Perfect(xs, squares, n - 1) + EndingAt(xs, squares, n)
  }

  /** An independent count: the j in [0, m] whose prefix sum differs from p
      by one of the squares. */
  function Closing(xs: seq<int>, squares: seq<int>, p: int, m: int): (r: nat)
    requires 0 <= m <= |xs|
  {
    (if m == 0 then 0 else Closing(xs, squares, p, m - 1))
    + (if p - PrefixSum(xs, m) in squares then 1 else 0)
  }

  /** The number of pairs j < k <= n, that is of subarrays xs[j..k], whose
      sum P(k) - P(j) is one of the squares. */
  function Subarrays(xs: seq<int>, squares: seq<int>, n: int): (r: nat)
    requires 0 <= n <= |xs|
  {
    if n == 0 then 0 else Subarrays(xs, squares, n - 1) + Closing(xs, squares, PrefixSum(xs, n), n - 1)
  }

  /** The smallest and largest non-empty prefix sum, in one pass. */
  method GetMinMaxPartialSum(xs: seq<int>) returns (min: int, max: int)
    requires |xs| >= 1
    ensures forall k :: 1 <= k <= |xs| ==> min <= PrefixSum(xs, k) <= max
    ensures exists k :: 1 <= k <= |xs| && PrefixSum(xs, k) == min
    ensures exists k :: 1 <= k <= |xs| && PrefixSum(xs, k) == max
  {
    min := xs[0];
    max := xs[0];
    ghost var argMin, argMax := 1, 1;
    var partialSum := 0;
    var i := 0;
    while i < |xs|
      invariant 0 <= i <= |xs|
      invariant partialSum == PrefixSum(xs, i)
      invariant forall k :: 1 <= k <= i ==> min <= PrefixSum(xs, k) <= max
      invariant 1 <= argMin <= |xs| && PrefixSum(xs, argMin) == min
      invariant 1 <= argMax <= |xs| && PrefixSum(xs, argMax) == max
    {
      partialSum := partialSum + xs[i];
      if partialSum < min {
        argMin := i + 1;
      }
      if partialSum > max {
        argMax := i + 1;
      }
      min := if partialSum < min then partialSum else min;
      max := if partialSum > max then partialSum else max;
      i := i + 1;
    }
  }

  /** The squares 0, 1, 4, ..., c * c for c the ceiling of the square root of
      maxSquare (0 when maxSquare is negative). */
  method GenerateSquares(maxSquare: int) returns (result: seq<int>)
    ensures |result| == CeilSqrt(maxSquare) + 1
    ensures forall i :: 0 <= i < |result| ==> result[i] == i * i
    ensures forall j, k :: 0 <= j < k < |result| ==> result[j] < result[k]
    ensures maxSquare <= result[|result| - 1]
  {
    var capacity := CeilSqrt(maxSquare) + 1;
    result := [];
    var i := 0;
    while i < capacity
      invariant 0 <= i <= capacity && |result| == i
      invariant forall j :: 0 <= j < i ==> result[j] == j * j
    {
      var square := i * i;
      result := result + [square];
      i := i + 1;
    }
    forall j, k | 0 <= j < k < |result|
      ensures result[j] < result[k]
    {
      SquaresIncrease(j, k);
    }
  }

  lemma SquaresIncrease(j: int, k: int)
    requires 0 <= j < k
    ensures j * j < k * k
  {
    SquareMonotone(j + 1, k);
    assert (j + 1) * (j + 1) == j * j + 2 * j + 1;
  }

  class PartialSums {
    var data: seq<int>
    var offset: int

    /** A zeroed table spanning every non-empty prefix sum of xs, with the
        largest on the last slot and, when some are negative, the smallest
        on slot 0. */
    constructor (xs: seq<int>)
      requires |xs| >= 1
      ensures offset >= 0
      ensures forall k :: 1 <= k <= |xs| ==> 0 <= PrefixSum(xs, k) + offset < |data|
      ensures exists k :: 1 <= k <= |xs| && PrefixSum(xs, k) + offset == |data| - 1
      ensures offset == 0 || exists k :: 1 <= k <= |xs| && PrefixSum(xs, k) + offset == 0
      ensures forall i :: 0 <= i < |data| ==> data[i] == 0
    {
      var min, max := GetMinMaxPartialSum(xs);
      var off := -(if min < 0 then min else 0);
      var initialSize := max + off + 1;
      data := seq(initialSize, _ => 0);
      offset := off;
    }

    /** The slot of sum index. */
    function RealIndex(index: int): (r: nat)
      reads this
      requires index + offset >= 0
      ensures r - offset == index
    {
      index + offset
    }

    /** The count stored for sum index. */
    function At(index: int): (r: int)
      reads this
      requires 0 <= index + offset < |data|
      ensures r == Lookup(data, offset, index)
    {
      data[RealIndex(index)]
    }

    /** The slot of sum index, growing the table with zeros when the slot lies
        past its end. */
    method IndexMut(index: int) returns (slot: nat)
      requires index + offset >= 0
      modifies this
      ensures slot == index + offset && slot < |data| && offset == old(offset)
      ensures |data| == if slot < |old(data)| then |old(data)| else slot + 1
      ensures forall i :: 0 <= i < |old(data)| ==> data[i] == old(data)[i]
      ensures forall i :: |old(data)| <= i < |data| ==> data[i] == 0
    {
      var realIndex := RealIndex(index);
      if realIndex >= |data| {
        data := data + seq(realIndex + 1 - |data|, _ => 0);
      }
      slot := realIndex;
    }
  }

  /** Reading a table that tallies the first k prefix sums gives, for sum v,
      the number of non-empty prefixes of length at most k with sum v. */
  lemma AtCountsPrefixes(xs: seq<int>, k: int, ps: PartialSums, v: int)
    requires 0 <= k <= |xs| && Tabulates(xs, k, ps.data, ps.offset)
    requires 0 <= v + ps.offset < |ps.data|
    ensures ps.At(v) == Seen(xs, v, k)
  {
  }

  /** The subarrays ending at the prefix with sum partialSum: for each
      square in turn, the front when the difference is 0 plus the earlier
      prefixes with that difference, stopping once the difference falls
      below the table. */
  method CountSquares(partialSum: int, squares: seq<int>, partialSums: PartialSums) returns (result: int)
    requires forall k :: 0 <= k < |squares| ==> partialSum - squares[k] + partialSums.offset < |partialSums.data|
    ensures result == CountFrom(partialSum, squares, partialSums.data, partialSums.offset)
    ensures Ascending(squares) && partialSums.offset >= 0 ==>
              result == CountAll(partialSum, squares, partialSums.data, partialSums.offset)
  {
    result := 0;
    var i := 0;
    while i < |squares|
      invariant 0 <= i <= |squares|
      invariant result + CountFrom(partialSum, squares[i..], partialSums.data, partialSums.offset)
                == CountFrom(partialSum, squares, partialSums.data, partialSums.offset)
    {
      var square := squares[i];
      var index := partialSum - square;
      if index == 0 {
        result := result + 1;
      }
      if index + partialSums.offset < 0 {
        break;
      }
      var nOccurrences := partialSums.At(index);
      result := result + nOccurrences;
      assert squares[i..][1..] == squares[i + 1..];
      i := i + 1;
    }
    if Ascending(squares) && partialSums.offset >= 0 {
      BreakSkipsNothing(partialSum, squares, partialSums.data, partialSums.offset);
    }
  }

  /** The whole count: each prefix sum is matched against the table of the
      earlier ones, then entered into it. */
  method CountSquaresInSubarrays(xs: seq<int>, squares: seq<int>) returns (result: int)
    requires |xs| >= 1
    requires forall k :: 0 <= k < |squares| ==> squares[k] >= 0
    ensures Ascending(squares) ==> result == Perfect(xs, squares, |xs|)
    ensures (forall j, k :: 0 <= j < k < |squares| ==> squares[j] < squares[k]) ==>
              result == Subarrays(xs, squares, |xs|)
  {
    var partialSums := new PartialSums(xs);
    ghost var size := |partialSums.data|;
    result := 0;
    var partialSum := 0;
    var i := 0;
    while i < |xs|
      invariant 0 <= i <= |xs| && partialSum == PrefixSum(xs, i)
      invariant partialSums.offset >= 0 && |partialSums.data| == size
      invariant forall k :: 1 <= k <= |xs| ==> 0 <= PrefixSum(xs, k) + partialSums.offset < size
      invariant Tabulates(xs, i, partialSums.data, partialSums.offset)
      invariant Ascending(squares) ==> result == Perfect(xs, squares, i)
    {
      partialSum := partialSum + xs[i];
      assert 0 <= PrefixSum(xs, i + 1) + partialSums.offset < size;
      var hits := CountSquares(partialSum, squares, partialSums);
      if Ascending(squares) {
        TableCount(xs, squares, i + 1, partialSums.data, partialSums.offset);
      }
      result := result + hits;

      ghost var data0 := partialSums.data;
      var slot := partialSums.IndexMut(partialSum);
      partialSums.data := partialSums.data[slot := partialSums.data[slot] + 1];
      EnterPrefix(xs, i + 1, data0, partialSums.offset, slot, partialSums.data);
      i := i + 1;
    }
    if forall j, k :: 0 <= j < k < |squares| ==> squares[j] < squares[k] {
      PerfectCountsSubarrays(xs, squares, |xs|);
    }
  }

  /** Past the first difference below the table every later one is below
      it too, when the squares ascend, so the early stop drops nothing. */
  lemma {:induction false} BreakSkipsNothing(p: int, squares: seq<int>, data: seq<int>, offset: int)
    requires Ascending(squares) && offset >= 0
    ensures CountFrom(p, squares, data, offset) == CountAll(p, squares, data, offset)
    decreases |squares|
  {
    if squares != [] {
      var index := p - squares[0];
      if index + offset < 0 {
        BelowTable(p, squares[1..], data, offset, squares[0]);
      } else {
        BreakSkipsNothing(p, squares[1..], data, offset);
      }
    }
  }

  /** Squares no smaller than s give differences below the table once p - s
      is, and those count nothing. */
  lemma {:induction false} BelowTable(p: int, squares: seq<int>, data: seq<int>, offset: int, s: int)
    requires offset >= 0 && p - s + offset < 0
    requires forall k :: 0 <= k < |squares| ==> s <= squares[k]
    ensures CountAll(p, squares, data, offset) == 0
    decreases |squares|
  {
    if squares != [] {
      BelowTable(p, squares[1..], data, offset, s);
    }
  }

  /** With the table holding the non-empty prefixes of length below k, the
      full count of P(k) is the number of subarrays ending at k. */
  lemma TableCount(xs: seq<int>, squares: seq<int>, k: int, data: seq<int>, offset: int)
    requires 1 <= k <= |xs|
    requires Tabulates(xs, k - 1, data, offset)
    ensures CountAll(PrefixSum(xs, k), squares, data, offset) == EndingAt(xs, squares, k)
  {
    TableCountFrom(xs, squares, k, data, offset);
  }

  lemma {:induction false} TableCountFrom(xs: seq<int>, squares: seq<int>, k: int, data: seq<int>, offset: int)
    requires 1 <= k <= |xs|
    requires forall v :: Lookup(data, offset, v) == Seen(xs, v, k - 1)
    ensures CountAll(PrefixSum(xs, k), squares, data, offset) == EndingAt(xs, squares, k)
    decreases |squares|
  {
    if squares != [] {
      TableCountFrom(xs, squares[1..], k, data, offset);
    }
  }

  /** Counting P(k) into the table keeps it equal to Seen. */
  lemma EnterPrefix(xs: seq<int>, k: int, data0: seq<int>, offset: int, slot: int, data: seq<int>)
    requires 1 <= k <= |xs|
    requires Tabulates(xs, k - 1, data0, offset)
    requires slot == PrefixSum(xs, k) + offset && 0 <= slot < |data0|
    requires data == data0[slot := data0[slot] + 1]
    ensures Tabulates(xs, k, data, offset)
  {
    forall v
      ensures Lookup(data, offset, v) == Seen(xs, v, k)
    {
      assert Lookup(data0, offset, v) == Seen(xs, v, k - 1);
    }
  }

  /** With no square listed twice, the count per square is the number of
      subarrays whose sum is among the squares. */
  lemma {:induction false} PerfectCountsSubarrays(xs: seq<int>, squares: seq<int>, n: int)
    requires 0 <= n <= |xs|
    requires forall j, k :: 0 <= j < k < |squares| ==> squares[j] != squares[k]
    ensures Perfect(xs, squares, n) == Subarrays(xs, squares, n)
    decreases n
  {
    if n > 0 {
      PerfectCountsSubarrays(xs, squares, n - 1);
      EndingAtCloses(xs, squares, n);
    }
  }

  /** EndingAt(k) counts each j in [0, k) whose prefix closes a square. */
  lemma {:induction false} EndingAtCloses(xs: seq<int>, squares: seq<int>, k: int)
    requires 1 <= k <= |xs|
    requires forall j, l :: 0 <= j < l < |squares| ==> squares[j] != squares[l]
    ensures EndingAt(xs, squares, k) == Closing(xs, squares, PrefixSum(xs, k), k - 1)
    decreases |squares|
  {
    var p := PrefixSum(xs, k);
    SplitEnding(xs, squares, k, k - 1);
    ClosingByHits(xs, squares, p, k - 1);
  }

  /** The number of times x occurs in squares. */
  function Hits(squares: seq<int>, x: int): nat
  {
    if squares == [] then 0 else (if squares[0] == x then 1 else 0) + Hits(squares[1..], x)
  }

  /** Seen, summed over the squares: the earlier prefixes P(j), 1 <= j <= m,
      with P(k) - P(j) a square, counted once per matching square. */
  function SeenOver(xs: seq<int>, squares: seq<int>, p: int, m: int): int
    requires 0 <= m <= |xs|
  {
    if squares == [] then 0 else Seen(xs, p - squares[0], m) + SeenOver(xs, squares[1..], p, m)
  }

  /** EndingAt splits into the front term and the earlier prefixes. */
  lemma {:induction false} SplitEnding(xs: seq<int>, squares: seq<int>, k: int, m: int)
    requires 1 <= k <= |xs| && m == k - 1
    ensures EndingAt(xs, squares, k) == Hits(squares, PrefixSum(xs, k)) + SeenOver(xs, squares, PrefixSum(xs, k), m)
    decreases |squares|
  {
    if squares != [] {
      SplitEnding(xs, squares[1..], k, m);
    }
  }

  /** Summed over the squares, Seen(m) grows by the hits of P(m). */
  lemma {:induction false} SeenOverStep(xs: seq<int>, squares: seq<int>, p: int, m: int)
    requires 1 <= m <= |xs|
    ensures SeenOver(xs, squares, p, m) == SeenOver(xs, squares, p, m - 1) + Hits(squares, p - PrefixSum(xs, m))
    decreases |squares|
  {
    if squares != [] {
      SeenOverStep(xs, squares[1..], p, m);
    }
  }

  /** A value occurs at most once in a repetition-free list. */
  lemma {:induction false} HitsDistinct(squares: seq<int>, x: int)
    requires forall j, l :: 0 <= j < l < |squares| ==> squares[j] != squares[l]
    ensures Hits(squares, x) == if x in squares then 1 else 0
    decreases |squares|
  {
    if squares != [] {
      HitsDistinct(squares[1..], x);
      if squares[0] == x {
        assert x !in squares[1..] by {
          forall l | 0 <= l < |squares[1..]|
            ensures squares[1..][l] != x
          {
            assert squares[l + 1] != squares[0];
          }
        }
      }
    }
  }

  lemma {:induction false} ClosingByHits(xs: seq<int>, squares: seq<int>, p: int, m: int)
    requires 0 <= m <= |xs|
    requires forall j, l :: 0 <= j < l < |squares| ==> squares[j] != squares[l]
    ensures Closing(xs, squares, p, m) == Hits(squares, p) + SeenOver(xs, squares, p, m)
    decreases m
  {
    HitsDistinct(squares, p - PrefixSum(xs, m));
    if m == 0 {
      SeenOverZero(xs, squares, p);
    } else {
      ClosingByHits(xs, squares, p, m - 1);
      SeenOverStep(xs, squares, p, m);
    }
  }

  lemma {:induction false} SeenOverZero(xs: seq<int>, squares: seq<int>, p: int)
    ensures SeenOver(xs, squares, p, 0) == 0
    decreases |squares|
  {
    if squares != [] {
      SeenOverZero(xs, squares[1..], p);
    }
  }

  /** Every prefix sum of a list of negative numbers lies strictly below the
      earlier ones. */
  lemma {:induction false} NegativePrefixesFall(xs: seq<int>, j: int, k: int)
    requires forall i :: 0 <= i < |xs| ==> xs[i] < 0
    requires 0 <= j < k <= |xs|
    ensures PrefixSum(xs, k) < PrefixSum(xs, j)
    decreases k
  {
    if j < k - 1 {
      NegativePrefixesFall(xs, j, k - 1);
    }
  }

  /** With only negative numbers no subarray sums to a square: each
      subarray sum is negative. */
  lemma {:induction false} AllNegativeCountsNothing(xs: seq<int>, squares: seq<int>, n: int)
    requires forall i :: 0 <= i < |xs| ==> xs[i] < 0
    requires forall k :: 0 <= k < |squares| ==> squares[k] >= 0
    requires 0 <= n <= |xs|
    ensures Subarrays(xs, squares, n) == 0
    decreases n
  {
    if n > 0 {
      AllNegativeCountsNothing(xs, squares, n - 1);
      ClosingNothing(xs, squares, n, n - 1);
    }
  }

  lemma {:induction false} ClosingNothing(xs: seq<int>, squares: seq<int>, k: int, m: int)
    requires forall i :: 0 <= i < |xs| ==> xs[i] < 0
    requires forall l :: 0 <= l < |squares| ==> squares[l] >= 0
    requires 0 <= m < k <= |xs|
    ensures Closing(xs, squares, PrefixSum(xs, k), m) == 0
    decreases m
  {
    NegativePrefixesFall(xs, m, k);
    if m > 0 {
      ClosingNothing(xs, squares, k, m - 1);
    }
  }

  /** The three prefix-sum ranges of the source's own checks. */
  method MinMaxExamples() returns (a: (int, int), b: (int, int), c: (int, int))
    ensures a == (1, 15) && b == (-9, 6) && c == (-6, -1)
  {
    var x1, x2, x3 := [1, 2, 3, 4, 5], [1, 2, 3, -4, -5, -6], [-1, -2, -3];
    assert PrefixSum(x1, 1) == 1 && PrefixSum(x1, 2) == 3 && PrefixSum(x1, 3) == 6;
    assert PrefixSum(x1, 4) == 10 && PrefixSum(x1, 5) == 15;
    assert PrefixSum(x2, 1) == 1 && PrefixSum(x2, 2) == 3 && PrefixSum(x2, 3) == 6;
    assert PrefixSum(x2, 4) == 2 && PrefixSum(x2, 5) == -3 && PrefixSum(x2, 6) == -9;
    assert PrefixSum(x3, 1) == -1 && PrefixSum(x3, 2) == -3 && PrefixSum(x3, 3) == -6;
    var lo, hi := GetMinMaxPartialSum(x1);
    var k :| 1 <= k <= 5 && PrefixSum(x1, k) == lo;
    var l :| 1 <= l <= 5 && PrefixSum(x1, l) == hi;
    assert k in {1, 2, 3, 4, 5} && l in {1, 2, 3, 4, 5};
    a := (lo, hi);
    lo, hi := GetMinMaxPartialSum(x2);
    k :| 1 <= k <= 6 && PrefixSum(x2, k) == lo;
    l :| 1 <= l <= 6 && PrefixSum(x2, l) == hi;
    assert k in {1, 2, 3, 4, 5, 6} && l in {1, 2, 3, 4, 5, 6};
    b := (lo, hi);
    lo, hi := GetMinMaxPartialSum(x3);
    k :| 1 <= k <= 3 && PrefixSum(x3, k) == lo;
    l :| 1 <= l <= 3 && PrefixSum(x3, l) == hi;
    assert k in {1, 2, 3} && l in {1, 2, 3};
    c := (lo, hi);
  }

  /** Three zeros have six subarrays, all of sum 0. The source's test passes
      the squares up to 100; the list here stops at 4, and the squares it
      leaves out exceed every subarray sum. */
  lemma ExampleZeros()
    ensures Subarrays([0, 0, 0], [0, 1, 4], 3) == 6
  {
  }

  /** [4, 0, 0, 16] has nine subarrays of square sum: every one but the whole
      array, of sum 20. The source's test passes the squares up to 100; the
      list here stops at 16, the largest square not above 20. */
  lemma ExampleMixed()
    ensures Subarrays([4, 0, 0, 16], [0, 1, 4, 9, 16], 4) == 9
  {
  }
}
