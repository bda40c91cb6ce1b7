/** Bike tour: count the checkpoints that are strictly higher than both of
    their neighbours. The first and the last checkpoint are never peaks. */
module BikeTour {

  /** Checkpoint j is a peak: an interior index higher than both neighbours. */
  predicate IsPeak(hs: seq<int>, j: int)
  {
    1 <= j < |hs| - 1 && hs[j] > hs[j - 1] && hs[j] > hs[j + 1]
  }

  /** Number of peaks at indices below m. */
  function PeaksBelow(hs: seq<int>, m: int): nat
    decreases m
  {
    if m <= 1 then 0 else PeaksBelow(hs, m - 1) + (if IsPeak(hs, m - 1) then 1 else 0)
  }

  /** The peaks as a set of indices. */
  function PeakSet(hs: seq<int>): set<int>
  {
    set j | 0 <= j < |hs| && IsPeak(hs, j)
  }

  /** The peak-counting loop: only the interior indices 1..|hs|-2 are looked at,
      and the count is the number of peaks. */
  method CountPeaks(hs: seq<int>) returns (nPeaks: nat)
    ensures nPeaks == |PeakSet(hs)|
    ensures nPeaks <= if |hs| < 2 then 0 else |hs| - 2
    ensures nPeaks <= |hs| / 2
  {
    nPeaks := 0;
    var j := 1;
    while j < |hs| - 1
      invariant 1 <= j
      invariant j <= |hs| - 1 || j == 1
      invariant nPeaks == PeaksBelow(hs, j)
    {
      var h := hs[j];
      if h > hs[j - 1] && h > hs[j + 1] {
        nPeaks := nPeaks + 1;
      }
      j := j + 1;
    }
    var m := if |hs| < 2 then 1 else |hs| - 1;
    assert nPeaks == PeaksBelow(hs, m);
    PeaksBelowIsSetSize(hs, m);
    assert PeakSet(hs) == set i | 0 <= i < m && IsPeak(hs, i);
    PeaksBelowRange(hs, m);
    PeaksNotAdjacentBound(hs, m);
  }

  /** Peaks are never adjacent: two neighbouring checkpoints cannot both be
      strictly higher than each other. */
  lemma PeaksNotAdjacent(hs: seq<int>, j: int)
    requires IsPeak(hs, j)
    ensures !IsPeak(hs, j + 1) && !IsPeak(hs, j - 1)
  {
  }

  /** The counter agrees with the size of the set of peak indices below m. */
  lemma {:induction false} PeaksBelowIsSetSize(hs: seq<int>, m: int)
    ensures PeaksBelow(hs, m) == |set j | 0 <= j < m && IsPeak(hs, j)|
    decreases m
  {
    if m <= 1 {
      assert (set j | 0 <= j < m && IsPeak(hs, j)) == {};
    } else {
      PeaksBelowIsSetSize(hs, m - 1);
      var below := set j | 0 <= j < m - 1 && IsPeak(hs, j);
      if IsPeak(hs, m - 1) {
        assert (set j | 0 <= j < m && IsPeak(hs, j)) == below + {m - 1};
      } else {
        assert (set j | 0 <= j < m && IsPeak(hs, j)) == below;
      }
    }
  }

  /** At most one peak per interior index. */
  lemma {:induction false} PeaksBelowRange(hs: seq<int>, m: int)
    ensures PeaksBelow(hs, m) <= if m <= 1 then 0 else m - 1
    ensures m <= |hs| - 1 ==> PeaksBelow(hs, m) <= if |hs| < 2 then 0 else |hs| - 2
    decreases m
  {
    if m > 1 {
      PeaksBelowRange(hs, m - 1);
    }
  }

  /** Because peaks are never adjacent, at most every second index is one. */
  lemma {:induction false} PeaksNotAdjacentBound(hs: seq<int>, m: int)
    ensures PeaksBelow(hs, m) <= (if m < 0 then 0 else m) / 2
    decreases m
  {
    if m > 1 {
      if IsPeak(hs, m - 1) {
        PeaksNotAdjacent(hs, m - 1);
        PeaksNotAdjacentBound(hs, m - 2);
        assert PeaksBelow(hs, m - 1) == PeaksBelow(hs, m - 2);
      } else {
        PeaksNotAdjacentBound(hs, m - 1);
      }
    }
  }
}
