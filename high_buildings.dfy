/** High buildings: build a row of n building heights in 1..n such that a
    buildings are visible from the left, b from the right and c from both. A
    building is visible from a side when no building between it and that side
    is strictly higher. */
module HighBuildings {
  import opened Wrappers

  /** The number of buildings visible from neither side, when it is not
      negative. */
  function Hidden(n: nat, aDesired: nat, bDesired: nat, c: nat): (r: Option<nat>)
    ensures r.None? <==> n - aDesired - bDesired + c < 0
    ensures r.Some? ==> r.value + aDesired + bDesired == n + c
  {
    var hidden := n - aDesired - bDesired + c;
    if hidden < 0 then None else Some(hidden)
  }

  /** The rows `calc` rejects: no hidden count, or hidden buildings with no
      building taller than 1 besides the c tallest ones to hide them behind. */
  predicate Rejected(n: nat, aDesired: nat, bDesired: nat, c: nat)
  {
    var h := Hidden(n, aDesired, bDesired, c);
    h.None? || (aDesired + bDesired - 2 * c == 0 && h.value > 0)
  }

  /** The height `calc` gives building j: a-c buildings of height n-1, the
      hidden 1s on the a side when a-c >= b-c, c buildings of height n, the
      hidden 1s on the b side otherwise, and b-c buildings of height n-1. */
  function HeightAt(n: nat, aDesired: nat, bDesired: nat, c: nat, hidden: nat, j: int): int
    requires c <= aDesired && c <= bDesired
  {
    var aToAdd, bToAdd := aDesired - c, bDesired - c;
    var cStart := aToAdd + (if aToAdd >= bToAdd then hidden else 0);
    if j < aToAdd then n - 1
    else if j < cStart then 1
    else if j < cStart + c then n
    else if j < n - bToAdd then 1
    else n - 1
  }

  /** The row `calc` builds. */
  function Layout(n: nat, aDesired: nat, bDesired: nat, c: nat, hidden: nat): (xs: seq<int>)
    requires c <= aDesired && c <= bDesired
    requires hidden + aDesired + bDesired == n + c
    ensures |xs| == n
    ensures forall j :: 0 <= j < n ==> xs[j] == 1 || xs[j] == n - 1 || xs[j] == n
  {
    seq(n, j => HeightAt(n, aDesired, bDesired, c, hidden, j))
  }

  /** One of the cursor loops of `calc`: write v at count positions from
      start and return the advanced cursor. */
  method Fill(xs: array<int>, start: nat, count: nat, v: int) returns (next: nat)
    requires start + count <= xs.Length
    modifies xs
    ensures next == start + count
    ensures forall j :: start <= j < next ==> xs[j] == v
    ensures forall j :: 0 <= j < xs.Length && !(start <= j < next) ==> xs[j] == old(xs[j])
  {
    next := start;
    var k := 0;
    while k < count
      invariant 0 <= k <= count && next == start + k
      invariant forall j :: start <= j < next ==> xs[j] == v
      invariant forall j :: 0 <= j < xs.Length && !(start <= j < next) ==> xs[j] == old(xs[j])
    {
      xs[next] := v;
      next := next + 1;
      k := k + 1;
    }
  }

  /** `calc`: fill a row of 1s through a write cursor. With c <= a and c <= b
      (the usize subtractions of the source underflow otherwise), the row is
      None exactly on the rejected inputs, and otherwise is the layout. */
  method Calc(n: nat, aDesired: nat, bDesired: nat, c: nat) returns (result: Option<seq<int>>)
    requires c <= aDesired && c <= bDesired
    ensures result.None? <==> Rejected(n, aDesired, bDesired, c)
    ensures result.Some? ==>
              result.value == Layout(n, aDesired, bDesired, c, Hidden(n, aDesired, bDesired, c).value)
  {
    var h := Hidden(n, aDesired, bDesired, c);
    if h.None? {
      return None;
    }
    var hidden := h.value;
    var xs := new int[n](_ => 1);
    var nMaxes := c;
    var a, b := nMaxes, nMaxes;
    var aToAdd := aDesired - a;
    var bToAdd := bDesired - b;
    var bookends := n - hidden - c;
    if bookends == 0 && hidden > 0 {
      return None;
    }
    var hideOnA := aToAdd >= bToAdd;
    var aStart := Fill(xs, 0, aToAdd, n - 1);
    if hideOnA {
      aStart := Fill(xs, aStart, hidden, 1);
    }
    var cStart := aStart;
    var bStart := Fill(xs, cStart, nMaxes, n);
    if !hideOnA {
      bStart := Fill(xs, bStart, hidden, 1);
    }
    bStart := Fill(xs, bStart, bToAdd, n - 1);
    assert bStart == n;
    forall j | 0 <= j < n ensures xs[j] == HeightAt(n, aDesired, bDesired, c, hidden, j) {
    }
    assert xs[..] == Layout(n, aDesired, bDesired, c, hidden);
    result := Some(xs[..]);
  }

  // ---------------------------------------------------------------------
  // What the layout promises

  /** Building j is visible from the left: nothing before it is higher. */
  predicate VisibleLeft(xs: seq<int>, j: int)
  {
    0 <= j < |xs| && forall i :: 0 <= i < j ==> xs[i] <= xs[j]
  }

  /** Building j is visible from the right: nothing after it is higher. */
  predicate VisibleRight(xs: seq<int>, j: int)
  {
    0 <= j < |xs| && forall i :: j < i < |xs| ==> xs[i] <= xs[j]
  }

  function LeftVisible(xs: seq<int>): set<int>
  {
    set j | 0 <= j < |xs| && VisibleLeft(xs, j)
  }

  function RightVisible(xs: seq<int>): set<int>
  {
    set j | 0 <= j < |xs| && VisibleRight(xs, j)
  }

  /** The indices lo..hi-1. */
  function Range(lo: int, hi: int): (r: set<int>)
    ensures forall j :: j in r <==> lo <= j < hi
    ensures |r| == if lo <= hi then hi - lo else 0
    decreases hi - lo
  {
    if lo >= hi then {} else Range(lo, hi - 1) + {hi - 1}
  }

  /** A number of buildings and visibility counts as the problem states
      them: 1 <= c <= a, b <= n. */
  predicate InRange(n: nat, aDesired: nat, bDesired: nat, c: nat)
  {
    1 <= c <= aDesired <= n && c <= bDesired <= n
  }

  /** The inputs in range that `calc` accepts, with their hidden count. */
  predicate Accepted(n: nat, aDesired: nat, bDesired: nat, c: nat, hidden: nat)
  {
    && InRange(n, aDesired, bDesired, c)
    && hidden + aDesired + bDesired == n + c
    && !(aDesired + bDesired - 2 * c == 0 && hidden > 0)
  }

  /** Where the c tallest buildings start. */
  function CStart(aDesired: nat, bDesired: nat, c: nat, hidden: nat): int
  {
    (aDesired - c) + (if aDesired - c >= bDesired - c then hidden else 0)
  }

  /** From the left one sees the n-1 block on the a side and the c tallest. */
  lemma LeftVisibleSet(n: nat, aDesired: nat, bDesired: nat, c: nat, hidden: nat)
    requires Accepted(n, aDesired, bDesired, c, hidden)
    ensures LeftVisible(Layout(n, aDesired, bDesired, c, hidden)) ==
            Range(0, aDesired - c) + Range(CStart(aDesired, bDesired, c, hidden), CStart(aDesired, bDesired, c, hidden) + c)
  {
    var cStart := CStart(aDesired, bDesired, c, hidden);
    forall j | 0 <= j < n
      ensures VisibleLeft(Layout(n, aDesired, bDesired, c, hidden), j) <==>
              j < aDesired - c || cStart <= j < cStart + c
    {
      LeftVisibleAt(n, aDesired, bDesired, c, hidden, j);
    }
  }

  lemma LeftVisibleAt(n: nat, aDesired: nat, bDesired: nat, c: nat, hidden: nat, j: int)
    requires Accepted(n, aDesired, bDesired, c, hidden) && 0 <= j < n
    ensures var cStart := CStart(aDesired, bDesired, c, hidden);
            VisibleLeft(Layout(n, aDesired, bDesired, c, hidden), j) <==>
            j < aDesired - c || cStart <= j < cStart + c
  {
    var xs := Layout(n, aDesired, bDesired, c, hidden);
    var cStart := CStart(aDesired, bDesired, c, hidden);
    if cStart <= j < cStart + c || j < aDesired - c {
    } else if j < cStart {
      assert xs[0] > xs[j];
    } else {
      assert xs[cStart] > xs[j];
    }
  }

  /** From the right one sees the c tallest and the n-1 block on the b side. */
  lemma RightVisibleSet(n: nat, aDesired: nat, bDesired: nat, c: nat, hidden: nat)
    requires Accepted(n, aDesired, bDesired, c, hidden)
    ensures RightVisible(Layout(n, aDesired, bDesired, c, hidden)) ==
            Range(CStart(aDesired, bDesired, c, hidden), CStart(aDesired, bDesired, c, hidden) + c) +
            Range(n - (bDesired - c), n)
  {
    var cStart := CStart(aDesired, bDesired, c, hidden);
    forall j | 0 <= j < n
      ensures VisibleRight(Layout(n, aDesired, bDesired, c, hidden), j) <==>
              n - (bDesired - c) <= j || cStart <= j < cStart + c
    {
      RightVisibleAt(n, aDesired, bDesired, c, hidden, j);
    }
  }

  lemma RightVisibleAt(n: nat, aDesired: nat, bDesired: nat, c: nat, hidden: nat, j: int)
    requires Accepted(n, aDesired, bDesired, c, hidden) && 0 <= j < n
    ensures var cStart := CStart(aDesired, bDesired, c, hidden);
            VisibleRight(Layout(n, aDesired, bDesired, c, hidden), j) <==>
            n - (bDesired - c) <= j || cStart <= j < cStart + c
  {
    var xs := Layout(n, aDesired, bDesired, c, hidden);
    var cStart := CStart(aDesired, bDesired, c, hidden);
    if cStart <= j < cStart + c || n - (bDesired - c) <= j {
    } else if j >= cStart + c {
      assert xs[n - 1] > xs[j];
    } else {
      assert xs[cStart] > xs[j];
    }
  }

  /** A row `calc` accepts sees exactly a buildings from the left, b from
      the right and c from both sides. */
  lemma LayoutVisibility(n: nat, aDesired: nat, bDesired: nat, c: nat, hidden: nat)
    requires Accepted(n, aDesired, bDesired, c, hidden)
    ensures |LeftVisible(Layout(n, aDesired, bDesired, c, hidden))| == aDesired
    ensures |RightVisible(Layout(n, aDesired, bDesired, c, hidden))| == bDesired
    ensures |LeftVisible(Layout(n, aDesired, bDesired, c, hidden)) *
             RightVisible(Layout(n, aDesired, bDesired, c, hidden))| == c
  {
    var xs := Layout(n, aDesired, bDesired, c, hidden);
    var cStart := CStart(aDesired, bDesired, c, hidden);
    var left, mid, right := Range(0, aDesired - c), Range(cStart, cStart + c), Range(n - (bDesired - c), n);
    LeftVisibleSet(n, aDesired, bDesired, c, hidden);
    RightVisibleSet(n, aDesired, bDesired, c, hidden);
    BlocksInOrder(n, aDesired, bDesired, c, hidden);
    ThreeBlocks(LeftVisible(xs), RightVisible(xs), left, mid, right, aDesired - c, c, bDesired - c);
  }

  /** The three visible blocks are disjoint and have sizes a-c, c and b-c. */
  lemma BlocksInOrder(n: nat, aDesired: nat, bDesired: nat, c: nat, hidden: nat)
    requires Accepted(n, aDesired, bDesired, c, hidden)
    ensures var cStart := CStart(aDesired, bDesired, c, hidden);
            var left, mid, right := Range(0, aDesired - c), Range(cStart, cStart + c), Range(n - (bDesired - c), n);
            && left * mid == {} && mid * right == {} && left * right == {}
            && |left| == aDesired - c && |mid| == c && |right| == bDesired - c
  {
    var cStart := CStart(aDesired, bDesired, c, hidden);
    assert aDesired - c <= cStart && cStart + c <= n - (bDesired - c);
    RangesDisjoint(0, aDesired - c, cStart, cStart + c);
    RangesDisjoint(cStart, cStart + c, n - (bDesired - c), n);
    RangesDisjoint(0, aDesired - c, n - (bDesired - c), n);
  }

  /** Two sets made of three disjoint blocks, sharing the middle one. */
  lemma ThreeBlocks(l: set<int>, r: set<int>, left: set<int>, mid: set<int>, right: set<int>,
                    kl: int, km: int, kr: int)
    requires l == left + mid && r == mid + right
    requires left * mid == {} && mid * right == {} && left * right == {}
    requires |left| == kl && |mid| == km && |right| == kr
    ensures |l| == kl + km && |r| == km + kr && |l * r| == km
  {
    DisjointUnionSize(left, mid);
    DisjointUnionSize(mid, right);
    forall x | x in l * r ensures x in mid {
      assert x !in left * right;
    }
    assert l * r == mid;
  }

  lemma RangesDisjoint(lo1: int, hi1: int, lo2: int, hi2: int)
    requires hi1 <= lo2
    ensures Range(lo1, hi1) * Range(lo2, hi2) == {}
  {
    forall x | x in Range(lo1, hi1) * Range(lo2, hi2) ensures false {
    }
  }

  lemma DisjointUnionSize(s: set<int>, t: set<int>)
    requires s * t == {}
    ensures |s + t| == |s| + |t|
  {
  }

  /** For n >= 2 exactly c buildings have the maximal height n. */
  lemma LayoutTallest(n: nat, aDesired: nat, bDesired: nat, c: nat, hidden: nat)
    requires c <= aDesired && c <= bDesired
    requires hidden + aDesired + bDesired == n + c
    requires n >= 2
    ensures |set j | 0 <= j < n && Layout(n, aDesired, bDesired, c, hidden)[j] == n| == c
  {
    var xs := Layout(n, aDesired, bDesired, c, hidden);
    var aToAdd, bToAdd := aDesired - c, bDesired - c;
    var cStart := aToAdd + (if aToAdd >= bToAdd then hidden else 0);
    assert (set j | 0 <= j < n && xs[j] == n) == Range(cStart, cStart + c);
  }

  // ---------------------------------------------------------------------
  // The rows the problem asks for, and the case `calc` misses

  /** xs is an answer: n heights in 1..n with a buildings visible from the
      left, b from the right and c from both sides. */
  predicate IsValidRow(xs: seq<int>, n: nat, aDesired: nat, bDesired: nat, c: nat)
  {
    && |xs| == n
    && (forall j :: 0 <= j < n ==> 1 <= xs[j] <= n)
    && |LeftVisible(xs)| == aDesired
    && |RightVisible(xs)| == bDesired
    && |LeftVisible(xs) * RightVisible(xs)| == c
  }

  /** `calc` answers IMPOSSIBLE for n = 3, a = b = c = 2, although the row
      3 1 3 has both 3s visible from both sides. */
  lemma CalcRejectsSolvableInput()
    ensures Rejected(3, 2, 2, 2)
    ensures IsValidRow([3, 1, 3], 3, 2, 2, 2)
  {
    var xs := [3, 1, 3];
    assert !VisibleLeft(xs, 1) by { assert xs[0] > xs[1]; }
    assert !VisibleRight(xs, 1) by { assert xs[2] > xs[1]; }
    assert LeftVisible(xs) == {0, 2};
    assert RightVisible(xs) == {0, 2};
    assert LeftVisible(xs) * RightVisible(xs) == {0, 2};
  }

  /** The row for a = b = c >= 2 with hidden buildings: the 1s go between
      the first tallest building and the other c - 1. */
  function SplitTallest(n: nat, hidden: nat): seq<int>
  {
    seq(n, j => if j == 0 || j > hidden then n else 1)
  }

  /** `calc` with its bookends rule corrected: hidden buildings with no
      bookends can still hide between two of the tallest when c >= 2. */
  function CorrectedCalc(n: nat, aDesired: nat, bDesired: nat, c: nat): Option<seq<int>>
    requires c <= aDesired && c <= bDesired
  {
    var h := Hidden(n, aDesired, bDesired, c);
    if h.None? then None
    else if aDesired + bDesired - 2 * c == 0 && h.value > 0 then
      if c >= 2 then Some(SplitTallest(n, h.value)) else None
    else Some(Layout(n, aDesired, bDesired, c, h.value))
  }

  /** Every row the corrected `calc` returns is an answer. */
  lemma CorrectedCalcSound(n: nat, aDesired: nat, bDesired: nat, c: nat)
    requires InRange(n, aDesired, bDesired, c)
    requires CorrectedCalc(n, aDesired, bDesired, c).Some?
    ensures IsValidRow(CorrectedCalc(n, aDesired, bDesired, c).value, n, aDesired, bDesired, c)
  {
    var hidden := Hidden(n, aDesired, bDesired, c).value;
    if aDesired + bDesired - 2 * c == 0 && hidden > 0 {
      SplitTallestVisibility(n, c, hidden);
    } else {
      LayoutVisibility(n, aDesired, bDesired, c, hidden);
      LayoutHeights(n, aDesired, bDesired, c, hidden);
    }
  }

  /** The layout's heights are in 1..n: height n - 1 only occurs next to a
      taller building, so never when n = 1. */
  lemma LayoutHeights(n: nat, aDesired: nat, bDesired: nat, c: nat, hidden: nat)
    requires Accepted(n, aDesired, bDesired, c, hidden)
    ensures forall j :: 0 <= j < n ==> 1 <= Layout(n, aDesired, bDesired, c, hidden)[j] <= n
  {
    var xs := Layout(n, aDesired, bDesired, c, hidden);
    forall j | 0 <= j < n ensures 1 <= xs[j] <= n {
      if xs[j] == n - 1 {
        assert aDesired - c > 0 || bDesired - c > 0;
      }
    }
  }

  lemma SplitTallestVisibility(n: nat, c: nat, hidden: nat)
    requires 2 <= c && hidden + c == n
    ensures IsValidRow(SplitTallest(n, hidden), n, c, c, c)
  {
    var xs := SplitTallest(n, hidden);
    var tall := {0} + Range(hidden + 1, n);
    forall j | 0 <= j < n
      ensures (VisibleLeft(xs, j) <==> j in tall) && (VisibleRight(xs, j) <==> j in tall)
    {
      if j !in tall {
        assert xs[0] > xs[j] && xs[n - 1] > xs[j];
      }
    }
    assert LeftVisible(xs) == tall && RightVisible(xs) == tall;
    assert 0 !in Range(hidden + 1, n);
  }

  /** In any answer row, the hidden count `calc` computes is the number of
      buildings seen from neither side. */
  lemma HiddenIsInvisible(xs: seq<int>, n: nat, aDesired: nat, bDesired: nat, c: nat)
    requires IsValidRow(xs, n, aDesired, bDesired, c)
    ensures Hidden(n, aDesired, bDesired, c) == Some(n - |LeftVisible(xs) + RightVisible(xs)|)
  {
    var l, r := LeftVisible(xs), RightVisible(xs);
    UnionSize(l, r);
    SubsetSize(l + r, Range(0, n));
  }

  /** Whenever an answer exists, the corrected `calc` returns a row. */
  lemma CorrectedCalcComplete(xs: seq<int>, n: nat, aDesired: nat, bDesired: nat, c: nat)
    requires InRange(n, aDesired, bDesired, c)
    requires IsValidRow(xs, n, aDesired, bDesired, c)
    ensures CorrectedCalc(n, aDesired, bDesired, c).Some?
  {
    var l, r := LeftVisible(xs), RightVisible(xs);
    UnionSize(l, r);
    SubsetSize(l + r, Range(0, n));
    assert n - aDesired - bDesired + c >= 0;
    if aDesired + bDesired - 2 * c == 0 && c < 2 {
      assert aDesired == 1 && bDesired == 1;
      OnlyMember(l, 0);
      OnlyMember(r, n - 1);
      if n >= 2 {
        assert false;
      }
    }
  }

  /** |s + t| counts the shared elements once. */
  lemma UnionSize(s: set<int>, t: set<int>)
    ensures |s + t| == |s| + |t| - |s * t|
  {
    assert s + t == s + (t - s);
    DisjointUnionSize(s, t - s);
    assert t == (t - s) + s * t;
    DisjointUnionSize(t - s, s * t);
  }

  lemma {:induction false} SubsetSize(s: set<int>, t: set<int>)
    requires s <= t
    ensures |s| <= |t|
  {
    assert t == s + (t - s);
    DisjointUnionSize(s, t - s);
  }

  /** A one-element set holding x is {x}. */
  lemma OnlyMember(s: set<int>, x: int)
    requires x in s && |s| == 1
    ensures s == {x}
  {
    forall y | y in s ensures y == x {
      if y != x {
        SubsetSize({x, y}, s);
      }
    }
  }
}
