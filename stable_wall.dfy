/** Stable wall: a wall of rows of polyomino letters, and a greedy order in
    which to place the polyominos so that each one, when placed, rests on
    itself, on already placed polyominos or on the ground (the last row). */
module StableWall {
  import opened Wrappers

  newtype byte = x: int | 0 <= x < 256

  /** The letters of a row. */
  function Elems(s: seq<byte>): (r: set<byte>)
    ensures forall x :: x in r <==> x in s
  {
    set x | x in s
  }

  /** Every letter that occurs anywhere in the wall. */
  function Letters(data: seq<seq<byte>>): (r: set<byte>)
    ensures forall x :: x in r <==> exists row :: row in data && x in row
  {
    set row, x | row in data && x in row :: x
  }

  /** All rows have the width of the first one, as every row of an input
      wall does; a narrower row below would make the support check index out
      of bounds. */
  predicate Rectangular(data: seq<seq<byte>>)
  {
    forall r :: 0 <= r < |data| ==> |data[r]| == |data[0]|
  }

  /** Every cell of p in row r rests on p itself or on a placed letter. */
  predicate SupportedAtRow(data: seq<seq<byte>>, placed: set<byte>, p: byte, r: int)
    requires Rectangular(data) && 0 <= r && r + 1 < |data|
  {
    forall i :: 0 <= i < |data[r]| && data[r][i] == p ==> data[r + 1][i] == p || data[r + 1][i] in placed
  }

  /** p can be placed now: it is supported in every row above the last one;
      the last row stands on the ground. */
  predicate Supported(data: seq<seq<byte>>, placed: set<byte>, p: byte)
    requires Rectangular(data)
  {
    forall r :: 0 <= r < |data| - 1 ==> SupportedAtRow(data, placed, p, r)
  }

  /** Each letter of order is supported by the letters before it. */
  predicate Stable(data: seq<seq<byte>>, order: seq<byte>)
    requires Rectangular(data)
  {
    forall k :: 0 <= k < |order| ==> Supported(data, Elems(order[..k]), order[k])
  }

  /** No letter occurs twice. */
  predicate Distinct(order: seq<byte>)
  {
    forall j, k :: 0 <= j < k < |order| ==> order[j] != order[k]
  }

  /** order places every letter of the wall exactly once, each on support. */
  predicate StableOrder(data: seq<seq<byte>>, order: seq<byte>)
    requires Rectangular(data)
  {
    Distinct(order) && Elems(order) == Letters(data) && Stable(data, order)
  }

  class Wall {
    var data: seq<seq<byte>>
    var polyominos: set<byte>
    var placed: set<byte>
    var unplaced: set<byte>

    /** polyominos holds exactly the letters of the rows added so far. */
    ghost predicate Valid()
      reads this
    {
      polyominos == Letters(data) && placed <= polyominos && unplaced <= polyominos
    }

    /** An empty wall; the expected number of rows only reserves capacity. */
    constructor (rows: nat)
      ensures Valid()
      ensures data == [] && polyominos == {} && placed == {} && unplaced == {}
    {
      data := [];
      polyominos := {};
      placed := {};
      unplaced := {};
    }

    /** Records every letter of the row, then appends the row. */
    method AddRow(row: seq<byte>)
      requires Valid()
      modifies this
      ensures Valid()
      ensures data == old(data) + [row]
      ensures polyominos == old(polyominos) + Elems(row)
      ensures placed == old(placed) && unplaced == old(unplaced)
    {
      var k := 0;
      while k < |row|
        invariant 0 <= k <= |row|
        invariant polyominos == old(polyominos) + Elems(row[..k])
        invariant data == old(data) && placed == old(placed) && unplaced == old(unplaced)
      {
        assert row[..k + 1] == row[..k] + [row[k]];
        polyominos := polyominos + {row[k]};
        k := k + 1;
      }
      assert row[..k] == row;
      LettersAppend(data, row);
      data := data + [row];
    }

    /** The scan of row r: false at the first cell of p resting on a foreign,
        unplaced letter. */
    method IsSupportedAtRow(p: byte, rowIndex: int) returns (b: bool)
      requires Rectangular(data) && 0 <= rowIndex && rowIndex + 1 < |data|
      ensures b == SupportedAtRow(data, placed, p, rowIndex)
    {
      var row := data[rowIndex];
      var rowBelow := data[rowIndex + 1];
      var i := 0;
      while i < |row|
        invariant 0 <= i <= |row|
        invariant forall j :: 0 <= j < i && row[j] == p ==> rowBelow[j] == p || rowBelow[j] in placed
      {
        if row[i] == p {
          if rowBelow[i] != p {
            if rowBelow[i] !in placed {
              return false;
            }
          }
        }
        i := i + 1;
      }
      return true;
    }

    /** The rows above the last one, from the bottom up. */
    method IsSupported(p: byte) returns (b: bool)
      requires Rectangular(data) && |data| >= 1
      ensures b == Supported(data, placed, p)
    {
      var r := |data| - 1;
      while r > 0
        invariant 0 <= r <= |data| - 1
        invariant forall s :: r <= s < |data| - 1 ==> SupportedAtRow(data, placed, p, s)
      {
        r := r - 1;
        var ok := IsSupportedAtRow(p, r);
        if !ok {
          return false;
        }
      }
      return true;
    }

    /** Some supported unplaced letter, in no particular order, or None when
        there is none. */
    method FindSupported() returns (r: Option<byte>)
      requires Valid() && Rectangular(data)
      ensures r.Some? ==> r.value in unplaced && Supported(data, placed, r.value)
      ensures r.None? ==> forall p :: p in unplaced ==> !Supported(data, placed, p)
    {
      var rest := unplaced;
      while rest != {}
        invariant rest <= unplaced
        invariant forall p :: p in unplaced && p !in rest ==> !Supported(data, placed, p)
        decreases |rest|
      {
        var p :| p in rest;
        LetterHasRow(data, p);
        var ok := IsSupported(p);
        if ok {
          return Some(p);
        }
        rest := rest - {p};
      }
      return None;
    }

    /** Starts from nothing placed and keeps placing any supported letter;
        stops with the order once all are placed, or with None when the
        remaining ones are all unsupported. */
    method PlacementOrder() returns (result: Option<seq<byte>>)
      requires Valid() && Rectangular(data)
      modifies this
      ensures Valid() && data == old(data) && polyominos == old(polyominos)
      ensures placed + unplaced == polyominos && placed !! unplaced
      ensures result.Some? ==> unplaced == {} && StableOrder(data, result.value)
      ensures result.None? ==> unplaced != {} && forall p :: p in unplaced ==> !Supported(data, placed, p)
      ensures result.None? <==> !exists order :: StableOrder(data, order)
    {
      unplaced := polyominos;
      placed := {};
      var order: seq<byte> := [];
      while true
        invariant data == old(data) && polyominos == old(polyominos) && polyominos == Letters(data)
        invariant Placing(data, polyominos, placed, unplaced, order)
        decreases |unplaced|
      {
        var p := FindSupported();
        match p {
          case None =>
            if unplaced == {} {
              assert StableOrder(data, order);
              return Some(order);
            } else {
              StuckMeansNoOrder(data, placed, unplaced, polyominos);
              return None;
            }
          case Some(q) =>
            PlaceStep(data, polyominos, placed, unplaced, order, q);
            placed := placed + {q};
            unplaced := unplaced - {q};
            order := order + [q];
        }
      }
    }
  }

  /** Adding a row adds exactly its letters. */
  lemma LettersAppend(data: seq<seq<byte>>, row: seq<byte>)
    ensures Letters(data + [row]) == Letters(data) + Elems(row)
  {
    forall x | x in Letters(data + [row])
      ensures x in Letters(data) + Elems(row)
    {
      var w :| w in data + [row] && x in w;
      if w != row {
        assert w in data;
      }
    }
  }

  /** A letter of the wall comes from some row, so the wall has one. */
  lemma LetterHasRow(data: seq<seq<byte>>, p: byte)
    requires p in Letters(data)
    ensures |data| >= 1
  {
    var w :| w in data && p in w;
  }

  /** More placed letters never take support away. */
  lemma SupportMonotone(data: seq<seq<byte>>, fewer: set<byte>, more: set<byte>, p: byte)
    requires Rectangular(data) && fewer <= more
    requires Supported(data, fewer, p)
    ensures Supported(data, more, p)
  {
    forall r | 0 <= r < |data| - 1
      ensures SupportedAtRow(data, more, p, r)
    {
      assert SupportedAtRow(data, fewer, p, r);
    }
  }

  /** A letter that occurs only in the last row is always supported: that
      row rests on the ground. */
  lemma BottomRowNeedsNoSupport(data: seq<seq<byte>>, placed: set<byte>, p: byte)
    requires Rectangular(data)
    requires forall r :: 0 <= r < |data| - 1 ==> p !in data[r]
    ensures Supported(data, placed, p)
  {
    forall r | 0 <= r < |data| - 1
      ensures SupportedAtRow(data, placed, p, r)
    {
      assert forall i :: 0 <= i < |data[r]| ==> data[r][i] != p;
    }
  }

  /** The state of the placement loop: placed and unplaced split the
      letters, and order lists the placed ones once each, each supported by
      those before it. */
  predicate Placing(data: seq<seq<byte>>, polyominos: set<byte>, placed: set<byte>,
                    unplaced: set<byte>, order: seq<byte>)
  {
    && Rectangular(data)
    && placed + unplaced == polyominos && placed !! unplaced
    && placed == Elems(order) && Distinct(order) && Stable(data, order)
  }

  /** Placing a supported unplaced letter moves exactly that letter across. */
  lemma PlaceStep(data: seq<seq<byte>>, polyominos: set<byte>, placed: set<byte>,
                  unplaced: set<byte>, order: seq<byte>, q: byte)
    requires Placing(data, polyominos, placed, unplaced, order)
    requires q in unplaced && Supported(data, placed, q)
    ensures Placing(data, polyominos, placed + {q}, unplaced - {q}, order + [q])
    ensures |unplaced - {q}| < |unplaced|
  {
    var s := order + [q];
    forall k | 0 <= k < |s|
      ensures Supported(data, Elems(s[..k]), s[k])
    {
      if k < |order| {
        assert s[..k] == order[..k];
      } else {
        assert s[..k] == order;
      }
    }
    assert Elems(s) == placed + {q};
  }

  /** When no unplaced letter is supported by the placed ones, no stable
      order of the whole wall exists, because a first unplaced letter in such
      an order would rest only on placed letters. */
  lemma StuckMeansNoOrder(data: seq<seq<byte>>, placed: set<byte>, unplaced: set<byte>,
                          polyominos: set<byte>)
    requires Rectangular(data) && polyominos == Letters(data)
    requires placed + unplaced == polyominos && placed !! unplaced && unplaced != {}
    requires forall p :: p in unplaced ==> !Supported(data, placed, p)
    ensures !exists order :: StableOrder(data, order)
  {
    if order: seq<byte> :| StableOrder(data, order) {
      var u :| u in unplaced;
      assert u in Elems(order);
      var k := 0;
      while order[k] !in unplaced
        invariant 0 <= k < |order|
        invariant exists m :: k <= m < |order| && order[m] in unplaced
        invariant forall j :: 0 <= j < k ==> order[j] !in unplaced
        decreases |order| - k
      {
        k := k + 1;
      }
      assert Elems(order[..k]) <= placed by {
        forall x | x in Elems(order[..k])
          ensures x in placed
        {
          var j :| 0 <= j < k && order[j] == x;
          assert x in Elems(order);
        }
      }
      assert Supported(data, Elems(order[..k]), order[k]);
      SupportMonotone(data, Elems(order[..k]), placed, order[k]);
      assert false;
    }
  }

  /** One test case: the wall of the given rows and its placement order. */
  method SolveCase(rows: seq<seq<byte>>) returns (result: Option<seq<byte>>)
    requires Rectangular(rows)
    ensures result.Some? ==> StableOrder(rows, result.value)
    ensures result.None? <==> !exists order :: StableOrder(rows, order)
  {
    var wall := new Wall(|rows|);
    var k := 0;
    while k < |rows|
      invariant 0 <= k <= |rows|
      invariant wall.Valid() && wall.data == rows[..k]
      modifies wall
    {
      assert rows[..k + 1] == rows[..k] + [rows[k]];
      wall.AddRow(rows[k]);
      k := k + 1;
    }
    assert rows[..k] == rows;
    result := wall.PlacementOrder();
  }
}
