/** Painters' duel: a triangular building of side S whose row r (1-based)
    holds rooms 1 .. 2r - 1, numbered row by row from 0, so that row r starts
    at index (r - 1)^2. Alma and Bertha take turns painting a room next to
    their current one; the score is Alma's rooms minus Bertha's. */
module PaintersDuel {
  import opened IntMath

  datatype Color = Unpainted | Alma | Bertha | Cons
  datatype Turn = TAlma | TBertha
  datatype Pos = Pos(row: int, col: int)

  /** The value of the enumerator, as an index would read it. */
  function TurnValue(t: Turn): int
  {
    if t == TAlma then 0 else 1
  }

  function Flip(t: Turn): Turn
  {
    if t == TAlma then TBertha else TAlma
  }

  /** The room has a place in its row: row r holds columns 1 .. 2r - 1. */
  predicate InTriangle(p: Pos)
  {
    p.row >= 1 && 1 <= p.col <= 2 * p.row - 1
  }

  /** The row is one past the integer square root of i; the column counts
      from the first index of that row. */
  function ToPos(i: int): Pos
    requires i >= 0
  {
    var row := FloorSqrt(i) + 1;
    var prevRow := row - 1;
    var col := i - prevRow * prevRow + 1;
    Pos(row, col)
  }

  function ToIndex(p: Pos): int
  {
    var prevRow := p.row - 1;
    prevRow * prevRow + p.col - 1
  }

  /** Rooms alternate between pointing up and down along a row, odd rows
      starting on an even index and even rows on an odd one. */
  predicate PointsUp(i: int)
    requires i >= 0
  {
    var row := ToPos(i).row;
    if row % 2 == 1 then i % 2 == 0 else i % 2 == 1
  }

  /** The room exists in a building of the given side. */
  function IsValid(side: int, p: Pos): (r: bool)
    ensures r <==> InTriangle(p) && p.row <= side
    ensures r ==> 0 <= ToIndex(p) < side * side
  {
    if p.row > 0 && p.row <= side && p.col > 0 then
      var prevRow := p.row - 1;
      var nIndexsInRow := p.row * p.row - prevRow * prevRow;
      assert nIndexsInRow == 2 * p.row - 1;
      if p.col <= nIndexsInRow then
        SquareMonotone(p.row, side);
        true
      else false
    else false
  }

  predicate CanPaint(side: int, colors: seq<Color>, p: Pos)
    requires |colors| == side * side
  {
    IsValid(side, p) && colors[ToIndex(p)] == Unpainted
  }

  /** j is the room left or right of i, or the one across i's horizontal
      edge: below when i points up, above otherwise. */
  predicate Adjacent(i: int, j: int)
    requires i >= 0 && j >= 0
  {
    var p := ToPos(i);
    var q := ToPos(j);
    || (q.row == p.row && (q.col == p.col - 1 || q.col == p.col + 1))
    || (PointsUp(i) && q == Pos(p.row + 1, p.col + 1))
    || (!PointsUp(i) && q == Pos(p.row - 1, p.col - 1))
  }

  /** The unpainted neighbours of room i: left, right, then the one across. */
  function PaintableNeighbors(side: int, colors: seq<Color>, i: int): (r: seq<int>)
    requires |colors| == side * side && i >= 0
    ensures |r| <= 3
    ensures forall k :: 0 <= k < |r| ==> 0 <= r[k] < |colors| && colors[r[k]] == Unpainted
  {
    var o := ToPos(i);
    var left := Pos(o.row, o.col - 1);
    var right := Pos(o.row, o.col + 1);
    var across := Across(i);
    (if CanPaint(side, colors, left) then [ToIndex(left)] else [])
    + (if CanPaint(side, colors, right) then [ToIndex(right)] else [])
    + (if CanPaint(side, colors, across) then [ToIndex(across)] else [])
  }

  /** Every index names a room of the triangle, and converting that room back
      gives the index. */
  lemma IndexPosRoundTrip(i: int)
    requires i >= 0
    ensures InTriangle(ToPos(i)) && ToIndex(ToPos(i)) == i
  {
    var s := FloorSqrt(i);
    assert (s + 1) * (s + 1) == s * s + 2 * s + 1;
  }

  /** The rooms of the building and their indices correspond one to one. */
  lemma PosIndexRoundTrip(p: Pos)
    requires InTriangle(p)
    ensures ToIndex(p) >= 0 && ToPos(ToIndex(p)) == p
  {
    var m := p.row - 1;
    var i := ToIndex(p);
    assert (m + 1) * (m + 1) == m * m + 2 * m + 1;
    FloorSqrtUnique(i, m);
  }

  /** An index between m^2 and (m + 1)^2 lies in row m + 1. */
  lemma ToPosInRow(i: int, m: nat)
    requires m * m <= i < (m + 1) * (m + 1)
    ensures ToPos(i) == Pos(m + 1, i - m * m + 1)
  {
    FloorSqrtUnique(i, m);
  }

  /** Orientation of an index between m^2 and (m + 1)^2, read off the parity
      of its row m + 1. */
  lemma PointsUpInRow(i: int, m: nat)
    requires m * m <= i < (m + 1) * (m + 1)
    ensures PointsUp(i) <==> (if (m + 1) % 2 == 1 then i % 2 == 0 else i % 2 == 1)
  {
    ToPosInRow(i, m);
  }

  /** Every index below side^2 is a room of the building. */
  lemma IndexIsValid(side: int, i: int)
    requires side >= 0 && 0 <= i < side * side
    ensures IsValid(side, ToPos(i))
  {
    var f := FloorSqrt(i);
    if f >= side {
      SquareMonotone(side, f);
    }
  }

  lemma SquareParity(m: int)
    requires m >= 0
    ensures (m * m) % 2 == m % 2
  {
    var k, b := m / 2, m % 2;
    assert m == 2 * k + b;
    assert m * m == 2 * (2 * k * k + 2 * k * b) + b * b;
    assert b * b == b;
  }

  /** The parity argument with the square as an opaque number sq of the
      parity of m. */
  lemma ParityStep(i: int, sq: int, m: int, col: int)
    requires i == sq + col - 1 && sq % 2 == m % 2
    ensures (if (m + 1) % 2 == 1 then i % 2 == 0 else i % 2 == 1) <==> col % 2 == 1
  {
  }

  /** A room points up exactly when its column is odd, in odd and even rows
      alike. */
  lemma PointsUpIffOddColumn(i: int)
    requires i >= 0
    ensures PointsUp(i) <==> ToPos(i).col % 2 == 1
  {
    var p := ToPos(i);
    var m := p.row - 1;
    SquareParity(m);
    ParityStep(i, m * m, m, p.col);
  }

  /** Adjacency read off the rooms: the same row and neighbouring columns,
      or across the horizontal edge, which lies below odd columns and above
      even ones. */
  predicate AdjacentRooms(p: Pos, q: Pos)
  {
    || (q.row == p.row && (q.col == p.col - 1 || q.col == p.col + 1))
    || (p.col % 2 == 1 && q == Pos(p.row + 1, p.col + 1))
    || (p.col % 2 == 0 && q == Pos(p.row - 1, p.col - 1))
  }

  lemma AdjacentIffRooms(i: int, j: int)
    requires i >= 0 && j >= 0
    ensures Adjacent(i, j) <==> AdjacentRooms(ToPos(i), ToPos(j))
  {
    PointsUpIffOddColumn(i);
  }

  lemma AdjacentRoomsSymmetric(p: Pos, q: Pos)
    requires AdjacentRooms(p, q)
    ensures AdjacentRooms(q, p)
  {
  }

  /** The neighbour relation is symmetric: i is a neighbour of each of its
      neighbours. */
  lemma AdjacentSymmetric(i: int, j: int)
    requires i >= 0 && j >= 0 && Adjacent(i, j)
    ensures Adjacent(j, i)
  {
    AdjacentIffRooms(i, j);
    AdjacentIffRooms(j, i);
    AdjacentRoomsSymmetric(ToPos(i), ToPos(j));
  }

  /** The room across the horizontal edge of room i. */
  function Across(i: int): Pos
    requires i >= 0
  {
    var o := ToPos(i);
    if PointsUp(i) then Pos(o.row + 1, o.col + 1) else Pos(o.row - 1, o.col - 1)
  }

  /** q is one of the three rooms PaintableNeighbors looks at for room i. */
  predicate Candidate(i: int, q: Pos)
    requires i >= 0
  {
    var o := ToPos(i);
    q == Pos(o.row, o.col - 1) || q == Pos(o.row, o.col + 1) || q == Across(i)
  }

  /** A paintable candidate room is adjacent to i. */
  lemma CandidateAdjacent(side: int, colors: seq<Color>, i: int, q: Pos)
    requires |colors| == side * side && i >= 0 && Candidate(i, q) && CanPaint(side, colors, q)
    ensures ToIndex(q) >= 0 && Adjacent(i, ToIndex(q))
  {
    PosIndexRoundTrip(q);
  }

  /** An adjacent room is a candidate, and a room of the building when its
      index is below side^2. */
  lemma AdjacentCandidate(side: int, colors: seq<Color>, i: int, j: int)
    requires side >= 0 && |colors| == side * side && i >= 0 && 0 <= j < |colors| && Adjacent(i, j)
    ensures Candidate(i, ToPos(j)) && IsValid(side, ToPos(j)) && ToIndex(ToPos(j)) == j
  {
    IndexIsValid(side, j);
  }

  /** Every room in the neighbour list is adjacent to i. */
  lemma PaintableNeighborsSound(side: int, colors: seq<Color>, i: int)
    requires |colors| == side * side && i >= 0
    ensures forall x :: x in PaintableNeighbors(side, colors, i) ==> Adjacent(i, x)
  {
    var o := ToPos(i);
    var left := Pos(o.row, o.col - 1);
    var right := Pos(o.row, o.col + 1);
    var across := Across(i);
    var l := if CanPaint(side, colors, left) then [ToIndex(left)] else [];
    var m := if CanPaint(side, colors, right) then [ToIndex(right)] else [];
    var n := if CanPaint(side, colors, across) then [ToIndex(across)] else [];
    assert PaintableNeighbors(side, colors, i) == l + m + n;
    if CanPaint(side, colors, left) {
      CandidateAdjacent(side, colors, i, left);
    }
    if CanPaint(side, colors, right) {
      CandidateAdjacent(side, colors, i, right);
    }
    if CanPaint(side, colors, across) {
      CandidateAdjacent(side, colors, i, across);
    }
  }

  /** Every unpainted room adjacent to i is in the neighbour list. */
  lemma PaintableNeighborsComplete(side: int, colors: seq<Color>, i: int, j: int)
    requires side >= 0 && |colors| == side * side && i >= 0
    requires 0 <= j < |colors| && colors[j] == Unpainted && Adjacent(i, j)
    ensures j in PaintableNeighbors(side, colors, i)
  {
    AdjacentCandidate(side, colors, i, j);
    assert CanPaint(side, colors, ToPos(j));
  }

  /** The neighbour list holds exactly the unpainted rooms adjacent to i. */
  lemma PaintableNeighborsExact(side: int, colors: seq<Color>, i: int)
    requires side >= 0 && |colors| == side * side && i >= 0
    ensures forall k :: 0 <= k < |PaintableNeighbors(side, colors, i)| ==>
              Adjacent(i, PaintableNeighbors(side, colors, i)[k])
    ensures forall j :: 0 <= j < |colors| && colors[j] == Unpainted && Adjacent(i, j) ==>
              j in PaintableNeighbors(side, colors, i)
  {
    PaintableNeighborsSound(side, colors, i);
    forall j | 0 <= j < |colors| && colors[j] == Unpainted && Adjacent(i, j)
      ensures j in PaintableNeighbors(side, colors, i)
    {
      PaintableNeighborsComplete(side, colors, i, j);
    }
  }

  /** The state of a duel as a value: the painters' rooms, the score, whose
      turn it is and the colour of every room. */
  datatype Snapshot = Snapshot(almaIndex: int, berthaIndex: int, score: int, turn: Turn,
                               roomColors: seq<Color>)

  /** The mover paints room i and moves there; Alma scores +1, Bertha -1. */
  function Painted(s: Snapshot, i: int): Snapshot
    requires 0 <= i < |s.roomColors|
  {
    if s.turn == TAlma then
      s.(roomColors := s.roomColors[i := Alma], almaIndex := i, score := s.score + 1, turn := TBertha)
    else
      s.(roomColors := s.roomColors[i := Bertha], berthaIndex := i, score := s.score - 1, turn := TAlma)
  }

  /** The mover cannot move and passes. */
  function Passed(s: Snapshot): Snapshot
  {
    s.(turn := Flip(s.turn))
  }

  /** The number of rooms of colour c. */
  function Count(colors: seq<Color>, c: Color): nat
  {
    if colors == [] then 0 else (if colors[0] == c then 1 else 0) + Count(colors[1..], c)
  }

  /** The score is Alma's rooms minus Bertha's. */
  predicate ScoreMatches(s: Snapshot)
  {
    s.score == Count(s.roomColors, Alma) - Count(s.roomColors, Bertha)
  }

  /** Painting changes room i to the mover's colour, moves the mover there,
      adds +1 for Alma or -1 for Bertha, hands the turn over and leaves the
      other painter and every other room alone. */
  lemma PaintedFacts(s: Snapshot, i: int)
    requires 0 <= i < |s.roomColors|
    ensures var t := Painted(s, i);
            && |t.roomColors| == |s.roomColors|
            && t.roomColors[i] == (if s.turn == TAlma then Alma else Bertha)
            && (forall j :: 0 <= j < |s.roomColors| && j != i ==> t.roomColors[j] == s.roomColors[j])
            && t.turn == Flip(s.turn)
            && (if s.turn == TAlma
                then t.almaIndex == i && t.berthaIndex == s.berthaIndex && t.score == s.score + 1
                else t.berthaIndex == i && t.almaIndex == s.almaIndex && t.score == s.score - 1)
  {
  }

  /** Overwriting one room changes each colour count by that room only. */
  lemma {:induction false} CountUpdate(colors: seq<Color>, i: int, c: Color, x: Color)
    requires 0 <= i < |colors|
    ensures Count(colors[i := c], x)
            == Count(colors, x) - (if colors[i] == x then 1 else 0) + (if c == x then 1 else 0)
    decreases |colors|
  {
    if i > 0 {
      assert colors[i := c][1..] == colors[1..][i - 1 := c];
      CountUpdate(colors[1..], i - 1, c, x);
    } else {
      assert colors[i := c][1..] == colors[1..];
    }
  }

  lemma {:induction false} CountUnpainted(n: nat, x: Color)
    requires x != Unpainted
    ensures Count(seq(n, _ => Unpainted), x) == 0
  {
    if n > 0 {
      assert seq(n, _ => Unpainted)[1..] == seq(n - 1, _ => Unpainted);
      CountUnpainted(n - 1, x);
    }
  }

  /** Painting an unpainted room keeps the score equal to the difference of
      the counts. */
  lemma PaintKeepsScore(s: Snapshot, i: int)
    requires ScoreMatches(s) && 0 <= i < |s.roomColors| && s.roomColors[i] == Unpainted
    ensures ScoreMatches(Painted(s, i))
  {
    var c := if s.turn == TAlma then Alma else Bertha;
    CountUpdate(s.roomColors, i, c, Alma);
    CountUpdate(s.roomColors, i, c, Bertha);
  }

  /** The opening position scores 0 for distinct starting rooms. */
  lemma InitialScore(n: nat, a: int, b: int)
    requires 0 <= a < n && 0 <= b < n && a != b
    ensures ScoreMatches(Snapshot(a, b, 0, TAlma, seq(n, _ => Unpainted)[a := Alma][b := Bertha]))
  {
    var e := seq(n, _ => Unpainted);
    CountUnpainted(n, Alma);
    CountUnpainted(n, Bertha);
    CountUpdate(e, a, Alma, Alma);
    CountUpdate(e, a, Alma, Bertha);
    CountUpdate(e[a := Alma], b, Bertha, Alma);
    CountUpdate(e[a := Alma], b, Bertha, Bertha);
  }

  /** One colour per room of the side-s building and both painters inside it. */
  ghost predicate Fits(side: int, s: Snapshot)
  {
    |s.roomColors| == side * side && 0 <= s.almaIndex < |s.roomColors| && 0 <= s.berthaIndex < |s.roomColors|
  }

  /** Painting a room keeps the state well formed, hands the turn over and,
      when the room was unpainted, keeps the score equal to the difference of
      the counts. */
  lemma PaintedKeeps(side: int, s: Snapshot, i: int)
    requires Fits(side, s) && 0 <= i < |s.roomColors|
    ensures Fits(side, Painted(s, i)) && Painted(s, i).turn == Flip(s.turn)
    ensures ScoreMatches(s) && s.roomColors[i] == Unpainted ==> ScoreMatches(Painted(s, i))
  {
    if ScoreMatches(s) && s.roomColors[i] == Unpainted {
      PaintKeepsScore(s, i);
    }
  }

  class State {
    const side: int
    var almaIndex: int
    var berthaIndex: int
    var score: int
    var turn: Turn
    var roomColors: seq<Color>

    /** One colour per room and both painters inside the building. */
    ghost predicate Valid()
      reads this
    {
      Fits(side, Snap())
    }

    function Snap(): Snapshot
      reads this
    {
      Snapshot(almaIndex, berthaIndex, score, turn, roomColors)
    }

    /** All rooms unpainted but the two starting ones; Alma moves first. */
    constructor (side: int, aPos: Pos, bPos: Pos)
      requires 0 <= ToIndex(aPos) < side * side && 0 <= ToIndex(bPos) < side * side
      ensures Valid() && this.side == side
      ensures almaIndex == ToIndex(aPos) && berthaIndex == ToIndex(bPos) && score == 0 && turn == TAlma
      ensures roomColors == seq(side * side, _ => Unpainted)[almaIndex := Alma][berthaIndex := Bertha]
      ensures almaIndex != berthaIndex ==> ScoreMatches(Snap())
    {
      this.side := side;
      almaIndex := ToIndex(aPos);
      berthaIndex := ToIndex(bPos);
      score := 0;
      turn := TAlma;
      new;
      roomColors := seq(side * side, _ => Unpainted);
      roomColors := roomColors[almaIndex := Alma];
      roomColors := roomColors[berthaIndex := Bertha];
      if almaIndex != berthaIndex {
        InitialScore(side * side, almaIndex, berthaIndex);
      }
    }

    /** The mover paints room i. */
    method Paint(i: int)
      requires 0 <= i < |roomColors|
      modifies this
      ensures Snap() == Painted(old(Snap()), i)
      ensures old(Valid()) ==> Valid()
    {
      if turn == TAlma {
        roomColors := roomColors[i := Alma];
        almaIndex := i;
        score := score + 1;
        turn := TBertha;
      } else {
        roomColors := roomColors[i := Bertha];
        berthaIndex := i;
        score := score - 1;
        turn := TAlma;
      }
    }

    /** A copy of this state, as the copy constructor makes. */
    method Clone() returns (c: State)
      ensures fresh(c) && c.side == side && c.Snap() == Snap()
    {
      c := new State.Copy(this);
    }

    constructor Copy(s: State)
      ensures side == s.side && Snap() == s.Snap()
    {
      side := s.side;
      almaIndex := s.almaIndex;
      berthaIndex := s.berthaIndex;
      score := s.score;
      turn := s.turn;
      roomColors := s.roomColors;
    }

    /** The mover's current room. */
    function Mover(): int
      reads this
    {
      if turn == TAlma then almaIndex else berthaIndex
    }

    /** One successor per paintable neighbour of the mover, each painting
        it; with none, the single successor where the mover passes. */
    method ExpandSuccs() returns (result: seq<State>)
      requires Valid()
      ensures |result| >= 1
      ensures forall m :: 0 <= m < |result| ==> fresh(result[m]) && result[m].side == side
      ensures var nb := PaintableNeighbors(side, roomColors, Mover());
              if |nb| > 0
              then |result| == |nb| && forall m :: 0 <= m < |result| ==> result[m].Snap() == Painted(Snap(), nb[m])
              else |result| == 1 && result[0].Snap() == Passed(Snap())
      ensures forall m :: 0 <= m < |result| ==> result[m].turn == Flip(turn) && result[m].Valid()
      ensures ScoreMatches(Snap()) ==> forall m :: 0 <= m < |result| ==> ScoreMatches(result[m].Snap())
    {
      var start;
      if turn == TAlma {
        start := almaIndex;
      } else {
        start := berthaIndex;
      }
      var neighbors := PaintableNeighbors(side, roomColors, start);
      if |neighbors| > 0 {
        result := PaintEach(neighbors);
        forall m | 0 <= m < |result|
          ensures result[m].turn == Flip(turn) && result[m].Valid()
          ensures ScoreMatches(Snap()) ==> ScoreMatches(result[m].Snap())
        {
          PaintedKeeps(side, Snap(), neighbors[m]);
        }
      } else {
        var succ := Clone();
        if turn == TAlma {
          succ.turn := TBertha;
        } else {
          succ.turn := TAlma;
        }
        result := [succ];
      }
    }

    /** A fresh copy of this state per room of rooms, the copy painting it. */
    method PaintEach(rooms: seq<int>) returns (result: seq<State>)
      requires forall k :: 0 <= k < |rooms| ==> 0 <= rooms[k] < |roomColors|
      ensures |result| == |rooms|
      ensures forall m :: 0 <= m < |result| ==> fresh(result[m]) && result[m].side == side
      ensures forall m :: 0 <= m < |result| ==> result[m].Snap() == Painted(Snap(), rooms[m])
    {
      result := [];
      var k := 0;
      while k < |rooms|
        invariant 0 <= k <= |rooms| && |result| == k
        invariant forall m :: 0 <= m < k ==> fresh(result[m]) && result[m].side == side
        invariant forall m :: 0 <= m < k ==> result[m].Snap() == Painted(Snap(), rooms[m])
      {
        var succ := Clone();
        succ.Paint(rooms[k]);
        result := result + [succ];
        k := k + 1;
      }
    }

    /** Whether the player has a paintable neighbour. For Bertha the room
        examined is the one whose index is the enumerator value of T_BERTHA,
        room 1, rather than Bertha's own room. */
    function CanMove(player: Turn): (r: bool)
      reads this
      requires Valid()
      ensures r <==> |PaintableNeighbors(side, roomColors, if player == TAlma then almaIndex else 1)| > 0
    {
      var start := if player == TAlma then almaIndex else TurnValue(TBertha);
      |PaintableNeighbors(side, roomColors, start)| > 0
    }

    /** The game is over when neither player can move. */
    function GameFinished(): (r: bool)
      reads this
      requires Valid()
      ensures r <==> PaintableNeighbors(side, roomColors, almaIndex) == []
                     && PaintableNeighbors(side, roomColors, 1) == []
    {
      !CanMove(TAlma) && !CanMove(TBertha)
    }
  }

  /** Room i has an unpainted room next to it. */
  predicate HasFreeNeighbour(colors: seq<Color>, i: int)
    requires i >= 0
  {
    exists j :: 0 <= j < |colors| && colors[j] == Unpainted && Adjacent(i, j)
  }

  /** The paintable neighbours are non-empty exactly when an unpainted room
      lies next to room i. */
  lemma NeighboursIffFree(side: int, colors: seq<Color>, i: int)
    requires side >= 0 && |colors| == side * side && i >= 0
    ensures |PaintableNeighbors(side, colors, i)| > 0 <==> HasFreeNeighbour(colors, i)
  {
    var nb := PaintableNeighbors(side, colors, i);
    if |nb| > 0 {
      PaintableNeighborsSound(side, colors, i);
      assert nb[0] in nb;
    }
    if HasFreeNeighbour(colors, i) {
      var j :| 0 <= j < |colors| && colors[j] == Unpainted && Adjacent(i, j);
      PaintableNeighborsComplete(side, colors, i, j);
    }
  }

  /** Alma can move exactly when an unpainted room lies next to hers; Bertha
      can move exactly when one lies next to room 1, whatever her own room. */
  lemma CanMoveIffFreeNeighbour(s: State, player: Turn)
    requires s.Valid() && s.side >= 0
    ensures s.CanMove(player) <==>
              HasFreeNeighbour(s.roomColors, if player == TAlma then s.almaIndex else 1)
  {
    NeighboursIffFree(s.side, s.roomColors, if player == TAlma then s.almaIndex else 1);
  }

  /** The game is over exactly when no unpainted room lies next to Alma's
      room and none lies next to room 1. */
  lemma GameFinishedIffStuck(s: State)
    requires s.Valid() && s.side >= 0
    ensures s.GameFinished() <==>
              !HasFreeNeighbour(s.roomColors, s.almaIndex) && !HasFreeNeighbour(s.roomColors, 1)
  {
    CanMoveIffFreeNeighbour(s, TAlma);
    CanMoveIffFreeNeighbour(s, TBertha);
  }

  /** Bertha's ability to move does not depend on her own room. */
  lemma CanMoveBerthaIgnoresIndex(s: State, t: State)
    requires s.Valid() && t.Valid() && s.side == t.side && s.roomColors == t.roomColors
    ensures s.CanMove(TBertha) == t.CanMove(TBertha)
  {
  }

  /** The room the fixed checks look at in the side-4 building: room 11 is
      (4, 3), and that room exists. */
  lemma RoomElevenFacts(i: int)
    requires i == 11
    ensures ToPos(i) == Pos(4, 3) && ToIndex(Pos(4, 3)) == i
    ensures IsValid(4, Pos(4, 3))
  {
    ToPosInRow(i, 3);
  }

  /** Room 11 points up and room 10 next to it points down. */
  lemma RoomElevenOrientation(i: int)
    requires i == 11
    ensures PointsUp(i) && !PointsUp(i - 1)
  {
    PointsUpInRow(i, 3);
    PointsUpInRow(i - 1, 3);
  }

  /** In the side-4 building with room 0 under construction and rooms 1 and 3
      unpainted, room 2 = (2, 2) points down and may paint 1 and 3 only. */
  lemma RoomTwoNeighbors(side: int, colors: seq<Color>, i: int)
    requires side == 4 && |colors| == side * side && i == 2
    requires colors[0] == Cons && colors[1] == Unpainted && colors[3] == Unpainted
    ensures PaintableNeighbors(side, colors, i) == [1, 3]
  {
    ToPosInRow(i, 1);
  }

  /** The fixed scenario: side 4, Alma in room (2, 2), Bertha in (4, 2), rooms
      0 and 14 under construction. Alma has two moves, left and right, and
      each successor has Bertha to move and score 1; room (4, 3) is
      paintable. */
  method TestState() returns (state: State, succs: seq<State>)
    ensures |succs| == 2
    ensures forall m :: 0 <= m < |succs| ==> succs[m].turn == TBertha && succs[m].score == 1
    ensures |state.roomColors| == state.side * state.side && CanPaint(state.side, state.roomColors, Pos(4, 3))
  {
    state := new State(4, Pos(2, 2), Pos(4, 2));
    state.roomColors := state.roomColors[0 := Cons][14 := Cons];
    state.turn := TAlma;
    assert state.roomColors[0] == Cons && state.roomColors[11] == Unpainted;
    assert state.roomColors[1] == Unpainted && state.roomColors[3] == Unpainted;
    succs := ExpandOpening(state);
  }

  /** Alma's moves from room 2 of the side-4 building when room 0 is under
      construction and rooms 1 and 3 are free. */
  method ExpandOpening(state: State) returns (succs: seq<State>)
    requires state.Valid() && state.side == 4 && state.turn == TAlma && state.almaIndex == 2 && state.score == 0
    requires state.roomColors[0] == Cons && state.roomColors[1] == Unpainted && state.roomColors[3] == Unpainted
    ensures |succs| == 2
    ensures forall m :: 0 <= m < |succs| ==> succs[m].turn == TBertha && succs[m].score == 1
  {
    RoomTwoNeighbors(state.side, state.roomColors, state.almaIndex);
    succs := state.ExpandSuccs();
  }
}
