/** ATM queue: n people queue at an ATM that hands out at most maxAmt per
    visit. The person at the front either takes the rest of their amount and
    leaves, or takes maxAmt and rejoins the back of the queue. The result is
    the order in which people leave. */
module AtmQueue {

  /** A person in the queue: the 1-based id and the amount still wanted. */
  datatype Person = Person(id: int, amt: int)

  /** The number of visits a person wanting amt needs. */
  function Rounds(amt: int, maxAmt: int): (r: nat)
    requires maxAmt > 0
    ensures r >= 1
    decreases amt
  {
    if amt <= maxAmt then 1 else 1 + Rounds(amt - maxAmt, maxAmt)
  }

  /** For a positive amount the number of visits is its ceiling quotient:
      (r - 1) * maxAmt < amt <= r * maxAmt. */
  lemma {:induction false} RoundsIsCeiling(amt: int, maxAmt: int)
    requires maxAmt > 0 && amt > 0
    ensures (Rounds(amt, maxAmt) - 1) * maxAmt < amt <= Rounds(amt, maxAmt) * maxAmt
    decreases amt
  {
    if amt > maxAmt {
      var r := Rounds(amt - maxAmt, maxAmt);
      RoundsIsCeiling(amt - maxAmt, maxAmt);
      assert Rounds(amt, maxAmt) * maxAmt == r * maxAmt + maxAmt;
      assert (Rounds(amt, maxAmt) - 1) * maxAmt == (r - 1) * maxAmt + maxAmt;
    }
  }

  /** Person i leaves before person j: fewer visits, or as many and a smaller
      id. */
  predicate Before(amounts: seq<int>, maxAmt: int, i: int, j: int)
    requires maxAmt > 0 && 1 <= i <= |amounts| && 1 <= j <= |amounts|
  {
    var ri, rj := Rounds(amounts[i - 1], maxAmt), Rounds(amounts[j - 1], maxAmt);
    ri < rj || (ri == rj && i < j)
  }

  /** The ids 1..n. */
  function Iota(n: nat): seq<int>
  {
    seq(n, k => k + 1)
  }

  function Ids(line: seq<Person>): seq<int>
  {
    seq(|line|, k requires 0 <= k < |line| => line[k].id)
  }

  /** The visits still owed to the queue: it drops by one at each step. */
  function Potential(line: seq<Person>, maxAmt: int): nat
    requires maxAmt > 0
  {
    if line == [] then 0 else Rounds(line[0].amt, maxAmt) + Potential(line[1..], maxAmt)
  }

  lemma {:induction false} PotentialAppend(line: seq<Person>, p: Person, maxAmt: int)
    requires maxAmt > 0
    ensures Potential(line + [p], maxAmt) == Potential(line, maxAmt) + Rounds(p.amt, maxAmt)
  {
    if line != [] {
      assert (line + [p])[1..] == line[1..] + [p];
      PotentialAppend(line[1..], p, maxAmt);
    }
  }

  // ---------------------------------------------------------------------
  // The loop invariant, in four parts. `served` counts, for every person in
  // the line, how often they have already taken maxAmt.

  /** Every queued person owes their original visits minus those served. */
  predicate Tracked(amounts: seq<int>, maxAmt: int, line: seq<Person>, served: seq<nat>)
    requires maxAmt > 0
  {
    && |served| == |line|
    && (forall k :: 0 <= k < |line| ==> 1 <= line[k].id <= |amounts|)
    && (forall k :: 0 <= k < |line| ==>
          Rounds(amounts[line[k].id - 1], maxAmt) == served[k] + Rounds(line[k].amt, maxAmt))
    && (forall k :: 0 <= k < |line| ==> served[k] > 0 ==> line[k].amt > 0)
  }

  /** The line is ordered by (served, id), and holds only people served as
      often as the front, or once more with a smaller id than the front. */
  predicate Ordered(line: seq<Person>, served: seq<nat>)
    requires |served| == |line|
  {
    && (forall k1, k2 :: 0 <= k1 < k2 < |line| ==>
          served[k1] < served[k2] || (served[k1] == served[k2] && line[k1].id < line[k2].id))
    && (forall k :: 0 <= k < |line| ==>
          served[k] == served[0] || (served[k] == served[0] + 1 && line[k].id < line[0].id))
  }

  /** Those who left did so in order, and before everyone still queued. */
  predicate LeftInOrder(amounts: seq<int>, maxAmt: int, line: seq<Person>, leave: seq<int>)
    requires maxAmt > 0
    requires forall k :: 0 <= k < |line| ==> 1 <= line[k].id <= |amounts|
  {
    && (forall i :: 0 <= i < |leave| ==> 1 <= leave[i] <= |amounts|)
    && (forall i, j :: 0 <= i < j < |leave| ==> Before(amounts, maxAmt, leave[i], leave[j]))
    && (forall i, k :: 0 <= i < |leave| && 0 <= k < |line| ==> Before(amounts, maxAmt, leave[i], line[k].id))
  }

  predicate QueueInv(amounts: seq<int>, maxAmt: int, line: seq<Person>, served: seq<nat>, leave: seq<int>)
    requires maxAmt > 0
  {
    && Tracked(amounts, maxAmt, line, served)
    && Ordered(line, served)
    && LeftInOrder(amounts, maxAmt, line, leave)
    && multiset(Ids(line)) + multiset(leave) == multiset(Iota(|amounts|))
  }

  /** The queue simulation: pop the front, then either record the id as
      leaving or push the person back with maxAmt less. The loop terminates
      for maxAmt > 0, and the ids leave sorted by number of visits, ties by
      id. */
  method LeaveOrder(amounts: seq<int>, maxAmt: int) returns (leaveOrder: seq<int>)
    requires maxAmt > 0
    ensures multiset(leaveOrder) == multiset(Iota(|amounts|))
    ensures forall i :: 0 <= i < |leaveOrder| ==> 1 <= leaveOrder[i] <= |amounts|
    ensures forall i, j :: 0 <= i < j < |leaveOrder| ==>
              Before(amounts, maxAmt, leaveOrder[i], leaveOrder[j])
  {
    var n := |amounts|;
    var line: seq<Person> := [];
    ghost var served: seq<nat> := [];
    var i := 0;
    while i < n
      invariant 0 <= i <= n
      invariant line == seq(i, k requires 0 <= k < i => Person(k + 1, amounts[k]))
      invariant served == seq(i, k => 0)
    {
      line := line + [Person(i + 1, amounts[i])];
      served := served + [0];
      i := i + 1;
    }
    InitialQueue(amounts, maxAmt);
    leaveOrder := [];
    while |line| > 0
      invariant QueueInv(amounts, maxAmt, line, served, leaveOrder)
      decreases Potential(line, maxAmt)
    {
      ghost var line0, served0 := line, served;
      var p := line[0];
      line := line[1..];
      served := served[1..];
      if p.amt <= maxAmt {
        LeaveStep(amounts, maxAmt, line0, served0, leaveOrder);
        p := p.(amt := 0);
        leaveOrder := leaveOrder + [p.id];
      } else {
        p := p.(amt := p.amt - maxAmt);
        line := line + [p];
        served := served + [served0[0] + 1];
        RequeueStep(amounts, maxAmt, line0, served0, leaveOrder, p);
      }
    }
  }

  /** The queue as first filled: ids 1..n in order, nobody served yet. */
  lemma InitialQueue(amounts: seq<int>, maxAmt: int)
    requires maxAmt > 0
    ensures QueueInv(amounts, maxAmt, seq(|amounts|, k requires 0 <= k < |amounts| => Person(k + 1, amounts[k])),
                     seq(|amounts|, k => 0), [])
  {
    var line := seq(|amounts|, k requires 0 <= k < |amounts| => Person(k + 1, amounts[k]));
    assert Ids(line) == Iota(|amounts|);
  }

  /** Popping the front and letting it leave keeps the invariant and lowers
      the potential. */
  lemma LeaveStep(amounts: seq<int>, maxAmt: int, line: seq<Person>, served: seq<nat>, leave: seq<int>)
    requires maxAmt > 0
    requires QueueInv(amounts, maxAmt, line, served, leave)
    requires line != [] && line[0].amt <= maxAmt
    ensures QueueInv(amounts, maxAmt, line[1..], served[1..], leave + [line[0].id])
    ensures Potential(line[1..], maxAmt) < Potential(line, maxAmt)
  {
    PopKeepsTracked(amounts, maxAmt, line, served);
    PopKeepsOrdered(line, served);
    LeaverInOrder(amounts, maxAmt, line, served, leave);
    assert Ids(line) == [line[0].id] + Ids(line[1..]);
  }

  lemma PopKeepsTracked(amounts: seq<int>, maxAmt: int, line: seq<Person>, served: seq<nat>)
    requires maxAmt > 0
    requires Tracked(amounts, maxAmt, line, served) && line != []
    ensures Tracked(amounts, maxAmt, line[1..], served[1..])
  {
  }

  lemma PopKeepsOrdered(line: seq<Person>, served: seq<nat>)
    requires |served| == |line| && Ordered(line, served) && line != []
    ensures Ordered(line[1..], served[1..])
  {
    var rest, restServed := line[1..], served[1..];
    forall k | 0 <= k < |rest|
      ensures restServed[k] == restServed[0] ||
              (restServed[k] == restServed[0] + 1 && rest[k].id < rest[0].id)
    {
      assert restServed[k] == served[k + 1] && restServed[0] == served[1];
      assert served[k + 1] == served[0] || (served[k + 1] == served[0] + 1 && line[k + 1].id < line[0].id);
      assert served[0] < served[1] || (served[0] == served[1] && line[0].id < line[1].id);
    }
  }

  lemma LeaverInOrder(amounts: seq<int>, maxAmt: int, line: seq<Person>, served: seq<nat>, leave: seq<int>)
    requires maxAmt > 0
    requires Tracked(amounts, maxAmt, line, served) && Ordered(line, served)
    requires LeftInOrder(amounts, maxAmt, line, leave)
    requires line != [] && line[0].amt <= maxAmt
    ensures LeftInOrder(amounts, maxAmt, line[1..], leave + [line[0].id])
  {
    var p, rest := line[0], line[1..];
    var leave' := leave + [p.id];
    forall k | 0 <= k < |rest| ensures Before(amounts, maxAmt, p.id, rest[k].id) {
      FrontLeavesFirst(amounts, maxAmt, line, served, k + 1);
    }
    forall i, k | 0 <= i < |leave'| && 0 <= k < |rest|
      ensures Before(amounts, maxAmt, leave'[i], rest[k].id)
    {
      if i < |leave| {
        assert rest[k] == line[k + 1];
      }
    }
    forall i, j | 0 <= i < j < |leave'|
      ensures Before(amounts, maxAmt, leave'[i], leave'[j])
    {
      if j == |leave| {
        assert Before(amounts, maxAmt, leave[i], line[0].id);
      }
    }
  }

  /** A front person who can leave now leaves before anyone else queued. */
  lemma FrontLeavesFirst(amounts: seq<int>, maxAmt: int, line: seq<Person>, served: seq<nat>, k: int)
    requires maxAmt > 0
    requires Tracked(amounts, maxAmt, line, served) && Ordered(line, served)
    requires line != [] && line[0].amt <= maxAmt && 0 < k < |line|
    ensures Before(amounts, maxAmt, line[0].id, line[k].id)
  {
    assert Rounds(amounts[line[0].id - 1], maxAmt) == served[0] + 1;
    assert served[0] < served[k] || (served[0] == served[k] && line[0].id < line[k].id);
  }

  /** Popping the front and pushing it back with maxAmt less keeps the
      invariant and lowers the potential. */
  lemma RequeueStep(amounts: seq<int>, maxAmt: int, line: seq<Person>, served: seq<nat>, leave: seq<int>, q: Person)
    requires maxAmt > 0
    requires QueueInv(amounts, maxAmt, line, served, leave)
    requires line != [] && line[0].amt > maxAmt
    requires q == Person(line[0].id, line[0].amt - maxAmt)
    ensures QueueInv(amounts, maxAmt, line[1..] + [q], served[1..] + [served[0] + 1], leave)
    ensures Potential(line[1..] + [q], maxAmt) < Potential(line, maxAmt)
  {
    PotentialAppend(line[1..], q, maxAmt);
    RequeueTracked(amounts, maxAmt, line, served, q);
    RequeueOrdered(line, served, q);
    RequeueInOrder(amounts, maxAmt, line, served, leave, q);
    RotateIds(line, q);
  }

  lemma RequeueTracked(amounts: seq<int>, maxAmt: int, line: seq<Person>, served: seq<nat>, q: Person)
    requires maxAmt > 0
    requires Tracked(amounts, maxAmt, line, served)
    requires line != [] && line[0].amt > maxAmt
    requires q == Person(line[0].id, line[0].amt - maxAmt)
    ensures Tracked(amounts, maxAmt, line[1..] + [q], served[1..] + [served[0] + 1])
  {
    var line', served' := line[1..] + [q], served[1..] + [served[0] + 1];
    forall k | 0 <= k < |line'|
      ensures 1 <= line'[k].id <= |amounts|
      ensures Rounds(amounts[line'[k].id - 1], maxAmt) == served'[k] + Rounds(line'[k].amt, maxAmt)
      ensures served'[k] > 0 ==> line'[k].amt > 0
    {
      if k < |line'| - 1 {
        assert line'[k] == line[k + 1] && served'[k] == served[k + 1];
      }
    }
  }

  lemma RequeueInOrder(amounts: seq<int>, maxAmt: int, line: seq<Person>, served: seq<nat>, leave: seq<int>, q: Person)
    requires maxAmt > 0
    requires Tracked(amounts, maxAmt, line, served)
    requires LeftInOrder(amounts, maxAmt, line, leave)
    requires line != [] && q.id == line[0].id
    ensures forall k :: 0 <= k < |line[1..] + [q]| ==> 1 <= (line[1..] + [q])[k].id <= |amounts|
    ensures LeftInOrder(amounts, maxAmt, line[1..] + [q], leave)
  {
    var line' := line[1..] + [q];
    forall k | 0 <= k < |line'| ensures 1 <= line'[k].id <= |amounts| {
      if k < |line'| - 1 {
        assert line'[k] == line[k + 1];
      }
    }
    forall i, k | 0 <= i < |leave| && 0 <= k < |line'|
      ensures Before(amounts, maxAmt, leave[i], line'[k].id)
    {
      if k < |line'| - 1 {
        assert line'[k] == line[k + 1];
        assert Before(amounts, maxAmt, leave[i], line[k + 1].id);
      } else {
        assert Before(amounts, maxAmt, leave[i], line[0].id);
      }
    }
  }

  /** Moving the front to the back keeps the multiset of ids. */
  lemma RotateIds(line: seq<Person>, q: Person)
    requires line != [] && q.id == line[0].id
    ensures multiset(Ids(line[1..] + [q])) == multiset(Ids(line))
  {
    assert Ids(line[1..] + [q]) == Ids(line)[1..] + [q.id];
    assert Ids(line) == [q.id] + Ids(line)[1..];
  }

  lemma RequeueOrdered(line: seq<Person>, served: seq<nat>, q: Person)
    requires |served| == |line| && Ordered(line, served)
    requires line != [] && q.id == line[0].id
    ensures Ordered(line[1..] + [q], served[1..] + [served[0] + 1])
  {
    var line', served' := line[1..] + [q], served[1..] + [served[0] + 1];
    var last := |line'| - 1;
    forall k1, k2 | 0 <= k1 < k2 < |line'|
      ensures served'[k1] < served'[k2] || (served'[k1] == served'[k2] && line'[k1].id < line'[k2].id)
    {
      if k2 < last {
        assert line'[k1] == line[k1 + 1] && line'[k2] == line[k2 + 1];
        assert served'[k1] == served[k1 + 1] && served'[k2] == served[k2 + 1];
      } else {
        assert line'[k1] == line[k1 + 1] && served'[k1] == served[k1 + 1];
        assert served[k1 + 1] == served[0] || (served[k1 + 1] == served[0] + 1 && line[k1 + 1].id < line[0].id);
      }
    }
    forall k | 0 <= k < |line'|
      ensures served'[k] == served'[0] || (served'[k] == served'[0] + 1 && line'[k].id < line'[0].id)
    {
      if |line| == 1 {
      } else {
        assert served'[0] == served[1] && line'[0] == line[1];
        assert served[1] == served[0] || (served[1] == served[0] + 1 && line[1].id < line[0].id);
        if k < last {
          assert line'[k] == line[k + 1] && served'[k] == served[k + 1];
          assert served[1] < served[k + 1] || (served[1] == served[k + 1] && line[1].id < line[k + 1].id) || k == 0;
          assert served[k + 1] == served[0] || (served[k + 1] == served[0] + 1 && line[k + 1].id < line[0].id);
        } else {
          assert served[0] < served[1] || (served[0] == served[1] && line[0].id < line[1].id);
        }
      }
    }
  }
}
