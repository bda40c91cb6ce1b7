/** Metal harvest: the harvesting intervals are kept in a min-priority queue
    ordered by start time, and a sweep over the times 1..tEndMax starts a new
    bot whenever the current interval needs one and no bot is running. A bot
    stops once it has run for botRuntimeMax time units. */
module MetalHarvest {

  /** A harvesting interval [start, end). */
  datatype TimeInt = TimeInt(start: int, end: int)

  /** The four comparison operators look at the start time alone. */
  predicate Gt(c1: TimeInt, c2: TimeInt) { c1.start > c2.start }
  predicate Ge(c1: TimeInt, c2: TimeInt) { c1.start >= c2.start }
  predicate Lt(c1: TimeInt, c2: TimeInt) { c1.start < c2.start }
  predicate Le(c1: TimeInt, c2: TimeInt) { c1.start <= c2.start }

  /** The operators are mutually consistent and ignore the end time, so they
      describe a total preorder on start times. */
  lemma OperatorsOrderByStart(c1: TimeInt, c2: TimeInt, c3: TimeInt)
    ensures Gt(c1, c2) <==> Lt(c2, c1)
    ensures Ge(c1, c2) <==> !Lt(c1, c2)
    ensures Le(c1, c2) <==> !Gt(c1, c2)
    ensures Le(c1, c2) || Le(c2, c1)
    ensures Le(c1, c2) && Le(c2, c3) ==> Le(c1, c3)
    ensures c1.start == c2.start ==> Le(c1, c2) && Le(c2, c1)
  {
  }

  predicate SortedByStart(s: seq<TimeInt>)
  {
    forall i, j :: 0 <= i < j < |s| ==> s[i].start <= s[j].start
  }

  /** Where a push puts a new interval: after every queued interval that does
      not start later. */
  function Insert(s: seq<TimeInt>, t: TimeInt): seq<TimeInt>
  {
    if s == [] then [t]
    else if t.start < s[0].start then [t] + s
    else [s[0]] + Insert(s[1..], t)
  }

  lemma {:induction false} InsertMultiset(s: seq<TimeInt>, t: TimeInt)
    ensures multiset(Insert(s, t)) == multiset(s) + multiset{t}
    ensures |Insert(s, t)| == |s| + 1
  {
    if s != [] && t.start >= s[0].start {
      InsertMultiset(s[1..], t);
      assert s == [s[0]] + s[1..];
    }
  }

  /** Pushing keeps the queue in start order. */
  lemma {:induction false} InsertSorted(s: seq<TimeInt>, t: TimeInt)
    requires SortedByStart(s)
    ensures SortedByStart(Insert(s, t))
  {
    if s != [] && t.start >= s[0].start {
      var rest := Insert(s[1..], t);
      InsertSorted(s[1..], t);
      InsertMultiset(s[1..], t);
      forall k | 0 <= k < |rest|
        ensures s[0].start <= rest[k].start
      {
        assert rest[k] in multiset(rest);
        if rest[k] != t {
          assert rest[k] in multiset(s[1..]);
          var m :| 0 <= m < |s[1..]| && s[1..][m] == rest[k];
          assert s[m + 1] == rest[k];
        }
      }
      assert Insert(s, t) == [s[0]] + rest;
    }
  }

  /** An interval that starts no earlier than every queued one goes last. */
  lemma {:induction false} InsertLatest(s: seq<TimeInt>, t: TimeInt)
    requires forall k :: 0 <= k < |s| ==> s[k].start <= t.start
    ensures Insert(s, t) == s + [t]
  {
    if s != [] {
      InsertLatest(s[1..], t);
      assert s == [s[0]] + s[1..];
    }
  }

  /** The `priority_queue<TimeInt, vector<TimeInt>, greater<TimeInt>>`: a
      min-queue on start times, held as the start-sorted sequence of its
      elements. */
  class StartQueue {
    var items: seq<TimeInt>

    ghost predicate Valid()
      reads this
    {
      SortedByStart(items)
    }

    constructor ()
      ensures Valid() && items == []
    {
      items := [];
    }

    method Push(t: TimeInt)
      requires Valid()
      modifies this
      ensures Valid()
      ensures items == Insert(old(items), t)
      ensures multiset(items) == multiset(old(items)) + multiset{t}
      ensures old(items) == [] || old(items)[|old(items)| - 1].start <= t.start ==>
                items == old(items) + [t]
    {
      if items == [] || items[|items| - 1].start <= t.start {
        InsertLatest(items, t);
      }
      InsertSorted(items, t);
      InsertMultiset(items, t);
      items := Insert(items, t);
    }

    /** The interval with the smallest start. */
    function Top(): (r: TimeInt)
      requires items != []
      reads this
      ensures r in items
      ensures Valid() ==> forall k :: 0 <= k < |items| ==> r.start <= items[k].start
    {
      items[0]
    }

    method Pop()
      requires Valid() && items != []
      modifies this
      ensures Valid()
      ensures items == old(items)[1..]
    {
      items := items[1..];
    }
  }

  /** The queue experiment: four intervals are pushed and popped again; the
      starts come out in increasing order. */
  method HeapProto() returns (starts: seq<int>)
    ensures starts == [4, 8, 13, 17]
  {
    var q := new StartQueue();
    q.Push(TimeInt(4, 5));
    q.Push(TimeInt(8, 11));
    q.Push(TimeInt(13, 15));
    q.Push(TimeInt(17, 18));
    ghost var pushed := q.items;
    assert pushed[0].start == 4 && pushed[1].start == 8 && pushed[2].start == 13 && pushed[3].start == 17;
    starts := Drain(q);
  }

  /** Pops the queue until it is empty, collecting the start times: they
      come out in the queue's order, and so in non-decreasing order. */
  method Drain(q: StartQueue) returns (starts: seq<int>)
    requires q.Valid()
    modifies q
    ensures q.items == []
    ensures |starts| == |old(q.items)|
    ensures forall k :: 0 <= k < |starts| ==> starts[k] == old(q.items)[k].start
    ensures forall k :: 0 < k < |starts| ==> starts[k - 1] <= starts[k]
  {
    ghost var pushed := q.items;
    starts := [];
    while q.items != []
      invariant q.Valid()
      invariant |starts| <= |pushed| && q.items == pushed[|starts|..]
      invariant forall k :: 0 <= k < |starts| ==> starts[k] == pushed[k].start
      decreases |q.items|
    {
      var top := q.Top();
      q.Pop();
      starts := starts + [top.start];
    }
  }

  /** Time s lies inside one of the intervals in vs. */
  predicate CoveredBy(vs: seq<TimeInt>, s: int)
  {
    exists k :: 0 <= k < |vs| && vs[k].start <= s < vs[k].end
  }

  /** At time t the bot started at some start time in starts has run for less
      than botRuntimeMax units. */
  predicate RunningAt(starts: seq<int>, t: int, botRuntimeMax: int)
  {
    exists j :: 0 <= j < |starts| && starts[j] <= t < starts[j] + botRuntimeMax
  }

  /** Time s lies inside one of the first pos intervals of order. */
  predicate CoveredUpTo(order: seq<TimeInt>, pos: int, s: int)
  {
    exists k :: 0 <= k < pos && k < |order| && order[k].start <= s < order[k].end
  }

  /** The times at which the first pos intervals of order became current:
      increasing, starting at 0, and never before the previous interval had
      ended. */
  ghost predicate TakenState(order: seq<TimeInt>, pos: int, taken: seq<int>)
  {
    && 1 <= pos <= |order|
    && |taken| == pos && taken[0] == 0
    && (forall k, l :: 0 <= k < l < |taken| ==> taken[k] < taken[l])
    && (forall k :: 0 < k < |taken| ==> order[k - 1].end <= taken[k])
  }

  /** The bot starts so far: positive, increasing, at least botRuntimeMax
      apart and each inside one of the first pos intervals of order. */
  ghost predicate StartsState(order: seq<TimeInt>, pos: int, starts: seq<int>, botRuntimeMax: int)
  {
    && (forall j :: 0 <= j < |starts| ==> 1 <= starts[j])
    && (forall j, k :: 0 <= j < k < |starts| ==> starts[j] < starts[k])
    && (forall j, k :: 0 <= j < k < |starts| ==> starts[k] - starts[j] >= botRuntimeMax)
    && (forall j :: 0 <= j < |starts| ==> CoveredUpTo(order, pos, starts[j]))
  }

  /** The record of the steps so far: a bot runs at each of its start times,
      and whenever a bot runs it has run for less than botRuntimeMax units. */
  ghost predicate RunState(starts: seq<int>, running: seq<bool>, botRuntimeMax: int)
  {
    && (forall j :: 0 <= j < |starts| ==> 1 <= starts[j] <= |running| && running[starts[j] - 1])
    && (botRuntimeMax >= 1 ==>
          forall t :: 1 <= t <= |running| && running[t - 1] ==> RunningAt(starts, t, botRuntimeMax))
  }

  /** Everything the sweep keeps true at the start of step i. */
  ghost predicate SweepInv(order: seq<TimeInt>, pos: int, taken: seq<int>, starts: seq<int>,
                           running: seq<bool>, nBots: int, botActive: bool, botStart: int, i: int,
                           botRuntimeMax: int)
  {
    && 1 <= pos <= |order|
    && |taken| == pos && taken[pos - 1] < i
    && TakenState(order, pos, taken)
    && StartsState(order, pos, starts, botRuntimeMax)
    && nBots == |starts| && nBots <= i - 1
    && (|starts| > 0 ==> botStart == starts[|starts| - 1] && botStart < i)
    && (botActive ==> |starts| > 0)
    && (!botActive && |starts| > 0 ==> i - botStart >= botRuntimeMax)
    && (botRuntimeMax >= 1 && botActive ==> i - 1 - botStart < botRuntimeMax)
    && |running| == i - 1
    && RunState(starts, running, botRuntimeMax)
  }

  /** Step i starts a bot: the current interval covers i and no bot is
      running after the deactivation check. */
  lemma StepStart(order: seq<TimeInt>, pos: int, taken: seq<int>, starts: seq<int>,
                  running: seq<bool>, nBots: int, botActive: bool, botStart: int, i: int,
                  botRuntimeMax: int, stillActive: bool)
    requires SweepInv(order, pos, taken, starts, running, nBots, botActive, botStart, i, botRuntimeMax)
    requires stillActive == (botActive && i - botStart < botRuntimeMax) && !stillActive
    requires 1 <= pos <= |order| && order[pos - 1].start <= i < order[pos - 1].end
    ensures SweepInv(order, pos, taken, starts + [i], running + [true], nBots + 1, true, i, i + 1,
                     botRuntimeMax)
  {
    StartStep(order, pos, starts, botRuntimeMax, i);
    RunStep(starts, starts + [i], running, i, true, i, botRuntimeMax);
  }

  /** Step i moves on to the next queued interval, the current one having
      ended. */
  lemma StepPop(order: seq<TimeInt>, pos: int, taken: seq<int>, starts: seq<int>,
                running: seq<bool>, nBots: int, botActive: bool, botStart: int, i: int,
                botRuntimeMax: int, stillActive: bool)
    requires SweepInv(order, pos, taken, starts, running, nBots, botActive, botStart, i, botRuntimeMax)
    requires stillActive == (botActive && i - botStart < botRuntimeMax)
    requires 1 <= pos < |order| && order[pos - 1].end <= i
    ensures SweepInv(order, pos + 1, taken + [i], starts, running + [stillActive], nBots, stillActive,
                     botStart, i + 1, botRuntimeMax)
  {
    TakenStep(order, pos, taken, i);
    VisitStep(order, pos, starts, botRuntimeMax);
    RunStep(starts, starts, running, i, stillActive, botStart, botRuntimeMax);
  }

  /** Step i neither starts a bot nor moves on. */
  lemma StepIdle(order: seq<TimeInt>, pos: int, taken: seq<int>, starts: seq<int>,
                 running: seq<bool>, nBots: int, botActive: bool, botStart: int, i: int,
                 botRuntimeMax: int, stillActive: bool)
    requires SweepInv(order, pos, taken, starts, running, nBots, botActive, botStart, i, botRuntimeMax)
    requires stillActive == (botActive && i - botStart < botRuntimeMax)
    ensures SweepInv(order, pos, taken, starts, running + [stillActive], nBots, stillActive,
                     botStart, i + 1, botRuntimeMax)
  {
    RunStep(starts, starts, running, i, stillActive, botStart, botRuntimeMax);
  }

  /** Taking the first element off order[pos..]. */
  lemma DropOne(order: seq<TimeInt>, pos: int)
    requires 0 <= pos < |order|
    ensures order[pos..][0] == order[pos] && order[pos..][1..] == order[pos + 1..]
  {
  }

  /** Reading the intervals: every interval is pushed, and tEndMax becomes
      the maximum of 1 and every end. */
  method CollectIntervals(intervals: seq<TimeInt>) returns (tis: StartQueue, tEndMax: int)
    ensures fresh(tis) && tis.Valid()
    ensures multiset(tis.items) == multiset(intervals) && |tis.items| == |intervals|
    ensures tEndMax >= 1
    ensures forall k :: 0 <= k < |intervals| ==> intervals[k].end <= tEndMax
    ensures tEndMax == 1 || exists k :: 0 <= k < |intervals| && intervals[k].end == tEndMax
  {
    tis := new StartQueue();
    tEndMax := 1;
    var n := 0;
    ghost var argMax := 0;
    while n < |intervals|
      invariant fresh(tis) && tis.Valid()
      invariant CollectInv(intervals, n, tis.items, tEndMax, argMax)
    {
      ghost var items0 := tis.items;
      tis.Push(intervals[n]);
      ghost var argMax0 := argMax;
      if intervals[n].end > tEndMax {
        argMax := n;
      }
      ghost var tEndMax0 := tEndMax;
      tEndMax := if intervals[n].end > tEndMax then intervals[n].end else tEndMax;
      CollectStep(intervals, n, items0, tis.items, tEndMax0, tEndMax, argMax0, argMax);
      n := n + 1;
    }
    CollectEnds(intervals, n, tis.items, tEndMax, argMax);
  }

  /** What the filling loop keeps after n pushes: the queue holds the first n
      intervals and tEndMax is the maximum of 1 and their ends, attained at
      argMax unless it is 1. */
  ghost predicate CollectInv(intervals: seq<TimeInt>, n: int, items: seq<TimeInt>, tEndMax: int,
                             argMax: int)
  {
    && 0 <= n <= |intervals|
    && multiset(items) == multiset(intervals[..n])
    && tEndMax >= 1
    && (forall k :: 0 <= k < n ==> intervals[k].end <= tEndMax)
    && (tEndMax == 1 || (0 <= argMax < n && intervals[argMax].end == tEndMax))
  }

  lemma CollectStep(intervals: seq<TimeInt>, n: int, items0: seq<TimeInt>, items: seq<TimeInt>,
                    m0: int, m: int, argMax0: int, argMax: int)
    requires CollectInv(intervals, n, items0, m0, argMax0) && n < |intervals|
    requires multiset(items) == multiset(items0) + multiset{intervals[n]}
    requires m == if intervals[n].end > m0 then intervals[n].end else m0
    requires argMax == if intervals[n].end > m0 then n else argMax0
    ensures CollectInv(intervals, n + 1, items, m, argMax)
  {
    PushedPrefix(intervals, n);
    MaxStep(intervals, n, m0, m);
  }

  lemma CollectEnds(intervals: seq<TimeInt>, n: int, items: seq<TimeInt>, tEndMax: int, argMax: int)
    requires CollectInv(intervals, n, items, tEndMax, argMax) && n >= |intervals|
    ensures multiset(items) == multiset(intervals) && |items| == |intervals|
    ensures tEndMax >= 1
    ensures forall k :: 0 <= k < |intervals| ==> intervals[k].end <= tEndMax
    ensures tEndMax == 1 || exists k :: 0 <= k < |intervals| && intervals[k].end == tEndMax
  {
    assert intervals[..n] == intervals;
    assert |multiset(items)| == |items|;
  }

  /** The sweep of one test case. `starts` records the time of every bot
      start, `visited` the intervals in the order they became current,
      `taken` the time each became current (0 for the one taken before the
      sweep) and `running[t - 1]` whether a bot is running at the end of step
      t. An empty queue is never popped: when the queue is exhausted the last
      interval stays current. */
  method CountBots(intervals: seq<TimeInt>, botRuntimeMax: int)
    returns (nBots: int, tEndMax: int, ghost starts: seq<int>, ghost visited: seq<TimeInt>,
             ghost taken: seq<int>, ghost running: seq<bool>)
    requires |intervals| >= 1
    // tEndMax is the maximum of 1 and every end
    ensures tEndMax >= 1
    ensures forall k :: 0 <= k < |intervals| ==> intervals[k].end <= tEndMax
    ensures tEndMax == 1 || exists k :: 0 <= k < |intervals| && intervals[k].end == tEndMax
    // one bot per recorded start, at most one start per time step
    ensures nBots == |starts| && 0 <= nBots <= tEndMax
    ensures forall j :: 0 <= j < |starts| ==> 1 <= starts[j] <= tEndMax
    ensures forall j, k :: 0 <= j < k < |starts| ==> starts[j] < starts[k]
    ensures forall j, k :: 0 <= j < k < |starts| ==> starts[k] - starts[j] >= botRuntimeMax
    ensures forall j :: 0 <= j < |starts| ==> CoveredBy(visited, starts[j])
    // the queue hands out the intervals in start order
    ensures 1 <= |visited| <= |intervals|
    ensures SortedByStart(visited)
    ensures multiset(visited) <= multiset(intervals)
    ensures |taken| == |visited| && taken[0] == 0
    ensures forall k, l :: 0 <= k < l < |taken| ==> taken[k] < taken[l]
    ensures forall k :: 0 <= k < |taken| ==> taken[k] <= tEndMax
    ensures forall k :: 0 < k < |taken| ==> visited[k - 1].end <= taken[k]
    // a running bot has run for less than botRuntimeMax units
    ensures |running| == tEndMax
    ensures forall j :: 0 <= j < |starts| ==> running[starts[j] - 1]
    ensures botRuntimeMax >= 1 ==>
              forall t :: 1 <= t <= tEndMax && running[t - 1] ==> RunningAt(starts, t, botRuntimeMax)
    // the count never exceeds the fewest bots that harvest every unit
    ensures forall bots :: Covers(bots, intervals, botRuntimeMax) ==> nBots <= |bots|
  {
    var tis;
    tis, tEndMax := CollectIntervals(intervals);
    ghost var order, pos, botActive, botStart;
    nBots, order, pos, taken, starts, running, botActive, botStart := Sweep(tis, tEndMax, botRuntimeMax);
    visited := order[..pos];
    SweepEnds(intervals, order, pos, taken, starts, running, nBots, botActive, botStart, tEndMax,
              botRuntimeMax);
    forall bots | Covers(bots, intervals, botRuntimeMax)
      ensures nBots <= |bots|
    {
      forall j | 0 <= j < |starts|
        ensures RunningAt(bots, starts[j], botRuntimeMax)
      {
        CoveredBySubset(visited, intervals, starts[j]);
      }
      FewestBots(starts, bots, botRuntimeMax);
    }
  }

  /** A unit inside an interval of a sub-multiset lies inside an interval
      of the whole. */
  lemma CoveredBySubset(a: seq<TimeInt>, b: seq<TimeInt>, t: int)
    requires multiset(a) <= multiset(b) && CoveredBy(a, t)
    ensures CoveredBy(b, t)
  {
    var k :| 0 <= k < |a| && a[k].start <= t < a[k].end;
    assert a[k] in multiset(b);
    var m :| 0 <= m < |b| && b[m] == a[k];
  }

  /** The time loop proper, over the queue filled by CollectIntervals: the
      first interval is taken before the loop, and each step first retires a
      bot that has run botRuntimeMax units, then starts one if the current
      interval covers i and none is running, or moves to the next interval
      once i has reached the current one's end and the queue is not empty.
      `order` is the queue's contents in start order and `pos` the number of
      intervals taken from it. */
  method Sweep(tis: StartQueue, tEndMax: int, botRuntimeMax: int)
    returns (nBots: int, ghost order: seq<TimeInt>, ghost pos: int, ghost taken: seq<int>,
             ghost starts: seq<int>, ghost running: seq<bool>, ghost botActive: bool,
             ghost botStart: int)
    requires tis.Valid() && tis.items != [] && tEndMax >= 1
    modifies tis
    ensures order == old(tis.items)
    ensures SweepInv(order, pos, taken, starts, running, nBots, botActive, botStart, tEndMax + 1,
                     botRuntimeMax)
  {
    var active := false;
    var start := 1;
    nBots := 0;
    starts := [];
    order := tis.items;
    var nextTi := tis.Top();
    tis.Pop();
    pos := 1;
    taken := [0];
    running := [];
    var i := 1;
    SweepStarts(order, botRuntimeMax);
    while i <= tEndMax
      invariant 1 <= i <= tEndMax + 1
      invariant 1 <= pos <= |order| && tis.items == order[pos..] && nextTi == order[pos - 1]
      invariant SweepInv(order, pos, taken, starts, running, nBots, active, start, i, botRuntimeMax)
    {
      nextTi, nBots, active, start, pos, taken, starts, running :=
        Tick(tis, order, i, botRuntimeMax, nextTi, nBots, active, start, pos, taken, starts, running);
      i := i + 1;
    }
    botActive, botStart := active, start;
  }

  /** One time step i of the sweep: retire the running bot once it has run
      botRuntimeMax units; start one if the current interval covers i and
      none is running; otherwise, once i has reached the current interval's
      end, take the next interval from the queue if there is one. */
  method Tick(tis: StartQueue, ghost order: seq<TimeInt>, i: int, botRuntimeMax: int,
              nextTi: TimeInt, nBots: int, active: bool, start: int, ghost pos: int,
              ghost taken: seq<int>, ghost starts: seq<int>, ghost running: seq<bool>)
    returns (nextTi': TimeInt, nBots': int, active': bool, start': int, ghost pos': int,
             ghost taken': seq<int>, ghost starts': seq<int>, ghost running': seq<bool>)
    requires SortedByStart(order)
    requires 1 <= pos <= |order| && tis.items == order[pos..] && nextTi == order[pos - 1]
    requires SweepInv(order, pos, taken, starts, running, nBots, active, start, i, botRuntimeMax)
    modifies tis
    ensures 1 <= pos' <= |order| && tis.items == order[pos'..] && nextTi' == order[pos' - 1]
    ensures SweepInv(order, pos', taken', starts', running', nBots', active', start', i + 1,
                     botRuntimeMax)
    // a bot starts exactly when the current interval covers i and none is running
    ensures var still := active && i - start < botRuntimeMax;
            if nextTi.start <= i < nextTi.end && !still
            then active' && start' == i && nBots' == nBots + 1
            else active' == still && start' == start && nBots' == nBots
    // the queue advances exactly when i has passed the current end and it is not empty
    ensures if i >= nextTi.end && old(tis.items) != []
            then pos' == pos + 1 && nextTi' == old(tis.items)[0]
            else pos' == pos && nextTi' == nextTi
  {
    active', start', nBots', nextTi' := active, start, nBots, nextTi;
    pos', taken', starts', running' := pos, taken, starts, running;
    if active' {
      var botRuntime := i - start';
      if botRuntime >= botRuntimeMax {
        active' := false;
      }
    }

    if i >= nextTi'.start && i < nextTi'.end {
      if !active' {
        StepStart(order, pos, taken, starts, running, nBots, active, start, i, botRuntimeMax, active');
        active' := true;
        start' := i;
        nBots' := nBots' + 1;
        starts' := starts + [i];
      } else {
        StepIdle(order, pos, taken, starts, running, nBots, active, start, i, botRuntimeMax, active');
      }
    } else if i >= nextTi'.end {
      if tis.items != [] {
        StepPop(order, pos, taken, starts, running, nBots, active, start, i, botRuntimeMax, active');
        DropOne(order, pos);
        SortedSuffix(order, pos);
        nextTi' := tis.Top();
        tis.Pop();
        pos' := pos + 1;
        taken' := taken + [i];
      } else {
        StepIdle(order, pos, taken, starts, running, nBots, active, start, i, botRuntimeMax, active');
      }
    } else {
      StepIdle(order, pos, taken, starts, running, nBots, active, start, i, botRuntimeMax, active');
    }
    running' := running + [active'];
  }

  lemma MaxStep(intervals: seq<TimeInt>, n: int, m0: int, m: int)
    requires 0 <= n < |intervals|
    requires forall k :: 0 <= k < n ==> intervals[k].end <= m0
    requires m == if intervals[n].end > m0 then intervals[n].end else m0
    ensures forall k :: 0 <= k < n + 1 ==> intervals[k].end <= m
  {
  }

  lemma PushedPrefix(intervals: seq<TimeInt>, n: int)
    requires 0 <= n < |intervals|
    ensures multiset(intervals[..n + 1]) == multiset(intervals[..n]) + multiset{intervals[n]}
  {
    assert intervals[..n + 1] == intervals[..n] + [intervals[n]];
  }

  /** Starting a bot at time i, inside the current interval and at least
      botRuntimeMax after the previous start, keeps the starts well formed. */
  lemma StartStep(order: seq<TimeInt>, pos: int, starts: seq<int>, botRuntimeMax: int, i: int)
    requires StartsState(order, pos, starts, botRuntimeMax)
    requires i >= 1 && 1 <= pos <= |order|
    requires order[pos - 1].start <= i < order[pos - 1].end
    requires |starts| > 0 ==> starts[|starts| - 1] < i && i - starts[|starts| - 1] >= botRuntimeMax
    ensures StartsState(order, pos, starts + [i], botRuntimeMax)
  {
    var s := starts + [i];
    assert CoveredUpTo(order, pos, i);
    forall j | 0 <= j < |s|
      ensures 1 <= s[j] && CoveredUpTo(order, pos, s[j])
    {
      if j < |starts| {
        assert s[j] == starts[j];
      }
    }
    forall j, k | 0 <= j < k < |s|
      ensures s[j] < s[k] && s[k] - s[j] >= botRuntimeMax
    {
      assert s[j] == starts[j];
      if k < |starts| {
        assert s[k] == starts[k];
      } else {
        var last := starts[|starts| - 1];
        if j < |starts| - 1 {
          assert starts[j] < last;
        }
      }
    }
  }

  /** Taking the next interval as current keeps every recorded start covered. */
  lemma VisitStep(order: seq<TimeInt>, pos: int, starts: seq<int>, botRuntimeMax: int)
    requires StartsState(order, pos, starts, botRuntimeMax)
    ensures StartsState(order, pos + 1, starts, botRuntimeMax)
  {
    forall j | 0 <= j < |starts|
      ensures CoveredUpTo(order, pos + 1, starts[j])
    {
      assert CoveredUpTo(order, pos, starts[j]);
    }
  }

  /** Popping the next interval at time i, once the current one has ended,
      records i as the time it became current. */
  lemma TakenStep(order: seq<TimeInt>, pos: int, taken: seq<int>, i: int)
    requires TakenState(order, pos, taken) && pos < |order|
    requires taken[pos - 1] < i && order[pos - 1].end <= i
    ensures TakenState(order, pos + 1, taken + [i])
  {
    var t := taken + [i];
    forall k | 0 < k < |t|
      ensures order[k - 1].end <= t[k]
    {
      if k < |taken| {
        assert t[k] == taken[k];
      }
    }
    forall k, l | 0 <= k < l < |t|
      ensures t[k] < t[l]
    {
      assert t[k] == taken[k];
      if l < |taken| {
        assert t[l] == taken[l];
      } else if k < |taken| - 1 {
        assert taken[k] < taken[|taken| - 1];
      }
    }
  }

  /** One sweep step keeps the record of running times correct. */
  lemma RunStep(starts0: seq<int>, starts: seq<int>, running: seq<bool>, i: int,
                botActive: bool, botStart: int, botRuntimeMax: int)
    requires RunState(starts0, running, botRuntimeMax)
    requires |running| == i - 1
    requires starts == starts0 || (starts == starts0 + [i] && botActive)
    requires botActive ==> |starts| > 0 && botStart == starts[|starts| - 1]
    requires botRuntimeMax >= 1 && botActive ==> botStart <= i && i - botStart < botRuntimeMax
    ensures RunState(starts, running + [botActive], botRuntimeMax)
  {
    var r := running + [botActive];
    forall j | 0 <= j < |starts|
      ensures 1 <= starts[j] <= |r| && r[starts[j] - 1]
    {
      if j < |starts0| {
        assert starts[j] == starts0[j];
      }
    }
    if botRuntimeMax >= 1 {
      forall t | 1 <= t <= |r| && r[t - 1]
        ensures RunningAt(starts, t, botRuntimeMax)
      {
        if t == i {
          assert starts[|starts| - 1] <= t < starts[|starts| - 1] + botRuntimeMax;
        } else {
          assert running[t - 1];
          assert RunningAt(starts0, t, botRuntimeMax);
          var j :| 0 <= j < |starts0| && starts0[j] <= t < starts0[j] + botRuntimeMax;
          assert starts[j] == starts0[j];
        }
      }
    }
  }

  lemma SortedSuffix(s: seq<TimeInt>, k: int)
    requires SortedByStart(s) && 0 <= k <= |s|
    ensures SortedByStart(s[k..])
  {
    forall i, j | 0 <= i < j < |s[k..]|
      ensures s[k..][i].start <= s[k..][j].start
    {
      assert s[k..][i] == s[k + i] && s[k..][j] == s[k + j];
    }
  }

  /** What the invariant says once the sweep has passed tEndMax. */
  lemma SweepEnds(intervals: seq<TimeInt>, order: seq<TimeInt>, pos: int, taken: seq<int>,
                  starts: seq<int>, running: seq<bool>, nBots: int, botActive: bool, botStart: int,
                  tEndMax: int, botRuntimeMax: int)
    requires SortedByStart(order) && multiset(order) == multiset(intervals) && |order| == |intervals|
    requires SweepInv(order, pos, taken, starts, running, nBots, botActive, botStart, tEndMax + 1,
                      botRuntimeMax)
    ensures nBots == |starts| && 0 <= nBots <= tEndMax
    ensures forall j :: 0 <= j < |starts| ==> 1 <= starts[j] <= tEndMax
    ensures forall j, k :: 0 <= j < k < |starts| ==> starts[j] < starts[k]
    ensures forall j, k :: 0 <= j < k < |starts| ==> starts[k] - starts[j] >= botRuntimeMax
    ensures forall j :: 0 <= j < |starts| ==> CoveredBy(order[..pos], starts[j])
    ensures 1 <= pos <= |intervals|
    ensures SortedByStart(order[..pos])
    ensures multiset(order[..pos]) <= multiset(intervals)
    ensures |taken| == pos && taken[0] == 0
    ensures forall k, l :: 0 <= k < l < |taken| ==> taken[k] < taken[l]
    ensures forall k :: 0 <= k < |taken| ==> taken[k] <= tEndMax
    ensures forall k :: 0 < k < |taken| ==> order[..pos][k - 1].end <= taken[k]
    ensures |running| == tEndMax
    ensures forall j :: 0 <= j < |starts| ==> running[starts[j] - 1]
    ensures botRuntimeMax >= 1 ==>
              forall t :: 1 <= t <= tEndMax && running[t - 1] ==> RunningAt(starts, t, botRuntimeMax)
  {
    SortedPrefix(order, pos);
    MultisetPrefix(order, pos);
    CoveredPrefix(order, pos, starts);
    forall j | 0 <= j < |starts|
      ensures starts[j] <= tEndMax
    {
      if j < |starts| - 1 {
        assert starts[j] < starts[|starts| - 1];
      }
    }
    forall k | 0 <= k < |taken|
      ensures taken[k] <= tEndMax
    {
      if k < |taken| - 1 {
        assert taken[k] < taken[|taken| - 1];
      }
    }
  }

  /** The state before the first step. */
  lemma SweepStarts(order: seq<TimeInt>, botRuntimeMax: int)
    requires |order| >= 1
    ensures SweepInv(order, 1, [0], [], [], 0, false, 1, 1, botRuntimeMax)
  {
  }

  lemma SortedPrefix(s: seq<TimeInt>, k: int)
    requires SortedByStart(s) && 0 <= k <= |s|
    ensures SortedByStart(s[..k])
  {
  }

  lemma MultisetPrefix(s: seq<TimeInt>, k: int)
    requires 0 <= k <= |s|
    ensures multiset(s[..k]) <= multiset(s)
  {
    assert s == s[..k] + s[k..];
  }

  lemma CoveredPrefix(order: seq<TimeInt>, pos: int, starts: seq<int>)
    requires 0 <= pos <= |order|
    requires forall j :: 0 <= j < |starts| ==> CoveredUpTo(order, pos, starts[j])
    ensures forall j :: 0 <= j < |starts| ==> CoveredBy(order[..pos], starts[j])
  {
    forall j | 0 <= j < |starts|
      ensures CoveredBy(order[..pos], starts[j])
    {
      var k :| 0 <= k < pos && k < |order| && order[k].start <= starts[j] < order[k].end;
      assert order[..pos][k] == order[k];
    }
  }

  // ---------------------------------------------------------------------
  // The touching intervals the sweep misses, and a corrected sweep

  /** The bot starts are increasing and at least botRuntimeMax apart. */
  predicate Spaced(starts: seq<int>, botRuntimeMax: int)
  {
    forall j, k :: 0 <= j < k < |starts| ==> starts[j] < starts[k] && starts[k] - starts[j] >= botRuntimeMax
  }

  /** Bots started at the times in bots harvest every unit t >= 1 that lies
      inside an interval of vs. */
  ghost predicate Covers(bots: seq<int>, vs: seq<TimeInt>, botRuntimeMax: int)
  {
    forall t :: 1 <= t && CoveredBy(vs, t) ==> RunningAt(bots, t, botRuntimeMax)
  }

  /** No bot can harvest two of a set of units botRuntimeMax apart, so
      covering them takes at least as many bots as there are units. */
  lemma {:induction false} FewestBots(starts: seq<int>, bots: seq<int>, botRuntimeMax: int)
    requires Spaced(starts, botRuntimeMax)
    requires forall j :: 0 <= j < |starts| ==> RunningAt(bots, starts[j], botRuntimeMax)
    ensures |starts| <= |bots|
  {
    if starts != [] {
      var n := |starts| - 1;
      var last := starts[n];
      var m :| 0 <= m < |bots| && bots[m] <= last < bots[m] + botRuntimeMax;
      var rest := bots[..m] + bots[m + 1..];
      var prev := starts[..n];
      forall j | 0 <= j < |prev|
        ensures RunningAt(rest, prev[j], botRuntimeMax)
      {
        assert prev[j] == starts[j];
        var l :| 0 <= l < |bots| && bots[l] <= starts[j] < bots[l] + botRuntimeMax;
        assert starts[j] < bots[m] by {
          assert last - starts[j] >= botRuntimeMax;
        }
        if l < m {
          assert rest[l] == bots[l];
        } else {
          assert rest[l - 1] == bots[l];
        }
      }
      FewestBots(prev, rest, botRuntimeMax);
    }
  }

  /** An interval of one sequence lies in any sequence with the same
      elements. */
  lemma CoveredBySameElements(a: seq<TimeInt>, b: seq<TimeInt>, t: int)
    requires multiset(a) == multiset(b)
    ensures CoveredBy(a, t) <==> CoveredBy(b, t)
  {
    if CoveredBy(a, t) {
      var k :| 0 <= k < |a| && a[k].start <= t < a[k].end;
      assert a[k] in multiset(b);
      var m :| 0 <= m < |b| && b[m] == a[k];
    }
    if CoveredBy(b, t) {
      var k :| 0 <= k < |b| && b[k].start <= t < b[k].end;
      assert b[k] in multiset(a);
      var m :| 0 <= m < |a| && a[m] == b[k];
    }
  }

  /** The touching intervals [1, 2) and [2, 3) with botRuntimeMax = 1: the
      source's step starts a bot at time 1, and at time 2 it moves on to
      [2, 3) without looking at it, so it counts one bot where two are
      needed (TouchingIntervalsCorrected). */
  method TouchingIntervalsAsWritten() returns (nBots: int)
    ensures nBots == 1
  {
    var a, b := TimeInt(1, 2), TimeInt(2, 3);
    var q := new StartQueue();
    q.Push(a);
    q.Push(b);
    ghost var order := q.items;
    assert order == [a, b];
    var nextTi := q.Top();
    q.Pop();
    nBots := TouchingSteps(q, order, nextTi);
  }

  /** The source's three steps over [1, 2) and [2, 3), the first interval
      taken as current. */
  method TouchingSteps(q: StartQueue, ghost order: seq<TimeInt>, nextTi: TimeInt) returns (nBots: int)
    requires order == [TimeInt(1, 2), TimeInt(2, 3)]
    requires q.Valid() && q.items == order[1..] && nextTi == order[0]
    modifies q
    ensures nBots == 1
  {
    SweepStarts(order, 1);
    var nextTi, active, start := nextTi, false, 1;
    nBots := 0;
    ghost var pos, taken, starts, running := 1, [0], [], [];
    nextTi, nBots, active, start, pos, taken, starts, running :=
      Tick(q, order, 1, 1, nextTi, nBots, active, start, pos, taken, starts, running);
    nextTi, nBots, active, start, pos, taken, starts, running :=
      Tick(q, order, 2, 1, nextTi, nBots, active, start, pos, taken, starts, running);
    nextTi, nBots, active, start, pos, taken, starts, running :=
      Tick(q, order, 3, 1, nextTi, nBots, active, start, pos, taken, starts, running);
  }

  /** The corrected sweep counts two bots for [1, 2) and [2, 3) with
      botRuntimeMax = 1. */
  method TouchingIntervalsCorrected() returns (nBots: int)
    ensures nBots == 2
  {
    var a, b := TimeInt(1, 2), TimeInt(2, 3);
    ghost var bots;
    nBots, bots := CountBotsCorrected([a, b], 1);
    TouchingUnits([a, b]);
    assert nBots <= |[1, 2]|;
    TouchingNeedsTwo([a, b], bots);
  }

  /** Any bots that harvest [1, 2) and [2, 3) with runtime 1 are at least
      two. */
  lemma TouchingNeedsTwo(ivs: seq<TimeInt>, bots: seq<int>)
    requires ivs == [TimeInt(1, 2), TimeInt(2, 3)]
    requires Covers(bots, ivs, 1)
    ensures |bots| >= 2
  {
    TouchingUnits(ivs);
    assert RunningAt(bots, 1, 1) && RunningAt(bots, 2, 1);
    FewestBots([1, 2], bots, 1);
  }

  /** [1, 2) and [2, 3) hold the units 1 and 2, and bots started at 1 and 2
      with runtime 1 harvest them. */
  lemma TouchingUnits(ivs: seq<TimeInt>)
    requires ivs == [TimeInt(1, 2), TimeInt(2, 3)]
    ensures CoveredBy(ivs, 1) && CoveredBy(ivs, 2)
    ensures Covers([1, 2], ivs, 1)
  {
    assert ivs[0].start <= 1 < ivs[0].end && ivs[1].start <= 2 < ivs[1].end;
    forall t | 1 <= t && CoveredBy(ivs, t)
      ensures RunningAt([1, 2], t, 1)
    {
      assert [1, 2][t - 1] == t;
    }
  }

  /** The fewest bots that harvest every unit of every interval: the
      returned count is that of a set of starts that covers every unit, and
      no set of starts that covers every unit is smaller. */
  method CountBotsCorrected(intervals: seq<TimeInt>, botRuntimeMax: int)
    returns (nBots: int, ghost starts: seq<int>)
    requires |intervals| >= 1
    ensures nBots == |starts| && Spaced(starts, botRuntimeMax)
    ensures forall j :: 0 <= j < |starts| ==> 1 <= starts[j] && CoveredBy(intervals, starts[j])
    ensures botRuntimeMax >= 1 ==> Covers(starts, intervals, botRuntimeMax)
    ensures forall bots :: Covers(bots, intervals, botRuntimeMax) ==> nBots <= |bots|
  {
    var tis, tEndMax := CollectIntervals(intervals);
    forall k | 0 <= k < |tis.items|
      ensures tis.items[k].end <= tEndMax
    {
      assert tis.items[k] in multiset(intervals);
    }
    ghost var order;
    nBots, order, starts := SweepCorrected(tis, tEndMax, botRuntimeMax);
    forall t | CoveredBy(order, t) || CoveredBy(intervals, t)
      ensures CoveredBy(order, t) <==> CoveredBy(intervals, t)
    {
      CoveredBySameElements(order, intervals, t);
    }
    forall bots | Covers(bots, intervals, botRuntimeMax)
      ensures nBots <= |bots|
    {
      FewestBots(starts, bots, botRuntimeMax);
    }
  }

  /** The sweep with the missed case handled: at each time i it first moves
      past every interval that has ended by i, and only then tests whether
      the current interval needs a bot. */
  method SweepCorrected(tis: StartQueue, tEndMax: int, botRuntimeMax: int)
    returns (nBots: int, ghost order: seq<TimeInt>, ghost starts: seq<int>)
    requires tis.Valid() && tis.items != [] && tEndMax >= 1
    requires forall k :: 0 <= k < |tis.items| ==> tis.items[k].end <= tEndMax
    modifies tis
    ensures order == old(tis.items)
    ensures nBots == |starts| && Spaced(starts, botRuntimeMax)
    ensures forall j :: 0 <= j < |starts| ==> 1 <= starts[j] && CoveredBy(order, starts[j])
    ensures botRuntimeMax >= 1 ==> Covers(starts, order, botRuntimeMax)
  {
    var active := false;
    var start := 1;
    nBots := 0;
    starts := [];
    order := tis.items;
    var cur := tis.Top();
    tis.Pop();
    ghost var pos := 1;
    var i := 1;
    while i <= tEndMax
      invariant 1 <= i <= tEndMax + 1
      invariant SortedByStart(order) && forall k :: 0 <= k < |order| ==> order[k].end <= tEndMax
      invariant tis.Valid() && 1 <= pos <= |order| && tis.items == order[pos..] && cur == order[pos - 1]
      invariant CorrectedInv(order, pos, starts, nBots, active, start, i, botRuntimeMax)
    {
      cur, nBots, active, start, pos, starts :=
        TickCorrected(tis, order, i, botRuntimeMax, cur, nBots, active, start, pos, starts);
      i := i + 1;
    }
    CorrectedEnds(order, pos, starts, nBots, active, start, tEndMax, botRuntimeMax);
  }

  /** One step i of the corrected sweep: retire an expired bot, move past
      every interval that has ended, then start a bot if the current
      interval covers i and none is running. */
  method TickCorrected(tis: StartQueue, ghost order: seq<TimeInt>, i: int, botRuntimeMax: int,
                       cur: TimeInt, nBots: int, active: bool, start: int, ghost pos: int,
                       ghost starts: seq<int>)
    returns (cur': TimeInt, nBots': int, active': bool, start': int, ghost pos': int,
             ghost starts': seq<int>)
    requires SortedByStart(order) && i >= 1
    requires tis.Valid() && 1 <= pos <= |order| && tis.items == order[pos..] && cur == order[pos - 1]
    requires CorrectedInv(order, pos, starts, nBots, active, start, i, botRuntimeMax)
    modifies tis
    ensures tis.Valid() && 1 <= pos' <= |order| && tis.items == order[pos'..] && cur' == order[pos' - 1]
    ensures CorrectedInv(order, pos', starts', nBots', active', start', i + 1, botRuntimeMax)
  {
    var still := active && i - start < botRuntimeMax;
    cur', pos' := Advance(tis, order, i, cur, pos);
    if cur'.start <= i < cur'.end && !still {
      CorrectedStart(order, pos, pos', starts, nBots, active, start, i, botRuntimeMax, still);
      active', start', nBots' := true, i, nBots + 1;
      starts' := starts + [i];
    } else {
      CorrectedIdle(order, pos, pos', starts, nBots, active, start, i, botRuntimeMax, still);
      active', start', nBots' := still, start, nBots;
      starts' := starts;
    }
  }

  /** Once the corrected sweep has passed tEndMax, every unit of every
      interval is behind it. */
  lemma CorrectedEnds(order: seq<TimeInt>, pos: int, starts: seq<int>, nBots: int, active: bool,
                      start: int, tEndMax: int, botRuntimeMax: int)
    requires forall k :: 0 <= k < |order| ==> order[k].end <= tEndMax
    requires CorrectedInv(order, pos, starts, nBots, active, start, tEndMax + 1, botRuntimeMax)
    ensures nBots == |starts| && Spaced(starts, botRuntimeMax)
    ensures forall j :: 0 <= j < |starts| ==> 1 <= starts[j] && CoveredBy(order, starts[j])
    ensures botRuntimeMax >= 1 ==> Covers(starts, order, botRuntimeMax)
  {
    forall t | 1 <= t && CoveredBy(order, t)
      ensures t < tEndMax + 1
    {
      var k :| 0 <= k < |order| && order[k].start <= t < order[k].end;
    }
  }

  /** Takes from the queue every interval that has ended by time i, until
      the current one has not, or the queue is empty. */
  method Advance(tis: StartQueue, ghost order: seq<TimeInt>, i: int, cur: TimeInt, ghost pos: int)
    returns (cur': TimeInt, ghost pos': int)
    requires tis.Valid() && 1 <= pos <= |order| && tis.items == order[pos..] && cur == order[pos - 1]
    requires forall k :: 0 <= k < pos - 1 ==> order[k].end <= i
    modifies tis
    ensures tis.Valid() && pos <= pos' <= |order| && tis.items == order[pos'..] && cur' == order[pos' - 1]
    ensures forall k :: 0 <= k < pos' - 1 ==> order[k].end <= i
    ensures i < cur'.end || tis.items == []
  {
    cur', pos' := cur, pos;
    while i >= cur'.end && tis.items != []
      invariant tis.Valid() && pos <= pos' <= |order| && tis.items == order[pos'..] && cur' == order[pos' - 1]
      invariant forall k :: 0 <= k < pos' - 1 ==> order[k].end <= i
      decreases |tis.items|
    {
      DropOne(order, pos');
      cur' := tis.Top();
      tis.Pop();
      pos' := pos' + 1;
    }
  }

  /** What the corrected sweep keeps true at the start of step i: the
      intervals left behind ended before i, the starts so far are spaced and
      inside intervals, the last start is the running bot's, and every unit
      before i that needs harvesting was harvested. */
  ghost predicate CorrectedInv(order: seq<TimeInt>, pos: int, starts: seq<int>, nBots: int,
                               active: bool, start: int, i: int, botRuntimeMax: int)
  {
    && 1 <= pos <= |order|
    && (forall k :: 0 <= k < pos - 1 ==> order[k].end < i)
    && Spaced(starts, botRuntimeMax)
    && (forall j :: 0 <= j < |starts| ==> 1 <= starts[j] < i && CoveredBy(order, starts[j]))
    && nBots == |starts|
    && (|starts| > 0 ==> start == starts[|starts| - 1])
    && (active ==> |starts| > 0)
    && (!active && |starts| > 0 ==> i - start >= botRuntimeMax)
    && (botRuntimeMax >= 1 ==>
          forall t :: 1 <= t < i && CoveredBy(order, t) ==> RunningAt(starts, t, botRuntimeMax))
  }

  lemma RunningAtExtend(starts: seq<int>, t: int, botRuntimeMax: int, i: int)
    requires RunningAt(starts, t, botRuntimeMax)
    ensures RunningAt(starts + [i], t, botRuntimeMax)
  {
    var j :| 0 <= j < |starts| && starts[j] <= t < starts[j] + botRuntimeMax;
    assert (starts + [i])[j] == starts[j];
  }

  /** Step i of the corrected sweep starts a bot in the current interval. */
  lemma CorrectedStart(order: seq<TimeInt>, pos: int, pos': int, starts: seq<int>, nBots: int,
                       active: bool, start: int, i: int, botRuntimeMax: int, still: bool)
    requires CorrectedInv(order, pos, starts, nBots, active, start, i, botRuntimeMax) && i >= 1
    requires pos <= pos' <= |order| && forall k :: 0 <= k < pos' - 1 ==> order[k].end <= i
    requires order[pos' - 1].start <= i < order[pos' - 1].end
    requires still == (active && i - start < botRuntimeMax) && !still
    ensures CorrectedInv(order, pos', starts + [i], nBots + 1, true, i, i + 1, botRuntimeMax)
  {
    var s := starts + [i];
    assert CoveredBy(order, i);
    forall j | 0 <= j < |s|
      ensures 1 <= s[j] < i + 1 && CoveredBy(order, s[j])
    {
      if j < |starts| {
        assert s[j] == starts[j];
      }
    }
    forall j, k | 0 <= j < k < |s|
      ensures s[j] < s[k] && s[k] - s[j] >= botRuntimeMax
    {
      assert s[j] == starts[j];
      if k < |starts| {
        assert s[k] == starts[k];
      } else if j < |starts| - 1 {
        assert starts[j] < starts[|starts| - 1];
      }
    }
    if botRuntimeMax >= 1 {
      forall t | 1 <= t < i + 1 && CoveredBy(order, t)
        ensures RunningAt(s, t, botRuntimeMax)
      {
        if t == i {
          assert s[|starts|] == i;
        } else {
          RunningAtExtend(starts, t, botRuntimeMax, i);
        }
      }
    }
  }

  /** Step i of the corrected sweep starts no bot: either the running bot
      still harvests i, or no interval contains i. */
  lemma CorrectedIdle(order: seq<TimeInt>, pos: int, pos': int, starts: seq<int>, nBots: int,
                      active: bool, start: int, i: int, botRuntimeMax: int, still: bool)
    requires CorrectedInv(order, pos, starts, nBots, active, start, i, botRuntimeMax)
    requires SortedByStart(order)
    requires pos <= pos' <= |order| && forall k :: 0 <= k < pos' - 1 ==> order[k].end <= i
    requires i < order[pos' - 1].end || pos' == |order|
    requires still == (active && i - start < botRuntimeMax)
    requires !(order[pos' - 1].start <= i < order[pos' - 1].end && !still)
    ensures CorrectedInv(order, pos', starts, nBots, still, start, i + 1, botRuntimeMax)
  {
    if botRuntimeMax >= 1 && CoveredBy(order, i) {
      if still {
        assert starts[|starts| - 1] <= i < starts[|starts| - 1] + botRuntimeMax;
      }
    }
  }
}
