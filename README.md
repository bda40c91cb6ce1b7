# Kick Start 2020 solutions, modelled in Dafny

This project models the algorithmic core of a set of solutions to Google Kick
Start 2020 problems. The solutions are written in C#, Rust and C++. There is
one Dafny module per solution. Each module keeps the solution's own form:

- a loop becomes a method with invariants, proved against a specification
  function;
- an object whose fields change becomes a class;
- pure helpers become functions and lemmas.

The modules are:

- `BikeTour` counts peaks among checkpoint heights.
- `BusRoutes` finds the latest day to start a chain of bus routes that must
  finish by day D.
- `RobotPath` evaluates a nested move program on a 10^9 x 10^9 torus.
- `Countdown` counts the occurrences of k, k-1, ..., 1.
- `PerfectSubarray` counts subarrays whose sum is a perfect square. It uses a
  prefix-sum table, the `PartialSums` class.
- `IntegerSqrt` is the benchmarked binary-search square root.
- `StableWall` places the polyominoes of a wall. It is the `Wall` class.
- `LongestArithmetic` finds the longest arithmetic run.
- `HighBuildings` builds a row of heights with a visible from the left, b from
  the right and c from both.
- `AtmQueue` gives the order in which people leave an ATM queue.
- `MetalHarvest` counts the harvesting bots over intervals kept in a min
  priority queue, the `StartQueue` class.
- `PaintersDuel` is the triangular-building game state, the `State` class,
  with its geometry and its successor expansion.

Two support modules are shared:

- `Wrappers` provides `Option`.
- `IntMath` provides product and remainder facts and the floor and ceiling
  integer square roots.

The integer square roots stand in for the floating-point `sqrt` calls of
painters_duel and perfect_subarray.

Choices made in the model:

- Integers are unbounded. Only `IntegerSqrt.SqrtBinarySearch` has a
  precondition that keeps its input small enough for the 64-bit square in
  the source; elsewhere overflow is not modelled (see Left out).
- Reading input and printing results are left out. Each solution's values
  arrive as parameters.
- C#'s truncating `%` is written out as `BusRoutes.CsRem`.
- The `Mod` of robot_path is modelled branch by branch, including its result b
  for negative multiples of b.

Where the code and the problem's description disagree, the model follows the
code:

- `RobotPath.Exp` on a program with an unclosed `(` returns an end index past
  the end of the text.
- `CountCountdowns` never counts for k = 1.
- `State.CanMove(TBertha)` starts from room 1, not from Bertha's room. The
  code uses the enumerator's value there.
- `HighBuildings.Calc` rejects some solvable inputs, the metal_harvest
  sweep misses an interval that starts where the previous one ends, and
  robot_path can print column or row 10^9 + 1. These are recorded under
  Findings, each with a corrected member.

## Model

| member | source | states |
|---|---|---|
| BikeTour.CountPeaks | 2020/b/bike_tour/Program.cs:25-32 | the count is the number of interior indices higher than both neighbours, at most n-2 and at most n/2 |
| BikeTour.PeaksNotAdjacent | 2020/b/bike_tour/Program.cs:29 | a peak's neighbours are not peaks |
| BikeTour.PeaksBelowIsSetSize | 2020/b/bike_tour/Program.cs:25-32 | the running counter equals the size of the set of peak indices seen so far |
| BikeTour.PeaksBelowRange | 2020/b/bike_tour/Program.cs:26 | only indices 1..n-2 can count, so the counter is at most n-2 |
| BikeTour.PeaksNotAdjacentBound | 2020/b/bike_tour/Program.cs:25-32 | at most every second index is a peak |
| BusRoutes.CsRem | 2020/b/bus_routes/Program.cs:32 | the truncating remainder has the sign of the dividend and is smaller than the divisor in magnitude |
| BusRoutes.LatestStart | 2020/b/bus_routes/Program.cs:28-33 | the backward loop computes the rounded-down chain, and for D >= 0 and positive periods the result is a valid first day no plan can beat |
| BusRoutes.RoundDownIsLargestMultiple | 2020/b/bus_routes/Program.cs:32 | `di - di % x` is the largest multiple of x that is at most di |
| BusRoutes.RoundedDaysArePlan | 2020/b/bus_routes/Program.cs:28-33 | the rounded days form a plan: each is a multiple of its route's period, non-decreasing, and no later than D |
| BusRoutes.RoundedNonNegative | 2020/b/bus_routes/Program.cs:28-33 | every intermediate di (`RoundedFrom`) stays within 0..D |
| BusRoutes.PlanNoLaterThanRounded | 2020/b/bus_routes/Program.cs:28-33 | any plan takes each route no later than the greedy day |
| BusRoutes.LatestStartIsOptimal | 2020/b/bus_routes/Program.cs:28-35 | no plan starts later than the answer |
| RobotPath.ModSpec | 2020/b/robot_path/Program.cs:33-43 | `Mod(a, b)` is congruent to a modulo b and lies in 0..b; it equals b exactly for negative multiples of b |
| RobotPath.ModOfPositive | 2020/b/robot_path/Program.cs:35-36 | the positive branch lies in 0..b-1 and is congruent to a |
| RobotPath.ModOfNegative | 2020/b/robot_path/Program.cs:37-38 | the negative branch lies in 1..b, is congruent to a, and is b exactly when b divides a |
| RobotPath.StepTable | 2020/b/robot_path/Program.cs:9-31 | `Step`: N and S move one row in opposite directions, E and W one column; other characters do not move |
| RobotPath.ScanFrom | 2020/b/robot_path/Program.cs:56-91 | the scan never moves backwards, and when it stops inside the text it stops on `)` |
| RobotPath.Evaluate | 2020/b/robot_path/Program.cs:48-92 | the end index is at least p, and inside the text it points at `)` |
| RobotPath.Exp | 2020/b/robot_path/Program.cs:48-92 | the recursive loop returns the displacement and end index that Evaluate defines |
| RobotPath.RunProgram | 2020/b/robot_path/Program.cs:103-105 | the final cell lies in 1..10^9+1 in both axes, is congruent to the start cell plus the displacement, and is 10^9+1 exactly when the displacement is a negative multiple of 10^9 |
| RobotPath.CorrectedRunProgram | 2020/b/robot_path/Program.cs:103-105 | the corrected wrap lies in 1..10^9 in both axes and is congruent to the start cell plus the displacement |
| RobotPath.WrapUnique | 2020/b/robot_path/Program.cs:103-105 | one cell of 1..10^9 per residue, so the corrected wrap is the only answer |
| RobotPath.WestByMaxAsWritten | 2020/b/robot_path/Program.cs:103-105 | for a program moving 10^9 west the source prints column 10^9+1; the corrected wrap prints 1 |
| RobotPath.WestByMoves | 2020/b/robot_path/Program.cs:48-92 | nine groups under 2 around nine groups under 5 around W move exactly 10^9 west |
| RobotPath.NestMeaning | 2020/b/robot_path/Program.cs:61-77 | k nested groups under the digit d multiply the inner move by d^k |
| RobotPath.ScanComputesMeaning | 2020/b/robot_path/Program.cs:9-92 | scanning the text of a well-formed program adds its tree meaning: moves, multipliers that persist, and groups scaled by the current multiplier |
| RobotPath.LetterCase | 2020/b/robot_path/Program.cs:75-86 | a move letter adds its step |
| RobotPath.DigitCase | 2020/b/robot_path/Program.cs:76-77 | a digit replaces the multiplier |
| RobotPath.GroupCase | 2020/b/robot_path/Program.cs:61-71 | a group adds its body's displacement times the multiplier and resumes after its `)` |
| RobotPath.EvaluateComputesMeaning | 2020/b/robot_path/Program.cs:48-92 | on a well-formed program the evaluator returns its meaning and reaches the end of the text |
| RobotPath.ScanWithoutGroups | 2020/b/robot_path/Program.cs:56-91 | text without parentheses gives the sum of its letters' steps and reaches the end |
| RobotPath.EvaluateWithoutGroups | 2020/b/robot_path/Program.cs:48-92 | the same for the evaluator started at p |
| RobotPath.MultiplierPersists | 2020/b/robot_path/Program.cs:76-77 | in `2(E)(E)` a digit scales both later groups: (4, 0), end 7 |
| RobotPath.NestedExample | 2020/b/robot_path/Program.cs:48-92 | `2(N3(E))` moves 6 east and 2 north |
| RobotPath.UnclosedGroupOvershoots | 2020/b/robot_path/Program.cs:65-70 | for `(` the end index is 2, past the end of the text |
| Countdown.StepsDownTo | 2020/c/countdown/src/main.rs:55-63 | the length of the run of decrements by one ending at j is between 1 and j+1 |
| Countdown.CountCountdowns | 2020/c/countdown/src/main.rs:44-67 | for k >= 2 the loop counts exactly the positions where a countdown of length k ends; for k < 2 it counts none |
| Countdown.StepsDownToSpec | 2020/c/countdown/src/main.rs:55-63 | the run ending at j is at least m long exactly when the m-1 steps before j all go down by one |
| Countdown.CountdownIffSteps | 2020/c/countdown/src/main.rs:51-67 | a countdown ends at j exactly when a[j] is 1 and the run of decrements ending at j is at least k long |
| Countdown.DescentValue | 2020/c/countdown/src/main.rs:56-58 | along a run of decrements ending in 1, the value t places into the run is k-t |
| PerfectSubarray.GetMinMaxPartialSum | 2020/c/perfect_subarray/src/main.rs:43-54 | the result bounds every non-empty prefix sum and both bounds are attained |
| PerfectSubarray.GenerateSquares | 2020/c/perfect_subarray/src/main.rs:90-102 | the list holds the squares 0, 1, 4, ..., c*c in increasing order, for c the ceiling root of the bound, so the last square reaches the bound |
| PerfectSubarray.PartialSums.constructor | 2020/c/perfect_subarray/src/main.rs:56-66 | a zeroed table whose slots cover every prefix sum, with the largest on the last slot and the most negative, if any, on slot 0 |
| PerfectSubarray.AtCountsPrefixes | 2020/c/perfect_subarray/src/main.rs:68-78 | on a table that tallies the first k prefix sums, reading sum v through `real_index` gives the number of those prefixes equal to v |
| PerfectSubarray.PartialSums.IndexMut | 2020/c/perfect_subarray/src/main.rs:80-88 | gives the slot of the sum, growing the table with zeros when needed and keeping the old entries |
| PerfectSubarray.CountSquares | 2020/c/perfect_subarray/src/main.rs:104-122 | the early-stopping scan computes CountFrom; for ascending squares and offset >= 0 it equals the count over all squares |
| PerfectSubarray.CountSquaresInSubarrays | 2020/c/perfect_subarray/src/main.rs:124-142 | for strictly increasing squares the result is the number of pairs j < k with P(k) - P(j) a square |
| PerfectSubarray.BreakSkipsNothing | 2020/c/perfect_subarray/src/main.rs:113-115 | for ascending squares the `break` drops no subarray |
| PerfectSubarray.BelowTable | 2020/c/perfect_subarray/src/main.rs:113-115 | once a difference falls below the table, all later ones count nothing |
| PerfectSubarray.TableCount | 2020/c/perfect_subarray/src/main.rs:104-122 | a table of the earlier prefixes counts exactly the subarrays ending at k |
| PerfectSubarray.EnterPrefix | 2020/c/perfect_subarray/src/main.rs:138 | adding one to the slot of P(k) keeps the table equal to the prefix tally |
| PerfectSubarray.PerfectCountsSubarrays | 2020/c/perfect_subarray/src/main.rs:124-142 | with no square listed twice, the count per square equals the subarray count |
| PerfectSubarray.EndingAtCloses | 2020/c/perfect_subarray/src/main.rs:104-122 | the count at k is the number of earlier prefixes that close a square |
| PerfectSubarray.AllNegativeCountsNothing | 2020/c/perfect_subarray/src/main.rs:212-223 | a list of negative numbers has no subarray with a square sum |
| PerfectSubarray.NegativePrefixesFall | 2020/c/perfect_subarray/src/main.rs:129-134 | with negative elements every prefix sum is below the earlier ones |
| PerfectSubarray.MinMaxExamples | 2020/c/perfect_subarray/src/main.rs:171-190 | the three prefix-sum ranges are (1, 15), (-9, 6) and (-6, -1) |
| PerfectSubarray.ExampleZeros | 2020/c/perfect_subarray/src/main.rs:260-261 | [0, 0, 0] has 6 perfect subarrays |
| PerfectSubarray.ExampleMixed | 2020/c/perfect_subarray/src/main.rs:247-248 | [4, 0, 0, 16] has 9 perfect subarrays |
| IntegerSqrt.SqrtBinarySearch | 2020/c/perfect_subarray/benches/integer_sqrt.rs:3-21 | a returned root squares to a; None means a is no square |
| IntegerSqrt.NoSquareBetween | 2020/c/perfect_subarray/benches/integer_sqrt.rs:12-13 | a value strictly between consecutive squares is no square |
| IntegerSqrt.NegativeIsNoSquare | 2020/c/perfect_subarray/benches/integer_sqrt.rs:3-21 | a negative value is no square |
| IntegerSqrt.SquareIsFound | 2020/c/perfect_subarray/benches/integer_sqrt.rs:3-21 | every square r*r is found with root r |
| IntegerSqrt.RootUnique | 2020/c/perfect_subarray/benches/integer_sqrt.rs:9-10 | the non-negative root is unique |
| IntegerSqrt.TwentyIsNoSquare | 2020/c/perfect_subarray/benches/integer_sqrt.rs:24-26 | the benchmarked input 20 gives None |
| IntMath.FloorSqrt | 2020/f/painters_duel/main.cpp:52 | r*r <= n < (r+1)*(r+1) |
| IntMath.FloorSqrtUnique | 2020/f/painters_duel/main.cpp:52 | the floor root is the only such r |
| IntMath.CeilSqrt | 2020/c/perfect_subarray/src/main.rs:92 | the smallest r with m <= r*r |
| StableWall.Wall.constructor | 2020/c/stable_wall/src/main.rs:45-52 | an empty wall with no letters, none placed and none unplaced |
| StableWall.Wall.AddRow | 2020/c/stable_wall/src/main.rs:54-59 | appends the row and adds exactly its letters |
| StableWall.Wall.IsSupportedAtRow | 2020/c/stable_wall/src/main.rs:61-75 | true when every cell of the letter in the row rests on itself or on a placed letter |
| StableWall.Wall.IsSupported | 2020/c/stable_wall/src/main.rs:77-85 | true when the letter is supported in every row above the last |
| StableWall.Wall.FindSupported | 2020/c/stable_wall/src/main.rs:87-95 | gives some unplaced supported letter, or None when no unplaced letter is supported |
| StableWall.Wall.PlacementOrder | 2020/c/stable_wall/src/main.rs:97-119 | a returned order places every letter once, each on support; None exactly when no such order exists |
| StableWall.LettersAppend | 2020/c/stable_wall/src/main.rs:54-59 | a new row adds exactly its letters to the wall |
| StableWall.SupportMonotone | 2020/c/stable_wall/src/main.rs:61-85 | placing more letters never takes support away |
| StableWall.BottomRowNeedsNoSupport | 2020/c/stable_wall/src/main.rs:78 | a letter only in the last row is always supported |
| StableWall.PlaceStep | 2020/c/stable_wall/src/main.rs:112-116 | placing a supported letter moves exactly that letter and keeps the order stable |
| StableWall.StuckMeansNoOrder | 2020/c/stable_wall/src/main.rs:105-110 | when no unplaced letter is supported, no stable order exists |
| StableWall.SolveCase | 2020/c/stable_wall/src/main.rs:131-143 | the order printed for a wall is stable, and -1 is printed exactly when none exists |
| HighBuildings.HiddenIsInvisible | 2020/e/high_buildings/src/main.rs:36-43 | in every answer row, `Hidden` gives the number of buildings seen from neither side |
| HighBuildings.Layout | 2020/e/high_buildings/src/main.rs:48-97 | the row of `HeightAt` values has n heights, each 1, n-1 or n |
| HighBuildings.Fill | 2020/e/high_buildings/src/main.rs:67-70 | the cursor loop writes v at count positions from start and leaves the rest alone |
| HighBuildings.Calc | 2020/e/high_buildings/src/main.rs:45-100 | None exactly on the inputs `calc` rejects; otherwise the row of the layout |
| HighBuildings.Range | 2020/e/high_buildings/src/main.rs:80-83 | the index set lo..hi-1 and its size |
| HighBuildings.LeftVisibleSet | 2020/e/high_buildings/src/main.rs:67-83 | from the left one sees the n-1 block and the c tallest |
| HighBuildings.RightVisibleSet | 2020/e/high_buildings/src/main.rs:80-97 | from the right one sees the c tallest and the n-1 block on the b side |
| HighBuildings.LayoutVisibility | 2020/e/high_buildings/src/main.rs:45-100 | an accepted row shows a buildings from the left, b from the right and c from both |
| HighBuildings.LayoutTallest | 2020/e/high_buildings/src/main.rs:80-83 | for n >= 2 exactly c buildings have the maximal height |
| HighBuildings.LayoutHeights | 2020/e/high_buildings/src/main.rs:48-97 | every accepted height is in 1..n |
| HighBuildings.CalcRejectsSolvableInput | 2020/e/high_buildings/src/main.rs:58-61 | n = 3, a = b = c = 2 is rejected although [3, 1, 3] is an answer |
| HighBuildings.CorrectedCalcSound | 2020/e/high_buildings/src/main.rs:45-100 | every row the corrected calc returns is an answer |
| HighBuildings.SplitTallestVisibility | 2020/e/high_buildings/src/main.rs:58-61 | for a = b = c >= 2 the tallest split around the hidden 1s is an answer |
| HighBuildings.CorrectedCalcComplete | 2020/e/high_buildings/src/main.rs:45-100 | whenever an answer exists the corrected calc returns a row |
| LongestArithmetic.RunEndingAt | 2020/e/longest_arithmetic/src/main.rs:56-62 | the run ending at i is between 2 and i long |
| LongestArithmetic.BestRunUpTo | 2020/e/longest_arithmetic/src/main.rs:47-59 | the best run is never below 2 |
| LongestArithmetic.LongestRun | 2020/e/longest_arithmetic/src/main.rs:44-69 | the answer is at least 2, bounds every arithmetic run, and for n >= 2 is the length of one |
| LongestArithmetic.RunEndingAtIsArithmetic | 2020/e/longest_arithmetic/src/main.rs:56-62 | the tracked suffix is arithmetic |
| LongestArithmetic.RunEndingAtIsLongest | 2020/e/longest_arithmetic/src/main.rs:56-62 | no arithmetic run ending at i is longer than the tracked one |
| LongestArithmetic.BestRunIsUpperBound | 2020/e/longest_arithmetic/src/main.rs:59 | the maximum bounds every arithmetic run seen so far |
| LongestArithmetic.BestRunIsAttained | 2020/e/longest_arithmetic/src/main.rs:59 | the maximum is the length of an actual run |
| AtmQueue.Rounds | 2020/f/atm_queue/main.cpp:31-42 | every person needs at least one visit |
| AtmQueue.RoundsIsCeiling | 2020/f/atm_queue/main.cpp:35-41 | for a positive amount the visits are the ceiling of amount over maximum |
| AtmQueue.LeaveOrder | 2020/f/atm_queue/main.cpp:21-42 | the leave order is a permutation of 1..n, sorted by (visits needed, id) |
| AtmQueue.PotentialAppend | 2020/f/atm_queue/main.cpp:40 | pushing a person back adds their remaining visits to the total owed |
| AtmQueue.InitialQueue | 2020/f/atm_queue/main.cpp:21-27 | the queue filled with ids 1..n satisfies the invariant |
| AtmQueue.LeaveStep | 2020/f/atm_queue/main.cpp:35-37 | letting the front leave keeps the invariant and lowers the visits owed |
| AtmQueue.FrontLeavesFirst | 2020/f/atm_queue/main.cpp:32-37 | a front person who can leave now leaves before everyone still queued |
| AtmQueue.LeaverInOrder | 2020/f/atm_queue/main.cpp:35-37 | the new leaver comes after the earlier ones in the (visits, id) order |
| AtmQueue.RequeueStep | 2020/f/atm_queue/main.cpp:38-41 | requeueing with the maximum subtracted keeps the invariant and lowers the visits owed |
| AtmQueue.RotateIds | 2020/f/atm_queue/main.cpp:32-40 | moving the front to the back keeps the ids |
| AtmQueue.RequeueOrdered | 2020/f/atm_queue/main.cpp:38-41 | the line stays ordered by (visits served, id) |
| MetalHarvest.OperatorsOrderByStart | 2020/f/metal_harvest/main.cpp:15-29 | the four operators agree with each other, form a total preorder and look at the start time alone |
| MetalHarvest.InsertMultiset | 2020/f/metal_harvest/main.cpp:51 | a push (`Insert`) adds exactly the interval |
| MetalHarvest.InsertSorted | 2020/f/metal_harvest/main.cpp:43 | a push keeps the queue in start order |
| MetalHarvest.InsertLatest | 2020/f/metal_harvest/main.cpp:51 | an interval starting no earlier than every queued one goes last |
| MetalHarvest.StartQueue.constructor | 2020/f/metal_harvest/main.cpp:43 | the queue starts empty |
| MetalHarvest.StartQueue.Push | 2020/f/metal_harvest/main.cpp:51 | the items gain exactly the interval, in start order |
| MetalHarvest.StartQueue.Top | 2020/f/metal_harvest/main.cpp:59 | the top is a queued interval with the smallest start |
| MetalHarvest.StartQueue.Pop | 2020/f/metal_harvest/main.cpp:60 | pop removes the top |
| MetalHarvest.HeapProto | 2020/f/metal_harvest/main.cpp:87-99 | the experiment pops the starts 4, 8, 13, 17 |
| MetalHarvest.Drain | 2020/f/metal_harvest/main.cpp:94-97 | popping to empty yields every queued start in non-decreasing order |
| MetalHarvest.CollectIntervals | 2020/f/metal_harvest/main.cpp:43-54 | the queue holds exactly the intervals, and tEndMax is the maximum of 1 and every end |
| MetalHarvest.CountBots | 2020/f/metal_harvest/main.cpp:43-79 | bot starts are increasing, at least the runtime apart and inside intervals; intervals are taken in start order; a running bot has run for less than the runtime; the count is never more than the fewest bots that harvest every unit |
| MetalHarvest.Sweep | 2020/f/metal_harvest/main.cpp:56-79 | after the time loop the sweep invariant holds at tEndMax + 1 over the queue's start order |
| MetalHarvest.Tick | 2020/f/metal_harvest/main.cpp:61-79 | one step retires an expired bot, starts one inside the current interval or moves on to the next interval |
| MetalHarvest.SweepEnds | 2020/f/metal_harvest/main.cpp:56-79 | at the end of the loop, the invariant gives the facts that CountBots promises |
| MetalHarvest.TouchingIntervalsAsWritten | 2020/f/metal_harvest/main.cpp:56-79 | for [1, 2) and [2, 3) with runtime 1 the source's steps count 1 bot |
| MetalHarvest.TouchingSteps | 2020/f/metal_harvest/main.cpp:61-79 | the three source steps over [1, 2) and [2, 3), the first taken, start one bot |
| MetalHarvest.TouchingIntervalsCorrected | 2020/f/metal_harvest/main.cpp:56-79 | the corrected sweep counts 2 bots for the same input |
| MetalHarvest.TouchingNeedsTwo | 2020/f/metal_harvest/main.cpp:56-79 | every set of bots harvesting [1, 2) and [2, 3) with runtime 1 has at least two |
| MetalHarvest.FewestBots | 2020/f/metal_harvest/main.cpp:56-79 | bots that harvest units spaced at least the runtime apart number at least as many as the units |
| MetalHarvest.CountBotsCorrected | 2020/f/metal_harvest/main.cpp:43-79 | the count is that of bot starts that harvest every unit of every interval, and no harvesting set of starts is smaller |
| MetalHarvest.SweepCorrected | 2020/f/metal_harvest/main.cpp:56-79 | the corrected loop's starts are spaced, lie inside intervals and harvest every unit |
| MetalHarvest.TickCorrected | 2020/f/metal_harvest/main.cpp:61-79 | one corrected step keeps the corrected invariant |
| MetalHarvest.CorrectedEnds | 2020/f/metal_harvest/main.cpp:61 | past tEndMax every unit of every interval has been harvested |
| MetalHarvest.Advance | 2020/f/metal_harvest/main.cpp:75-78 | takes every interval that has ended by i, until the current one has not or the queue is empty |
| MetalHarvest.CorrectedStart | 2020/f/metal_harvest/main.cpp:69-74 | starting a bot in the current interval keeps the corrected invariant |
| MetalHarvest.CorrectedIdle | 2020/f/metal_harvest/main.cpp:61-79 | a step without a start keeps the invariant: the running bot harvests i, or no interval contains i |
| MetalHarvest.CoveredBySameElements | 2020/f/metal_harvest/main.cpp:43-54 | the queue's order and the input list cover the same units |
| MetalHarvest.CoveredBySubset | 2020/f/metal_harvest/main.cpp:59-77 | a unit inside an interval taken from the queue lies inside an input interval |
| PaintersDuel.IsValid | 2020/f/painters_duel/main.cpp:72-82 | a room is valid exactly when it is in the triangle within the side, and its index is then in range |
| PaintersDuel.PaintableNeighbors | 2020/f/painters_duel/main.cpp:88-120 | at most three results, each an unpainted room in range |
| PaintersDuel.IndexPosRoundTrip | 2020/f/painters_duel/main.cpp:51-61 | `ToIndex(ToPos(i)) == i`, and `ToPos` lands in the triangle |
| PaintersDuel.PosIndexRoundTrip | 2020/f/painters_duel/main.cpp:51-61 | toPos(toIndex(p)) == p for a room in the triangle |
| PaintersDuel.ToPosInRow | 2020/f/painters_duel/main.cpp:51-56 | an index between m^2 and (m+1)^2 lies in row m+1 at column i - m^2 + 1 |
| PaintersDuel.PointsUpInRow | 2020/f/painters_duel/main.cpp:63-70 | pointsUp in row m+1, by the parity rule |
| PaintersDuel.IndexIsValid | 2020/f/painters_duel/main.cpp:72-82 | every index below side^2 maps to a valid room |
| PaintersDuel.PointsUpIffOddColumn | 2020/f/painters_duel/main.cpp:63-70 | a room points up exactly when its column is odd |
| PaintersDuel.AdjacentIffRooms | 2020/f/painters_duel/main.cpp:93-117 | index adjacency is left, right, or across the room's base |
| PaintersDuel.AdjacentSymmetric | 2020/f/painters_duel/main.cpp:93-117 | adjacency is symmetric |
| PaintersDuel.PaintableNeighborsSound | 2020/f/painters_duel/main.cpp:88-120 | every result is adjacent to i |
| PaintersDuel.PaintableNeighborsComplete | 2020/f/painters_duel/main.cpp:88-120 | every unpainted room adjacent to i is a result |
| PaintersDuel.PaintableNeighborsExact | 2020/f/painters_duel/main.cpp:72-120 | the results (the rooms passing `CanPaint`) are exactly the unpainted rooms adjacent to i |
| PaintersDuel.PaintedFacts | 2020/f/painters_duel/main.cpp:122-134 | `Painted`: painting colours room i for the mover, moves the mover there, changes the score by +1 or -1, flips the turn and leaves everything else |
| PaintersDuel.PaintKeepsScore | 2020/f/painters_duel/main.cpp:122-134 | painting an unpainted room keeps score = Alma's rooms - Bertha's rooms |
| PaintersDuel.InitialScore | 2020/f/painters_duel/main.cpp:41-49 | the initial state has score 0, matching one room of each painter |
| PaintersDuel.PaintedKeeps | 2020/f/painters_duel/main.cpp:122-134 | painting keeps the state's shape, flips the turn and keeps the score invariant |
| PaintersDuel.State.constructor | 2020/f/painters_duel/main.cpp:41-49 | all rooms unpainted except the two painters', score 0, Alma to move |
| PaintersDuel.State.Paint | 2020/f/painters_duel/main.cpp:122-134 | the new state is the painted one, and a valid state stays valid |
| PaintersDuel.State.Clone | 2020/f/painters_duel/main.cpp:148 | a fresh copy with the same state |
| PaintersDuel.State.Copy | 2020/f/painters_duel/main.cpp:148 | the copy constructor gives the same side and the same state |
| PaintersDuel.State.ExpandSuccs | 2020/f/painters_duel/main.cpp:136-164 | never empty: one painted successor per paintable neighbour, in order, or one pass; each flips the turn and keeps the score invariant |
| PaintersDuel.State.PaintEach | 2020/f/painters_duel/main.cpp:147-151 | one fresh successor per room, each painting that room |
| PaintersDuel.CanMoveIffFreeNeighbour | 2020/f/painters_duel/main.cpp:166-174 | `CanMove` is true exactly when some unpainted room is adjacent to the start room, which is room 1 for Bertha |
| PaintersDuel.GameFinishedIffStuck | 2020/f/painters_duel/main.cpp:176-178 | `GameFinished` is true exactly when no unpainted room is adjacent to Alma's room or to room 1 |
| PaintersDuel.NeighboursIffFree | 2020/f/painters_duel/main.cpp:88-120 | `paintable_neighbors` is non-empty exactly when an unpainted room is adjacent |
| PaintersDuel.CanMoveBerthaIgnoresIndex | 2020/f/painters_duel/main.cpp:166-174 | two states with the same rooms agree on whether Bertha can move, wherever Bertha stands |
| PaintersDuel.RoomElevenFacts | 2020/f/painters_duel/main.cpp:207-214 | for side 4, room 11 is (4, 3), the round trip returns 11, and (4, 3) is valid |
| PaintersDuel.RoomElevenOrientation | 2020/f/painters_duel/main.cpp:212-213 | room 11 points up and room 10 does not |
| PaintersDuel.RoomTwoNeighbors | 2020/f/painters_duel/main.cpp:184-192 | in the test position Alma's room 2 has the paintable neighbours [1, 3] |
| PaintersDuel.TestState | 2020/f/painters_duel/main.cpp:182-215 | two successors, each with Bertha to move and score 1; (4, 3) is paintable |
| PaintersDuel.ExpandOpening | 2020/f/painters_duel/main.cpp:192-202 | expanding the test position gives two successors with Bertha to move and score 1 |

## Left out

- Input parsing, the scanners and all printing are not modelled. Each
  solution's values are parameters and its answers are results.
- Fixed-width integers (C# `int`, Rust `i32`/`usize`, C++ `int`) are modelled
  as unbounded integers. Overflow and wrap-around are not modelled.
- RobotPath.RunProgram: states the range 1..10^9+1, not 1..10^9, because
  the source's wrap can reach 10^9+1 (see Findings).
- RobotPath.Exp: does not model the 32-bit overflow of `dx`/`dy` on deeply
  nested programs. The commented-out `Mod` calls inside the loop are not
  modelled.
- AtmQueue.LeaveOrder: requires maxAmt > 0. With a zero maximum the source
  loops forever, requeueing the same person.
- BusRoutes.LatestStart: requires every period to be non-zero. A zero
  period throws DivideByZeroException in the source.
- Countdown.CountCountdowns: requires at least one element. The source
  reads the first element before its loop.
- IntegerSqrt.SqrtBinarySearch: requires a <= 3_037_000_499, so that the
  64-bit `guess * guess` cannot overflow. Larger inputs are not modelled.
- The floating-point `sqrt` in painters_duel `toPos` and in
  generate_squares' capacity is replaced by exact integer square roots.
  f32 rounding for large bounds is not modelled.
- perfect_subarray: the `capacity` println is not modelled.
- PerfectSubarray.PartialSums.RealIndex: requires a non-negative slot. The
  `usize` cast of a negative value would wrap.
- PerfectSubarray.CountSquaresInSubarrays: requires non-negative squares,
  as generate_squares produces. Its result is characterised only for
  ascending squares (ascending or strictly increasing).
- PerfectSubarray.GetMinMaxPartialSum and PartialSums.constructor: require a
  non-empty list, since `xs[0]` panics on an empty one.
- StableWall.SolveCase: requires all rows to have the same width, as the
  input format promises. A ragged wall panics at an index in the source.
- StableWall.Wall.IsSupported: requires at least one row, since
  `data.len() - 1` underflows on an empty wall.
- StableWall.Wall.FindSupported: `HashSet` iteration order is unspecified.
  The model returns some supported unplaced letter, so the order produced is
  any stable order the greedy loop can reach.
- HighBuildings.Calc: requires c <= a and c <= b. Otherwise the `usize`
  subtractions at lines 55-56 underflow.
- high_buildings: the `check` function and the test code are not modelled.
- MetalHarvest.CountBots: states only that the count is at most the fewest
  bots, not equal to it, because on touching intervals it is smaller (see
  Findings). CountBotsCorrected states equality. CountBots requires at least one interval:
  `top()` on an empty queue at line 59 is undefined behaviour.
- MetalHarvest.Tick: the pop at line 76 on an exhausted queue is undefined
  behaviour, so it is guarded. When the queue is empty, the last interval
  stays current.
- MetalHarvest.Covers: counts only units from time 1 on, since the sweep
  starts at 1 and the problem's times are positive.
- MetalHarvest.StartQueue: the order among intervals with equal starts is
  not modelled. The binary heap's internal layout is not modelled.
- perfect_subarray `integer_sqrt.rs`: the Criterion harness and the timing
  of the benchmark are not modelled.
- painters_duel: `searchStates` and the printing in `testState` are not
  modelled.
- PaintersDuel.PaintableNeighborsExact: requires side >= 0.
  PaintableNeighborsComplete requires it too.
- PaintersDuel.State: the global `g_building_sides` is a field `side` of the
  state.
- PaintersDuel.CanMoveBerthaIgnoresIndex: the consequence of the line 171
  quirk is stated, but Dafny proves it without help.

## Findings

| source | as written | input that shows it | evidently intended | confidence | as-written member | corrected member |
|---|---|---|---|---|---|---|
| 2020/e/high_buildings/src/main.rs:58-61 | `calc` returns None whenever there are hidden buildings and no bookends (a = b = c) | n = 3, a = b = c = 2: the row [3, 1, 3] shows 2 buildings from each side and 2 from both, yet `calc` answers IMPOSSIBLE | when a = b = c >= 2, place the hidden 1s between two of the tallest buildings | not executed | HighBuildings.CalcRejectsSolvableInput | HighBuildings.CorrectedCalc |
| 2020/f/metal_harvest/main.cpp:69-78 | when i reaches the current interval's end the step only pops the next interval, without testing it | intervals [1, 2) and [2, 3), runtime 1: one bot is counted, but units 1 and 2 need two | drain every ended interval, then test the current one at the same step | not executed | MetalHarvest.TouchingIntervalsAsWritten | MetalHarvest.CountBotsCorrected |
| 2020/b/robot_path/Program.cs:37-38 | `Mod` returns b for a negative multiple of b, and the wrap at lines 104-105 adds 1 to it | a program moving 10^9 west, such as nine groups under 2 around nine groups under 5 around W: column 10^9 + 1 is printed | column and row in 1..10^9, here column 1 | not executed | RobotPath.WestByMaxAsWritten | RobotPath.CorrectedRunProgram |
