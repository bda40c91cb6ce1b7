/** Robot path: evaluate a move program such as `2(N3(E))`, where N, S, E, W
    move one step, a digit 2..9 sets the multiplier of the following groups,
    and a parenthesised group repeats its body. The final displacement is
    wrapped onto the torus of columns and rows 1..10^9. */
module RobotPath {
  import opened IntMath

  /** Side of the torus. */
  const Max: int := 1_000_000_000

  datatype Delta = Delta(dx: int, dy: int)

  /** What one evaluation returns: the summed displacement and the index at
      which the scan stopped. */
  datatype ExpResult = ExpResult(dx: int, dy: int, pExp: int)

  /** The direction table (the source's `Shit`): rows grow to the south,
      columns to the east; every other character does not move. */
  function Step(c: char): Delta
  {
    match c
    case 'S' => Delta(0, 1)
    case 'N' => Delta(0, -1)
    case 'E' => Delta(1, 0)
    case 'W' => Delta(-1, 0)
    case _ => Delta(0, 0)
  }

  /** The source's `Mod` for b > 0: a representative of a modulo b in
      [0, b]; it is b, not 0, for the negative multiples of b. */
  function Mod(a: int, b: int): int
    requires b > 0
  {
    if a > 0 then a % b
    else if a < 0 then b - (-a) % b
    else 0
  }

  /** `Mod` returns a representative of a modulo b in [0, b]; it is b exactly
      for the negative multiples of b. */
  lemma ModSpec(a: int, b: int)
    requires b > 0
    ensures 0 <= Mod(a, b) <= b
    ensures (Mod(a, b) - a) % b == 0
    ensures Mod(a, b) == b <==> a < 0 && a % b == 0
  {
    if a > 0 {
      ModOfPositive(a, b, a % b);
    } else if a < 0 {
      ModOfNegative(a, b, b - (-a) % b);
    }
  }

  lemma ModOfPositive(a: int, b: int, r: int)
    requires a > 0 && b > 0 && r == a % b
    ensures 0 <= r < b
    ensures (r - a) % b == 0
  {
    DivMod(a, b);
    assert r - a == (-(a / b)) * b;
    MultipleMod(-(a / b), b);
  }

  lemma ModOfNegative(a: int, b: int, r: int)
    requires a < 0 && b > 0 && r == b - (-a) % b
    ensures 0 <= r <= b
    ensures (r - a) % b == 0
    ensures r == b <==> a < 0 && a % b == 0
  {
    var q, m := (-a) / b, (-a) % b;
    DivMod(-a, b);
    assert r - a == (q + 1) * b;
    MultipleMod(q + 1, b);
    if m == 0 {
      assert a == (-q) * b;
      MultipleMod(-q, b);
    } else {
      assert a == (-q - 1) * b + r;
      DivModUnique(a, b, -q - 1, r);
    }
  }

  /** The state after the scan of one nesting level: the while loop of `Exp`
      from index i with multiplier n and the displacement summed so far. */
  function ScanFrom(prog: string, i: nat, n: int, dx: int, dy: int): (r: ExpResult)
    ensures r.pExp >= i
    ensures r.pExp < |prog| ==> prog[r.pExp] == ')'
    decreases |prog| - i, 0
  {
    if i >= |prog| then ExpResult(dx, dy, i)
    else if prog[i] == '(' then
      var sub := Evaluate(prog, i + 1);
      ScanFrom(prog, sub.pExp + 1, n, dx + sub.dx * n, dy + sub.dy * n)
    else if prog[i] == ')' then ExpResult(dx, dy, i)
    else if '2' <= prog[i] <= '9' then ScanFrom(prog, i + 1, prog[i] as int - '0' as int, dx, dy)
    else
      var d := Step(prog[i]);
      ScanFrom(prog, i + 1, n, dx + d.dx, dy + d.dy)
  }

  /** The value `Exp(prog, p)` returns through its out-parameters. */
  function Evaluate(prog: string, p: nat): (r: ExpResult)
    requires p <= |prog|
    ensures r.pExp >= p
    ensures r.pExp < |prog| ==> prog[r.pExp] == ')'
    decreases |prog| - p, 1
  {
    ScanFrom(prog, p, 1, 0, 0)
  }

  /** The recursive-descent evaluator: a while loop over the characters from
      p, recursing on '(' and returning at the first unmatched ')'. */
  method Exp(prog: string, p: nat) returns (dx: int, dy: int, pExp: int)
    requires p <= |prog|
    ensures ExpResult(dx, dy, pExp) == Evaluate(prog, p)
    ensures p <= pExp
    ensures pExp < |prog| ==> prog[pExp] == ')'
    decreases |prog| - p
  {
    dx, dy := 0, 0;
    var n := 1;
    var i := p;
    while i < |prog|
      invariant p <= i
      invariant ScanFrom(prog, i, n, dx, dy) == Evaluate(prog, p)
      decreases |prog| - i
    {
      var c := prog[i];
      if c == '(' {
        var ddx, ddy, subP := Exp(prog, i + 1);
        dx := dx + ddx * n;
        dy := dy + ddy * n;
        i := subP + 1;
      } else if c == ')' {
        pExp := i;
        return;
      } else {
        if '2' <= c <= '9' {
          n := c as int - '0' as int;
        } else {
          var d := Step(c);
          dx := dx + d.dx;
          dy := dy + d.dy;
        }
        i := i + 1;
      }
    }
    pExp := i;
  }

  /** One test case: evaluate the whole program from the start cell (1, 1)
      and wrap the result onto 1..10^9 (10^9 + 1 for a negative multiple of
      10^9, as `Mod` returns b there). */
  method RunProgram(prog: string) returns (x: int, y: int)
    ensures 1 <= x <= Max + 1 && 1 <= y <= Max + 1
    ensures (x - 1 - Evaluate(prog, 0).dx) % Max == 0
    ensures (y - 1 - Evaluate(prog, 0).dy) % Max == 0
    ensures x == Max + 1 <==> Evaluate(prog, 0).dx < 0 && Evaluate(prog, 0).dx % Max == 0
    ensures y == Max + 1 <==> Evaluate(prog, 0).dy < 0 && Evaluate(prog, 0).dy % Max == 0
  {
    var dx, dy, pExp := Exp(prog, 0);
    x := 1;
    y := 1;
    ModSpec(x + dx - 1, Max);
    ModSpec(y + dy - 1, Max);
    x := Mod(x + dx - 1, Max) + 1;
    y := Mod(y + dy - 1, Max) + 1;
  }

  /** The wrap the output format asks for: the column and row within
      1..10^9 that the displacement reaches from (1, 1). */
  method CorrectedRunProgram(prog: string) returns (x: int, y: int)
    ensures 1 <= x <= Max && 1 <= y <= Max
    ensures (x - 1 - Evaluate(prog, 0).dx) % Max == 0
    ensures (y - 1 - Evaluate(prog, 0).dy) % Max == 0
  {
    var dx, dy, pExp := Exp(prog, 0);
    WrapSpec(dx);
    WrapSpec(dy);
    x := dx % Max + 1;
    y := dy % Max + 1;
  }

  /** The Euclidean remainder differs from a by a multiple of Max. */
  lemma WrapSpec(a: int)
    ensures (a % Max - a) % Max == 0
  {
    DivMod(a, Max);
    assert a % Max - a == (-(a / Max)) * Max;
    MultipleMod(-(a / Max), Max);
  }

  /** Two cells of 1..10^9 on the same torus class are the same cell, so
      the corrected wrap is the only answer in range. */
  lemma WrapUnique(x: int, x': int, d: int)
    requires 1 <= x <= Max && 1 <= x' <= Max
    requires (x - 1 - d) % Max == 0 && (x' - 1 - d) % Max == 0
    ensures x == x'
  {
    DivMod(x - 1 - d, Max);
    DivMod(x' - 1 - d, Max);
    var k, k' := (x - 1 - d) / Max, (x' - 1 - d) / Max;
    assert x - x' == (k - k') * Max;
    if k - k' >= 1 {
      MulMonotone(1, k - k', Max);
    } else if k - k' <= -1 {
      MulMonotone(k - k', -1, Max);
    }
  }

  /** The direction table: the four letters move one cell, N and S
      opposite, E and W opposite; no other character moves. */
  lemma StepTable(c: char)
    ensures c == 'N' || c == 'S' ==> Step(c).dx == 0 && Step(c).dy * Step(c).dy == 1
    ensures c == 'E' || c == 'W' ==> Step(c).dy == 0 && Step(c).dx * Step(c).dx == 1
    ensures Step('N').dy == -Step('S').dy && Step('E').dx == -Step('W').dx
    ensures c !in "NSEW" ==> Step(c) == Delta(0, 0)
  {
  }

  // ---------------------------------------------------------------------
  // An independent meaning for well-formed programs

  /** A program as a tree: a move letter, a multiplier digit, or a group. */
  datatype Term = Letter(c: char) | Digit(d: char) | Group(body: seq<Term>)

  predicate IsDigit(c: char)
  {
    '2' <= c <= '9'
  }

  predicate WellFormed(ts: seq<Term>)
    decreases ts, 1
  {
    forall k :: 0 <= k < |ts| ==> WellFormedTerm(ts[k])
  }

  predicate WellFormedTerm(t: Term)
    decreases t, 0
  {
    match t
    case Letter(c) => c != '(' && c != ')' && !IsDigit(c)
    case Digit(d) => IsDigit(d)
    case Group(body) => WellFormed(body)
  }

  /** The text of a program. */
  function Print(ts: seq<Term>): string
    decreases ts, 1
  {
    if ts == [] then "" else PrintTerm(ts[0]) + Print(ts[1..])
  }

  function PrintTerm(t: Term): string
    decreases t, 0
  {
    match t
    case Letter(c) => [c]
    case Digit(d) => [d]
    case Group(body) => "(" + Print(body) + ")"
  }

  /** The displacement of a program, with n the current multiplier: a group
      moves n times its body, a digit changes the multiplier of what follows
      in the same group. */
  function Meaning(ts: seq<Term>, n: int): Delta
    decreases ts
  {
    if ts == [] then Delta(0, 0)
    else
      var rest := Meaning(ts[1..], n);
      match ts[0]
      case Letter(c) => Delta(Step(c).dx + rest.dx, Step(c).dy + rest.dy)
      case Digit(d) => Meaning(ts[1..], d as int - '0' as int)
      case Group(body) =>
        var inner := Meaning(body, 1);
        Delta(inner.dx * n + rest.dx, inner.dy * n + rest.dy)
  }

  /** The text s occurs in prog at index i. */
  predicate TextAt(prog: string, i: nat, s: string)
  {
    i + |s| <= |prog| && forall k :: 0 <= k < |s| ==> prog[i + k] == s[k]
  }

  /** The text of ts occurs in prog at index i and is followed by the end of
      prog or by a ')'. */
  predicate PrintedAt(prog: string, i: nat, ts: seq<Term>)
  {
    var s := Print(ts);
    TextAt(prog, i, s) && (i + |s| == |prog| || prog[i + |s|] == ')')
  }

  lemma TextAtConcat(prog: string, i: nat, s: string, t: string)
    requires TextAt(prog, i, s + t)
    ensures TextAt(prog, i, s) && TextAt(prog, i + |s|, t)
  {
    forall k | 0 <= k < |s| ensures prog[i + k] == s[k] {
      assert (s + t)[k] == s[k];
    }
    forall k | 0 <= k < |t| ensures prog[i + |s| + k] == t[k] {
      assert (s + t)[|s| + k] == t[k];
    }
  }

  lemma WellFormedTail(ts: seq<Term>)
    requires ts != [] && WellFormed(ts)
    ensures WellFormedTerm(ts[0]) && WellFormed(ts[1..])
  {
    forall k | 0 <= k < |ts| - 1 ensures WellFormedTerm(ts[1..][k]) {
      assert ts[1..][k] == ts[k + 1];
    }
  }

  /** The first term of a printed program is printed at i, the rest right
      after it. */
  lemma PrintedSplit(prog: string, i: nat, ts: seq<Term>)
    requires ts != [] && WellFormed(ts) && PrintedAt(prog, i, ts)
    ensures WellFormedTerm(ts[0]) && WellFormed(ts[1..])
    ensures TextAt(prog, i, PrintTerm(ts[0]))
    ensures PrintedAt(prog, i + |PrintTerm(ts[0])|, ts[1..])
  {
    assert Print(ts) == PrintTerm(ts[0]) + Print(ts[1..]);
    TextAtConcat(prog, i, PrintTerm(ts[0]), Print(ts[1..]));
    WellFormedTail(ts);
  }

  /** A printed group opens with '(' at i and its body is printed at i + 1,
      followed by the closing ')'. */
  lemma PrintedGroup(prog: string, i: nat, body: seq<Term>)
    requires TextAt(prog, i, PrintTerm(Group(body)))
    ensures i < |prog| && prog[i] == '('
    ensures PrintedAt(prog, i + 1, body)
  {
    var inner := Print(body);
    TextAtConcat(prog, i, "(" + inner, ")");
    TextAtConcat(prog, i, "(", inner);
    assert prog[i + 0] == "("[0];
    assert prog[i + 1 + |inner| + 0] == ")"[0];
  }

  /** A printed letter or digit c sits at i. */
  lemma PrintedChar(prog: string, i: nat, c: char)
    requires TextAt(prog, i, [c])
    ensures i < |prog| && prog[i] == c
  {
    assert prog[i + 0] == [c][0];
  }

  /** Evaluating the text of a well-formed program computes its meaning and
      stops right after it. */
  lemma {:induction false} ScanComputesMeaning(prog: string, i: nat, ts: seq<Term>, n: int, dx: int, dy: int)
    requires WellFormed(ts) && PrintedAt(prog, i, ts)
    ensures ScanFrom(prog, i, n, dx, dy) ==
            ExpResult(dx + Meaning(ts, n).dx, dy + Meaning(ts, n).dy, i + |Print(ts)|)
    decreases ts, 1
  {
    if ts != [] {
      PrintedSplit(prog, i, ts);
      match ts[0]
      case Letter(c) => LetterCase(prog, i, ts, n, dx, dy);
      case Digit(d) => DigitCase(prog, i, ts, n, dx, dy);
      case Group(body) => GroupCase(prog, i, ts, body, n, dx, dy);
    }
  }

  lemma {:induction false} LetterCase(prog: string, i: nat, ts: seq<Term>, n: int, dx: int, dy: int)
    requires ts != [] && ts[0].Letter? && WellFormedTerm(ts[0]) && WellFormed(ts[1..])
    requires TextAt(prog, i, PrintTerm(ts[0])) && PrintedAt(prog, i + 1, ts[1..])
    ensures ScanFrom(prog, i, n, dx, dy) ==
            ExpResult(dx + Meaning(ts, n).dx, dy + Meaning(ts, n).dy, i + |Print(ts)|)
    decreases ts, 0
  {
    var c := ts[0].c;
    PrintedChar(prog, i, c);
    ScanComputesMeaning(prog, i + 1, ts[1..], n, dx + Step(c).dx, dy + Step(c).dy);
    LetterStep(prog, i, ts, n, dx, dy);
  }

  lemma {:induction false} DigitCase(prog: string, i: nat, ts: seq<Term>, n: int, dx: int, dy: int)
    requires ts != [] && ts[0].Digit? && WellFormedTerm(ts[0]) && WellFormed(ts[1..])
    requires TextAt(prog, i, PrintTerm(ts[0])) && PrintedAt(prog, i + 1, ts[1..])
    ensures ScanFrom(prog, i, n, dx, dy) ==
            ExpResult(dx + Meaning(ts, n).dx, dy + Meaning(ts, n).dy, i + |Print(ts)|)
    decreases ts, 0
  {
    var d := ts[0].d;
    PrintedChar(prog, i, d);
    ScanComputesMeaning(prog, i + 1, ts[1..], d as int - '0' as int, dx, dy);
    DigitStep(prog, i, ts, n, dx, dy);
  }

  lemma {:induction false} GroupCase(prog: string, i: nat, ts: seq<Term>, body: seq<Term>, n: int, dx: int, dy: int)
    requires ts != [] && ts[0] == Group(body) && WellFormed(body) && WellFormed(ts[1..])
    requires TextAt(prog, i, PrintTerm(ts[0]))
    requires PrintedAt(prog, i + |Print(body)| + 2, ts[1..])
    ensures ScanFrom(prog, i, n, dx, dy) ==
            ExpResult(dx + Meaning(ts, n).dx, dy + Meaning(ts, n).dy, i + |Print(ts)|)
    decreases ts, 0
  {
    var j := i + |Print(body)| + 2;
    PrintedGroup(prog, i, body);
    ScanComputesMeaning(prog, i + 1, body, 1, 0, 0);
    var inner, after := Meaning(body, 1), Meaning(ts[1..], n);
    ScanComputesMeaning(prog, j, ts[1..], n, dx + inner.dx * n, dy + inner.dy * n);
    GroupStep(prog, i, ts, body, n, dx, dy, inner, after, j);
  }

  /** One scan step over a letter, given the scan of the rest. */
  lemma LetterStep(prog: string, i: nat, ts: seq<Term>, n: int, dx: int, dy: int)
    requires ts != [] && ts[0].Letter? && WellFormedTerm(ts[0])
    requires i < |prog| && prog[i] == ts[0].c
    requires ScanFrom(prog, i + 1, n, dx + Step(ts[0].c).dx, dy + Step(ts[0].c).dy) ==
             ExpResult(dx + Step(ts[0].c).dx + Meaning(ts[1..], n).dx,
                       dy + Step(ts[0].c).dy + Meaning(ts[1..], n).dy, i + 1 + |Print(ts[1..])|)
    ensures ScanFrom(prog, i, n, dx, dy) ==
            ExpResult(dx + Meaning(ts, n).dx, dy + Meaning(ts, n).dy, i + |Print(ts)|)
  {
    assert Print(ts) == [ts[0].c] + Print(ts[1..]);
  }

  /** One scan step over a digit, given the scan of the rest. */
  lemma DigitStep(prog: string, i: nat, ts: seq<Term>, n: int, dx: int, dy: int)
    requires ts != [] && ts[0].Digit? && WellFormedTerm(ts[0])
    requires i < |prog| && prog[i] == ts[0].d
    requires ScanFrom(prog, i + 1, ts[0].d as int - '0' as int, dx, dy) ==
             ExpResult(dx + Meaning(ts[1..], ts[0].d as int - '0' as int).dx,
                       dy + Meaning(ts[1..], ts[0].d as int - '0' as int).dy, i + 1 + |Print(ts[1..])|)
    ensures ScanFrom(prog, i, n, dx, dy) ==
            ExpResult(dx + Meaning(ts, n).dx, dy + Meaning(ts, n).dy, i + |Print(ts)|)
  {
    assert Print(ts) == [ts[0].d] + Print(ts[1..]);
  }

  /** One scan step over a group: the body's result scaled by n, then the
      scan of the rest after the closing parenthesis at j - 1. */
  lemma GroupStep(prog: string, i: nat, ts: seq<Term>, body: seq<Term>, n: int, dx: int, dy: int,
                  inner: Delta, after: Delta, j: nat)
    requires ts != [] && ts[0] == Group(body)
    requires i < |prog| && prog[i] == '('
    requires inner == Meaning(body, 1) && after == Meaning(ts[1..], n)
    requires j == i + |Print(body)| + 2
    requires ScanFrom(prog, i + 1, 1, 0, 0) == ExpResult(inner.dx, inner.dy, j - 1)
    requires ScanFrom(prog, j, n, dx + inner.dx * n, dy + inner.dy * n) ==
             ExpResult(dx + inner.dx * n + after.dx, dy + inner.dy * n + after.dy, j + |Print(ts[1..])|)
    ensures ScanFrom(prog, i, n, dx, dy) ==
            ExpResult(dx + Meaning(ts, n).dx, dy + Meaning(ts, n).dy, i + |Print(ts)|)
  {
    assert Print(ts) == PrintTerm(ts[0]) + Print(ts[1..]);
    assert Meaning(ts, n) == Delta(inner.dx * n + after.dx, inner.dy * n + after.dy);
    assert Evaluate(prog, i + 1) == ScanFrom(prog, i + 1, 1, 0, 0);
  }

  /** The top-level statement: `Exp(prog, 0)` on the text of a well-formed
      program returns its meaning and stops at the end of the text. */
  lemma EvaluateComputesMeaning(ts: seq<Term>)
    requires WellFormed(ts)
    ensures Evaluate(Print(ts), 0) ==
            ExpResult(Meaning(ts, 1).dx, Meaning(ts, 1).dy, |Print(ts)|)
  {
    var prog := Print(ts);
    ScanComputesMeaning(prog, 0, ts, 1, 0, 0);
  }

  /** Sum of the steps of the characters of s. */
  function StepSum(s: string): Delta
  {
    if s == [] then Delta(0, 0)
    else Delta(Step(s[0]).dx + StepSum(s[1..]).dx, Step(s[0]).dy + StepSum(s[1..]).dy)
  }

  /** Without parentheses the evaluator sums the steps and reaches the end. */
  lemma {:induction false} ScanWithoutGroups(prog: string, i: nat, n: int, dx: int, dy: int)
    requires i <= |prog|
    requires forall k :: i <= k < |prog| ==> prog[k] != '(' && prog[k] != ')'
    ensures ScanFrom(prog, i, n, dx, dy) ==
            ExpResult(dx + StepSum(prog[i..]).dx, dy + StepSum(prog[i..]).dy, |prog|)
    decreases |prog| - i
  {
    if i < |prog| {
      assert prog[i..][1..] == prog[i + 1..];
      var c := prog[i];
      if IsDigit(c) {
        assert Step(c) == Delta(0, 0);
        ScanWithoutGroups(prog, i + 1, c as int - '0' as int, dx, dy);
      } else {
        ScanWithoutGroups(prog, i + 1, n, dx + Step(c).dx, dy + Step(c).dy);
      }
    }
  }

  lemma EvaluateWithoutGroups(prog: string, p: nat)
    requires p <= |prog|
    requires forall k :: p <= k < |prog| ==> prog[k] != '(' && prog[k] != ')'
    ensures Evaluate(prog, p) == ExpResult(StepSum(prog[p..]).dx, StepSum(prog[p..]).dy, |prog|)
  {
    ScanWithoutGroups(prog, p, 1, 0, 0);
  }

  /** A digit is not reset by a group: in 2(E)(E) both groups move twice. */
  lemma MultiplierPersists()
    ensures Evaluate("2(E)(E)", 0) == ExpResult(4, 0, 7)
  {
    var prog := "2(E)(E)";
    assert ScanFrom(prog, 3, 1, 1, 0) == ExpResult(1, 0, 3);
    assert Evaluate(prog, 2) == ExpResult(1, 0, 3);
    assert ScanFrom(prog, 6, 1, 1, 0) == ExpResult(1, 0, 6);
    assert Evaluate(prog, 5) == ExpResult(1, 0, 6);
    assert ScanFrom(prog, 4, 2, 2, 0) == ExpResult(4, 0, 7);
    assert ScanFrom(prog, 1, 2, 0, 0) == ExpResult(4, 0, 7);
  }

  /** The example 2(N3(E)) moves 6 columns east and 2 rows north. */
  lemma NestedExample()
    ensures Evaluate("2(N3(E))", 0) == ExpResult(6, -2, 8)
  {
    var prog := "2(N3(E))";
    assert Evaluate(prog, 5) == ExpResult(1, 0, 6);
    assert ScanFrom(prog, 4, 3, 0, -1) == ExpResult(3, -1, 7);
    assert Evaluate(prog, 2) == ExpResult(3, -1, 7);
    assert ScanFrom(prog, 1, 2, 0, 0) == ExpResult(6, -2, 8);
  }

  function Pow(b: int, k: nat): int
  {
    if k == 0 then 1 else b * Pow(b, k - 1)
  }

  /** k nested groups d(d(...(inner)...)). */
  function Nest(k: nat, d: char, inner: seq<Term>): seq<Term>
  {
    if k == 0 then inner else [Digit(d), Group(Nest(k - 1, d, inner))]
  }

  lemma {:induction false} NestWellFormed(k: nat, d: char, inner: seq<Term>)
    requires IsDigit(d) && WellFormed(inner)
    ensures WellFormed(Nest(k, d, inner))
  {
    if k > 0 {
      NestWellFormed(k - 1, d, inner);
      var ts := Nest(k, d, inner);
      assert WellFormedTerm(ts[0]) && WellFormedTerm(ts[1]);
    }
  }

  /** d(body) moves d times body. */
  lemma GroupUnderDigit(d: char, body: seq<Term>)
    ensures Meaning([Digit(d), Group(body)], 1) ==
            Delta(Meaning(body, 1).dx * (d as int - '0' as int), Meaning(body, 1).dy * (d as int - '0' as int))
  {
    var ts, v := [Digit(d), Group(body)], d as int - '0' as int;
    assert ts[1..] == [Group(body)];
    assert [Group(body)][1..] == [];
    assert Meaning([Group(body)], v) == Delta(Meaning(body, 1).dx * v, Meaning(body, 1).dy * v);
    assert Meaning(ts, 1) == Meaning([Group(body)], v);
  }

  /** Nesting k groups under the digit d multiplies the move by d^k. */
  lemma {:induction false} NestMeaning(k: nat, d: char, inner: seq<Term>)
    ensures Meaning(Nest(k, d, inner), 1) ==
            Delta(Pow(d as int - '0' as int, k) * Meaning(inner, 1).dx,
                  Pow(d as int - '0' as int, k) * Meaning(inner, 1).dy)
  {
    if k > 0 {
      var v := d as int - '0' as int;
      var body := Nest(k - 1, d, inner);
      NestMeaning(k - 1, d, inner);
      GroupUnderDigit(d, body);
      var p, m := Pow(v, k - 1), Meaning(inner, 1);
      assert Pow(v, k) == v * p;
      Reassociate(p, m.dx, v);
      Reassociate(p, m.dy, v);
    }
  }

  lemma Reassociate(p: int, a: int, v: int)
    ensures (p * a) * v == (v * p) * a
  {
  }

  lemma Negate(a: int, b: int)
    ensures a * -b == -(a * b)
  {
  }

  lemma PowValues()
    ensures Pow(2, 9) * Pow(5, 9) == Max
  {
  }

  /** k groups under 2 around k groups under 5 around W: for k = 9 a
      program that moves exactly 10^9 columns west. */
  function WestBy(k: nat): seq<Term>
  {
    Nest(k, '2', Nest(k, '5', [Letter('W')]))
  }

  lemma WestByMoves(k: nat)
    requires k == 9
    ensures WellFormed(WestBy(k))
    ensures Evaluate(Print(WestBy(k)), 0).dx == -Max
    ensures Evaluate(Print(WestBy(k)), 0).dy == 0
  {
    var w := [Letter('W')];
    assert WellFormed(w) by {
      assert WellFormedTerm(w[0]);
    }
    assert Meaning(w, 1) == Delta(-1, 0);
    NestWellFormed(k, '5', w);
    NestWellFormed(k, '2', Nest(k, '5', w));
    NestMeaning(k, '5', w);
    NestMeaning(k, '2', Nest(k, '5', w));
    var a, b := Pow(2, k), Pow(5, k);
    assert a * b == Max by {
      PowValues();
    }
    assert Meaning(Nest(k, '5', w), 1) == Delta(-b, 0);
    assert Meaning(WestBy(k), 1) == Delta(a * -b, 0);
    Negate(a, b);
    EvaluateComputesMeaning(WestBy(k));
  }

  /** `RunProgram` prints column 10^9 + 1, outside the torus, for a program
      that moves 10^9 columns west; the corrected wrap prints column 1. */
  method WestByMaxAsWritten() returns (x: int, y: int, x': int, y': int)
    ensures x == Max + 1 && y == 1
    ensures x' == 1 && y' == 1
  {
    var k := 9;
    WestByMoves(k);
    var prog := Print(WestBy(k));
    x, y := RunProgram(prog);
    x', y' := CorrectedRunProgram(prog);
    MultipleMod(-1, Max);
    WrapUnique(x', 1, -Max);
    WrapUnique(y', 1, 0);
    WrapUnique(y, 1, 0);
  }

  /** An unclosed '(' makes the scan stop past the end of the text: "(" gives
      p_exp == 2. Balanced input never does (EvaluateComputesMeaning). */
  lemma UnclosedGroupOvershoots()
    ensures Evaluate("(", 0).pExp == 2
  {
    assert Evaluate("(", 1) == ExpResult(0, 0, 1);
  }
}
