/** Exact integer square root by binary search over [bottom, top): `Some(g)`
    when a is the square g*g, `None` otherwise. */
module IntegerSqrt {
  import opened Wrappers
  import opened IntMath

  /** Largest value of the source's 64-bit signed integers. */
  const I64Max: int := 0x7fff_ffff_ffff_ffff

  /** a is the square of the non-negative integer r. */
  predicate IsSquareOf(a: int, r: int)
  {
    r >= 0 && r * r == a
  }

  /** The binary search. Every guess lies below a + 1, so the bound on a keeps
      guess * guess (and a + 1) inside the range of i64. Throughout the loop,
      for a >= 0, bottom*bottom <= a < top*top, and top - bottom shrinks on
      every step that does not return. */
  method SqrtBinarySearch(a: int) returns (result: Option<int>)
    requires a <= 3_037_000_499
    ensures result.Some? ==> IsSquareOf(a, result.value)
    ensures result.None? ==> forall r :: 0 <= r ==> r * r != a
  {
    var bottom := 0;
    var top := a + 1;
    while true
      invariant a >= 0 ==> 0 <= bottom < top <= a + 1
      invariant a >= 0 ==> bottom * bottom <= a < top * top
      invariant a < 0 ==> bottom == 0 && top == a + 1
      decreases top - bottom
    {
      // Rust's `/` truncates toward zero; the sum is negative only for a < 0.
      var sum := top + bottom;
      var guess := if sum >= 0 then sum / 2 else -((-sum) / 2);
      var guessSquared := guess * guess;
      if a >= 0 {
        assert guessSquared <= I64Max by {
          SquareMonotone(guess, 3_037_000_499);
        }
      }
      if guessSquared == a {
        return Some(guess);
      } else {
        if top - bottom <= 1 {
          if a >= 0 {
            NoSquareBetween(a, bottom);
          } else {
            NegativeIsNoSquare(a);
          }
          return None;
        } else if guessSquared < a {
          bottom := guess;
        } else if guessSquared > a {
          top := guess;
        }
      }
    }
  }

  /** A value strictly between two consecutive squares is no square. */
  lemma NoSquareBetween(a: int, b: int)
    requires 0 <= b && b * b <= a < (b + 1) * (b + 1) && b * b != a
    ensures forall r :: 0 <= r ==> r * r != a
  {
    forall r | 0 <= r
      ensures r * r != a
    {
      if r <= b {
        SquareMonotone(r, b);
      } else {
        SquareMonotone(b + 1, r);
      }
    }
  }

  lemma NegativeIsNoSquare(a: int)
    requires a < 0
    ensures forall r :: 0 <= r ==> r * r != a
  {
    forall r | 0 <= r
      ensures r * r != a
    {
      MulMonotone(0, r, r);
    }
  }

  /** Every perfect square r*r is found with its root r. */
  method SquareIsFound(r: int) returns (result: Option<int>)
    requires 0 <= r <= 55_108
    ensures result == Some(r)
  {
    SquareMonotone(r, 55_108);
    result := SqrtBinarySearch(r * r);
    RootUnique(r * r, result.value, r);
  }

  lemma RootUnique(a: int, g: int, r: int)
    requires IsSquareOf(a, g) && IsSquareOf(a, r)
    ensures g == r
  {
    if g < r {
      SquareMonotone(g + 1, r);
    } else if r < g {
      SquareMonotone(r + 1, g);
    }
  }

  /** The benchmarked input 20 is no square. */
  method TwentyIsNoSquare() returns (result: Option<int>)
    ensures result == None
  {
    result := SqrtBinarySearch(20);
    if result.Some? {
      var g := result.value;
      if g <= 4 {
        SquareMonotone(g, 4);
      } else {
        SquareMonotone(5, g);
      }
    }
  }
}
