/**
 The match score of the Bitap matcher: the error count divided by the pattern
 length, plus the distance from the expected location divided by the text
 length. 0 is a perfect match; larger is worse, with no upper clamp.

 Swift's `Double` is idealised: finite values are exact reals (no rounding),
 and the non-finite values a division by zero produces are kept apart.
 */
module Score {

  /** An IEEE-754 double with exact finite values. */
  datatype Double = Finite(value: real) | PositiveInfinity | NegativeInfinity | NaN

  /** `Double(a) / Double(b)`: a division by zero gives an infinity, or NaN for 0 / 0. */
  function Divide(a: int, b: int): (r: Double)
    ensures r.Finite? <==> b != 0
    ensures r.Finite? ==> r.value * b as real == a as real
    ensures b == 0 ==> (r == NaN <==> a == 0) && (r == PositiveInfinity <==> a > 0)
  {
    if b != 0 then Finite(a as real / b as real)
    else if a > 0 then PositiveInfinity
    else if a < 0 then NegativeInfinity
    else NaN
  }

  /** `d + y` for a finite `y`: a non-finite `d` absorbs it. */
  function AddFinite(d: Double, y: real): (r: Double)
    ensures r.Finite? <==> d.Finite?
    ensures r.Finite? ==> r.value - y == d.value
    ensures !d.Finite? ==> r == d
  {
    match d
    case Finite(v) => Finite(v + y)
    case _ => d
  }

  /** `abs(n)` for an `Int` that does not overflow. */
  function Abs(n: int): nat
  {
    if n < 0 then -n else n
  }

  /** The score of a match with `e` errors at location `x`, sought near `loc`, in a text of length `distance`. */
  function CalculateScore(patternLength: int, e: int, x: int, loc: int, distance: int): (r: Double)
    ensures patternLength != 0 ==> r.Finite?
    ensures distance == 0 && x != loc ==> r == Finite(1.0)
    ensures distance == 0 && x == loc && patternLength != 0 ==>
              r.value == e as real / patternLength as real
    ensures distance != 0 && patternLength != 0 ==>
              r.value == e as real / patternLength as real + Abs(x - loc) as real / distance as real
    ensures patternLength == 0 && (distance != 0 || x == loc) ==> !r.Finite?
  {
    var accuracy := Divide(e, patternLength);
    var proximity := Abs(x - loc);
    if distance == 0 then
      if proximity != 0 then Finite(1.0) else accuracy
    else
      AddFinite(accuracy, proximity as real / distance as real)
  }

  /** The overload taking the pattern itself scores with the pattern's character count. */
  function CalculateScoreOfPattern(pattern: seq<char>, e: int, x: int, loc: int, distance: int): (r: Double)
    ensures r == CalculateScore(|pattern|, e, x, loc, distance)
    ensures pattern != [] ==> r.Finite?
  {
    CalculateScore(|pattern|, e, x, loc, distance)
  }

  /** Only the pattern's length matters to the pattern overload. */
  lemma PatternScoreDependsOnLengthOnly(p: seq<char>, q: seq<char>, e: int, x: int, loc: int, distance: int)
    requires |p| == |q|
    ensures CalculateScoreOfPattern(p, e, x, loc, distance) == CalculateScoreOfPattern(q, e, x, loc, distance)
  {
  }

  /** The score is symmetric in the match location and the expected location. */
  lemma ScoreSymmetric(patternLength: int, e: int, x: int, loc: int, distance: int)
    ensures CalculateScore(patternLength, e, x, loc, distance) == CalculateScore(patternLength, e, loc, x, distance)
  {
  }

  /** The score depends on the two locations only through their difference. */
  lemma ScoreShiftInvariant(patternLength: int, e: int, x: int, loc: int, distance: int, t: int)
    ensures CalculateScore(patternLength, e, x + t, loc + t, distance) == CalculateScore(patternLength, e, x, loc, distance)
  {
  }

  /** No errors at the expected location scores exactly 0, whatever the text length. */
  lemma PerfectMatchScoresZero(patternLength: int, loc: int, distance: int)
    requires patternLength != 0
    ensures CalculateScore(patternLength, 0, loc, loc, distance) == Finite(0.0)
  {
  }

  /** Dividing by a positive number keeps the order. */
  lemma DivideMonotone(a: real, b: real, d: real)
    requires a <= b && d > 0.0
    ensures a / d <= b / d
  {
    var qa, qb := a / d, b / d;
    assert qa * d == a && qb * d == b;
    assert (qb - qa) * d == b - a;
  }

  /** For a non-empty pattern, a non-negative error count and text length, the score is at least 0. */
  lemma ScoreNonNegative(patternLength: int, e: int, x: int, loc: int, distance: int)
    requires patternLength > 0 && e >= 0 && distance >= 0
    ensures CalculateScore(patternLength, e, x, loc, distance).value >= 0.0
  {
    DivideMonotone(0.0, e as real, patternLength as real);
    if distance > 0 {
      DivideMonotone(0.0, Abs(x - loc) as real, distance as real);
    }
  }

  /** More errors never improve the score. */
  lemma ScoreMonotoneInErrors(patternLength: int, e1: int, e2: int, x: int, loc: int, distance: int)
    requires patternLength > 0 && e1 <= e2
    ensures CalculateScore(patternLength, e1, x, loc, distance).value
            <= CalculateScore(patternLength, e2, x, loc, distance).value
  {
    DivideMonotone(e1 as real, e2 as real, patternLength as real);
  }

  /** For a positive text length, a farther match never improves the score. */
  lemma ScoreMonotoneInProximity(patternLength: int, e: int, x1: int, x2: int, loc: int, distance: int)
    requires patternLength > 0 && distance > 0 && Abs(x1 - loc) <= Abs(x2 - loc)
    ensures CalculateScore(patternLength, e, x1, loc, distance).value
            <= CalculateScore(patternLength, e, x2, loc, distance).value
  {
    DivideMonotone(Abs(x1 - loc) as real, Abs(x2 - loc) as real, distance as real);
  }

  /** With a zero text length, the score of an exact-location match is the error ratio, which may exceed 1. */
  lemma ZeroDistanceExactLocation(patternLength: int, e: int, loc: int)
    requires patternLength != 0
    ensures CalculateScore(patternLength, e, loc, loc, 0) == Finite(e as real / patternLength as real)
  {
  }

  /** The score is not clamped to 1: three errors over a one-character pattern, far away, score 3.5. */
  lemma ScoreNotClamped()
    ensures CalculateScore(1, 3, 5, 0, 10) == Finite(3.5)
  {
  }

  /** Scoring against an empty pattern: 0 / 0 errors is NaN, any other count an infinity. */
  lemma EmptyPatternScore(e: int, loc: int, distance: int)
    ensures CalculateScore(0, e, loc, loc, distance)
            == (if e > 0 then PositiveInfinity else if e < 0 then NegativeInfinity else NaN)
  {
  }
}
