/**
 * Face descriptor comparison (backend/utils/faceRecognition.js). The
 * controller only ever asks whether `euclideanDistance(a, b)` is below the
 * threshold, so the model keeps the SQUARED distance and compares it with the
 * squared threshold; `SqrtComparison` shows that the two tests agree.
 */
module Face {
  import opened Options

  /** FACE_MATCH_THRESHOLD: a distance strictly below it is a match. */
  const MatchThreshold: real := 0.6

  /** A product kept behind a name, so that the solver treats `d * d` as a plain term. */
  function Product(a: real, b: real): real
  {
    a * b
  }

  lemma ProductPositive(a: real, b: real)
    requires a > 0.0 && b > 0.0
    ensures Product(a, b) > 0.0
  {
  }

  lemma ProductOfNegations(a: real, b: real)
    ensures Product(-a, -b) == Product(a, b)
  {
  }

  function Square(d: real): real
  {
    Product(d, d)
  }

  /** Σ (a[i] − b[i])² over two descriptors of equal length. */
  function SumOfSquares(a: seq<real>, b: seq<real>): (s: real)
    requires |a| == |b|
    ensures s >= 0.0
  {
    SquarePositive(if a == [] then 0.0 else a[0] - b[0]);
    if a == [] then 0.0 else Square(a[0] - b[0]) + SumOfSquares(a[1..], b[1..])
  }

  /**
   * The square of `euclideanDistance(a, b)`, where `None` as an argument is a
   * null or undefined descriptor and `None` as the result is Infinity.
   */
  function SquaredDistance(a: Option<seq<real>>, b: Option<seq<real>>): (r: Option<real>)
    ensures r.Some? <==> a.Some? && b.Some? && |a.value| == |b.value|
    ensures r.Some? ==> r.value >= 0.0
  {
    if a.None? || b.None? then None
    else if |a.value| != |b.value| then None
    else Some(SumOfSquares(a.value, b.value))
  }

  /** `euclideanDistance(a, b) < FACE_MATCH_THRESHOLD`. */
  predicate IsMatch(a: Option<seq<real>>, b: Option<seq<real>>)
  {
    var d := SquaredDistance(a, b);
    d.Some? && d.value < MatchThreshold * MatchThreshold
  }

  /**
   * For the non-negative root r of a squared distance, `r < 0.6` exactly when
   * `r * r < 0.36`: comparing squares is the source's `sqrt(sum) < 0.6`.
   */
  lemma SqrtComparison(r: real)
    requires r >= 0.0
    ensures r < MatchThreshold <==> r * r < 0.36
    ensures MatchThreshold * MatchThreshold == 0.36
  {
    assert MatchThreshold == 0.6;
    if r < 0.6 {
      ProductNonNegative(r, 0.6 - r);
      assert r * r <= 0.6 * r;
    } else {
      ProductNonNegative(r - 0.6, r + 0.6);
      assert r * r - 0.36 >= 0.0;
    }
  }

  lemma ProductNonNegative(x: real, y: real)
    requires x >= 0.0 && y >= 0.0
    ensures x * y >= 0.0
  {
  }

  lemma {:induction false} SumOfSquaresSymmetric(a: seq<real>, b: seq<real>)
    requires |a| == |b|
    ensures SumOfSquares(a, b) == SumOfSquares(b, a)
  {
    if a != [] {
      SumOfSquaresSymmetric(a[1..], b[1..]);
      ProductOfNegations(a[0] - b[0], a[0] - b[0]);
    }
  }

  /** The distance does not depend on the argument order. */
  lemma DistanceSymmetric(a: Option<seq<real>>, b: Option<seq<real>>)
    ensures SquaredDistance(a, b) == SquaredDistance(b, a)
    ensures IsMatch(a, b) <==> IsMatch(b, a)
  {
    if a.Some? && b.Some? && |a.value| == |b.value| {
      SumOfSquaresSymmetric(a.value, b.value);
    }
  }

  lemma {:induction false} SumOfSquaresZero(a: seq<real>, b: seq<real>)
    requires |a| == |b|
    ensures SumOfSquares(a, b) == 0.0 <==> a == b
  {
    if a != [] {
      SumOfSquaresZero(a[1..], b[1..]);
      assert a == [a[0]] + a[1..] && b == [b[0]] + b[1..];
      SquarePositive(a[0] - b[0]);
    }
  }

  lemma SquarePositive(x: real)
    ensures Square(x) >= 0.0
    ensures x != 0.0 ==> Square(x) > 0.0
  {
    if x > 0.0 {
      ProductPositive(x, x);
    } else if x < 0.0 {
      ProductPositive(-x, -x);
      ProductOfNegations(x, x);
    }
  }

  /**
   * Two present descriptors are at distance 0 exactly when they are equal, so
   * an identical descriptor always matches; two empty arrays are identical.
   */
  lemma DistanceZeroIffEqual(a: seq<real>, b: seq<real>)
    ensures SquaredDistance(Some(a), Some(b)) == Some(0.0) <==> a == b
    ensures IsMatch(Some(a), Some(a))
    ensures IsMatch(Some([]), Some([]))
  {
    if |a| == |b| {
      SumOfSquaresZero(a, b);
    }
    SumOfSquaresZero(a, a);
  }

  /**
   * A missing descriptor or a length mismatch is at infinite distance and so
   * never matches; only equal length is demanded, not 128 entries.
   */
  lemma NoMatchWithoutEqualLength(a: Option<seq<real>>, b: Option<seq<real>>)
    ensures IsMatch(a, b) ==> a.Some? && b.Some? && |a.value| == |b.value|
    ensures a.None? || b.None? ==> SquaredDistance(a, b).None?
  {
  }
}
