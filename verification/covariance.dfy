/** Sample covariance of two paired numeric feature vectors, over exact reals.

    The computation follows `calculate_covariance`: centre each vector on its
    mean, multiply the paired deviations, add the products up and divide by
    one less than the number of observations (Bessel's correction).
 */
module Covariance {

  /** Sum of a sequence. Python's `sum` folds from the left; over exact reals
      the association order does not change the value. */
  function Sum(s: seq<real>): real
  {
    if |s| == 0 then 0.0 else s[0] + Sum(s[1..])
  }

  /** Arithmetic mean, as `np.mean` computes it for a non-empty vector. */
  function Mean(s: seq<real>): real
    requires |s| > 0
  {
    Sum(s) / (|s| as real)
  }

  /** Sum over the paired positions of `(a[i] - ca) * (b[i] - cb)`. */
  function CrossDeviation(a: seq<real>, b: seq<real>, ca: real, cb: real): real
    requires |a| == |b|
  {
    if |a| == 0 then 0.0
    else (a[0] - ca) * (b[0] - cb) + CrossDeviation(a[1..], b[1..], ca, cb)
  }

  /** The sample covariance of `a` and `b`. Both must hold the same number
      of observations, at least two of them, or the divisor `n - 1` is zero. */
  function Covariance(a: seq<real>, b: seq<real>): real
    requires |a| == |b| >= 2
  {
    CrossDeviation(a, b, Mean(a), Mean(b)) / ((|a| - 1) as real)
  }

  // ---------------------------------------------------------------------
  // Independent reference definitions
  // ---------------------------------------------------------------------

  /** Sum of squared deviations of `a` from `c`. */
  function SquaredDeviations(a: seq<real>, c: real): real
  {
    if |a| == 0 then 0.0 else (a[0] - c) * (a[0] - c) + SquaredDeviations(a[1..], c)
  }

  /** The sample variance: squared deviations from the mean over `n - 1`. */
  function SampleVariance(a: seq<real>): real
    requires |a| >= 2
  {
    SquaredDeviations(a, Mean(a)) / ((|a| - 1) as real)
  }

  /** Sum of the elementwise products of two paired vectors. */
  function Dot(a: seq<real>, b: seq<real>): real
    requires |a| == |b|
  {
    if |a| == 0 then 0.0 else a[0] * b[0] + Dot(a[1..], b[1..])
  }

  /** The "computational" formula for the sample covariance,
      `(sum a[i]*b[i] - n * mean(a) * mean(b)) / (n - 1)`, which never forms
      a deviation. */
  function ShortcutCovariance(a: seq<real>, b: seq<real>): real
    requires |a| == |b| >= 2
  {
    (Dot(a, b) - (|a| as real) * Mean(a) * Mean(b)) / ((|a| - 1) as real)
  }

  // ---------------------------------------------------------------------
  // Properties
  // ---------------------------------------------------------------------

  lemma {:induction false} CrossDeviationSymmetric(a: seq<real>, b: seq<real>, ca: real, cb: real)
    requires |a| == |b|
    ensures CrossDeviation(a, b, ca, cb) == CrossDeviation(b, a, cb, ca)
  {
    if |a| > 0 {
      CrossDeviationSymmetric(a[1..], b[1..], ca, cb);
    }
  }

  /** Swapping the two feature vectors does not change their covariance. */
  lemma CovarianceSymmetric(a: seq<real>, b: seq<real>)
    requires |a| == |b| >= 2
    ensures Covariance(a, b) == Covariance(b, a)
  {
    CrossDeviationSymmetric(a, b, Mean(a), Mean(b));
  }

  lemma {:induction false} SquaredDeviationsNonNegative(a: seq<real>, c: real)
    ensures SquaredDeviations(a, c) >= 0.0
  {
    if |a| > 0 {
      SquaredDeviationsNonNegative(a[1..], c);
      var x := a[0] - c;
      if x < 0.0 {
        assert x * x == (-x) * (-x);
      }
      assert x * x >= 0.0;
    }
  }

  lemma {:induction false} CrossDeviationDiagonal(a: seq<real>, c: real)
    ensures CrossDeviation(a, a, c, c) == SquaredDeviations(a, c)
  {
    if |a| > 0 {
      CrossDeviationDiagonal(a[1..], c);
    }
  }

  /** The covariance of a vector with itself is its sample variance, the
      squared deviations from the mean over `n - 1`, and so never negative. */
  lemma CovarianceOfSelf(a: seq<real>)
    requires |a| >= 2
    ensures Covariance(a, a) == SampleVariance(a)
    ensures Covariance(a, a) >= 0.0
  {
    CrossDeviationDiagonal(a, Mean(a));
    SquaredDeviationsNonNegative(a, Mean(a));
  }

  lemma {:induction false} CrossDeviationExpanded(a: seq<real>, b: seq<real>, ca: real, cb: real)
    requires |a| == |b|
    ensures CrossDeviation(a, b, ca, cb)
         == Dot(a, b) - cb * Sum(a) - ca * Sum(b) + (|a| as real) * ca * cb
  {
    if |a| > 0 {
      CrossDeviationExpanded(a[1..], b[1..], ca, cb);
      ExpandedStep(a[0], b[0], ca, cb, Dot(a[1..], b[1..]), Sum(a[1..]), Sum(b[1..]), (|a| - 1) as real);
    }
  }

  /** One step of `CrossDeviationExpanded`: the head term joins the expanded tail. */
  lemma ExpandedStep(x: real, y: real, ca: real, cb: real, dot: real, sa: real, sb: real, m: real)
    ensures (x - ca) * (y - cb) + (dot - cb * sa - ca * sb + m * ca * cb)
         == (x * y + dot) - cb * (x + sa) - ca * (y + sb) + (m + 1.0) * ca * cb
  {
  }

  /** The centred formula of the source agrees with the computational
      formula on every valid input. */
  lemma CovarianceMatchesShortcut(a: seq<real>, b: seq<real>)
    requires |a| == |b| >= 2
    ensures Covariance(a, b) == ShortcutCovariance(a, b)
  {
    var n := |a| as real;
    var ma, mb := Mean(a), Mean(b);
    CrossDeviationExpanded(a, b, ma, mb);
    SumIsCountTimesMean(a);
    SumIsCountTimesMean(b);
    CentredTerms(Dot(a, b), n, ma, mb);
  }

  lemma SumIsCountTimesMean(s: seq<real>)
    requires |s| > 0
    ensures Sum(s) == (|s| as real) * Mean(s)
  {
  }

  lemma CentredTerms(dot: real, n: real, ma: real, mb: real)
    ensures dot - mb * (n * ma) - ma * (n * mb) + n * ma * mb == dot - n * ma * mb
  {
  }

  /** The worked example of the documentation: two opposite ramps. */
  lemma WorkedExample()
    ensures Covariance([1.0, 2.0, 3.0, 4.0, 5.0], [5.0, 4.0, 3.0, 2.0, 1.0]) == -2.5
  {
    var a := [1.0, 2.0, 3.0, 4.0, 5.0];
    var b := [5.0, 4.0, 3.0, 2.0, 1.0];
    assert Sum(a[4..]) == 5.0;
    assert Sum(a[3..]) == 9.0;
    assert Sum(a[2..]) == 12.0;
    assert Sum(a[1..]) == 14.0;
    assert Sum(a) == 15.0;
    assert Sum(b[4..]) == 1.0;
    assert Sum(b[3..]) == 3.0;
    assert Sum(b[2..]) == 6.0;
    assert Sum(b[1..]) == 10.0;
    assert Sum(b) == 15.0;
    assert Mean(a) == 3.0 && Mean(b) == 3.0;
    assert CrossDeviation(a[4..], b[4..], 3.0, 3.0) == -4.0;
    assert CrossDeviation(a[3..], b[3..], 3.0, 3.0) == -5.0;
    assert CrossDeviation(a[2..], b[2..], 3.0, 3.0) == -5.0;
    assert CrossDeviation(a[1..], b[1..], 3.0, 3.0) == -6.0;
    assert CrossDeviation(a, b, 3.0, 3.0) == -10.0;
  }
}
