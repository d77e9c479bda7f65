/** Per-row distance of the k-nearest-neighbour predictor.

    A training row and the query are feature vectors indexed by column
    position; `features` lists the columns that take part. Like the loop in
    `knn`, a column listed twice contributes twice. The predictor ranks rows
    by the squared Euclidean distance; `IsRoot` and `RootPreservesOrder`
    record why the square root the source takes afterwards cannot change
    that ranking.
 */
module Distance {

  /** Every listed feature is a column of `v`. */
  predicate HasFeatures(features: seq<nat>, v: seq<real>)
  {
    forall i :: 0 <= i < |features| ==> features[i] < |v|
  }

  /** `row` and `query` hold the same value in every listed feature. */
  predicate Agrees(features: seq<nat>, row: seq<real>, query: seq<real>)
    requires HasFeatures(features, row) && HasFeatures(features, query)
  {
    forall i :: 0 <= i < |features| ==> row[features[i]] == query[features[i]]
  }

  /** Product of two reals. Squares below are written `Times(x, x)` so that
      every square reaches the solver in the same shape. */
  function Times(a: real, b: real): real
  {
    a * b
  }

  function Square(x: real): real
  {
    Times(x, x)
  }

  lemma TimesPositive(a: real, b: real)
    requires a > 0.0 && b > 0.0
    ensures Times(a, b) > 0.0
  {
  }

  lemma TimesMonotone(a: real, b: real, c: real)
    requires a >= 0.0 && b <= c
    ensures Times(a, b) <= Times(a, c)
    ensures a > 0.0 && b < c ==> Times(a, b) < Times(a, c)
  {
  }

  lemma TimesCommutes(a: real, b: real)
    ensures Times(a, b) == Times(b, a)
  {
  }

  /** A square is never negative, and is zero only for zero. */
  lemma SquareSign(x: real)
    ensures Square(x) >= 0.0
    ensures Square(x) == 0.0 <==> x == 0.0
  {
    if x > 0.0 {
      TimesPositive(x, x);
    } else if x < 0.0 {
      TimesPositive(-x, -x);
      assert Times(-x, -x) == Times(x, x);
    }
  }

  /** Sum over the listed features of the squared difference between the
      row and the query: the square of the Euclidean distance. */
  function SquaredDistance(features: seq<nat>, row: seq<real>, query: seq<real>): real
    requires HasFeatures(features, row) && HasFeatures(features, query)
    decreases |features|
  {
    if |features| == 0 then 0.0
    else
      var f := features[0];
      assert HasFeatures(features[1..], row) && HasFeatures(features[1..], query);
      Square(row[f] - query[f]) + SquaredDistance(features[1..], row, query)
  }

  /** The squared distance is never negative, and it is zero exactly when the
      row agrees with the query on every listed feature. */
  lemma {:induction false} SquaredDistanceSign(features: seq<nat>, row: seq<real>, query: seq<real>)
    requires HasFeatures(features, row) && HasFeatures(features, query)
    ensures SquaredDistance(features, row, query) >= 0.0
    ensures SquaredDistance(features, row, query) == 0.0 <==> Agrees(features, row, query)
    decreases |features|
  {
    if |features| > 0 {
      var f := features[0];
      assert HasFeatures(features[1..], row) && HasFeatures(features[1..], query);
      SquaredDistanceSign(features[1..], row, query);
      SquareSign(row[f] - query[f]);
      if row[f] == query[f] && Agrees(features[1..], row, query) {
        forall i | 0 <= i < |features|
          ensures row[features[i]] == query[features[i]]
        {
          if i > 0 {
            assert features[i] == features[1..][i - 1];
          }
        }
      }
      if Agrees(features, row, query) {
        forall i | 0 <= i < |features| - 1
          ensures row[features[1..][i]] == query[features[1..][i]]
        {
          assert features[1..][i] == features[i + 1];
        }
      }
    }
  }

  /** `e` is the non-negative square root of `d`, what `d ** (1/2)` stands
      for over exact reals. */
  predicate IsRoot(e: real, d: real)
  {
    e >= 0.0 && Square(e) == d
  }

  /** Taking non-negative square roots keeps both the strict order and the
      ties between two distances. */
  lemma RootPreservesOrder(e1: real, d1: real, e2: real, d2: real)
    requires IsRoot(e1, d1) && IsRoot(e2, d2)
    ensures e1 < e2 <==> d1 < d2
    ensures e1 == e2 <==> d1 == d2
  {
    if e1 < e2 {
      TimesMonotone(e1, e1, e2);
      TimesMonotone(e2, e1, e2);
      TimesCommutes(e1, e2);
    } else if e2 < e1 {
      TimesMonotone(e2, e2, e1);
      TimesMonotone(e1, e2, e1);
      TimesCommutes(e1, e2);
    }
  }

  /** Every training row carries every listed feature. */
  predicate RowsHaveFeatures(features: seq<nat>, train: seq<seq<real>>)
  {
    forall i :: 0 <= i < |train| ==> HasFeatures(features, train[i])
  }

  /** The squared distance of every training row to the query, in row order. */
  function Distances(features: seq<nat>, train: seq<seq<real>>, query: seq<real>): (d: seq<real>)
    requires RowsHaveFeatures(features, train) && HasFeatures(features, query)
    ensures |d| == |train|
    ensures forall i :: 0 <= i < |d| ==> d[i] >= 0.0
    ensures forall i :: 0 <= i < |d| ==> (d[i] == 0.0 <==> Agrees(features, train[i], query))
  {
    var d := seq(|train|, i requires 0 <= i < |train| => SquaredDistance(features, train[i], query));
    assert forall i :: 0 <= i < |d| ==> d[i] >= 0.0 && (d[i] == 0.0 <==> Agrees(features, train[i], query)) by {
      forall i | 0 <= i < |d|
        ensures d[i] >= 0.0 && (d[i] == 0.0 <==> Agrees(features, train[i], query))
      {
        SquaredDistanceSign(features, train[i], query);
      }
    }
    d
  }
}
