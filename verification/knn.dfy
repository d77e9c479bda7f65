/** The k-nearest-neighbour prediction of `knn`.

    The training table is a list of rows aligned with a list of labels: row
    `i` carries label `labels[i]`. The query and every row are indexed by the
    same column positions, and `features` lists the columns used. The
    prediction is the vote over the labels of the `k` rows nearest to the
    query, nearness being the Euclidean distance over the listed features.
 */
module Knn {
  import opened Distance
  import opened Selection
  import opened Vote

  /** The inputs `knn` can work on: one label per training row, and every
      listed feature present in the query and in every row. */
  predicate WellFormed(features: seq<nat>, train: seq<seq<real>>, query: seq<real>, labels: seq<Label>)
  {
    && |train| == |labels|
    && HasFeatures(features, query)
    && RowsHaveFeatures(features, train)
  }

  /** The training rows `nsmallest(n=k)` selects: the `k` nearest to the
      query (all rows when `k` exceeds their number), nearest first, ties
      going to the earlier row. */
  function Neighbours(features: seq<nat>, train: seq<seq<real>>, query: seq<real>, k: nat): (r: seq<nat>)
    requires RowsHaveFeatures(features, train) && HasFeatures(features, query)
    ensures IsSmallest(Distances(features, train, query), k, r)
  {
    Nearest(Distances(features, train, query), k)
  }

  /** The predicted label: the vote over the labels of the selected rows.
      With no rows or `k == 0` the source's `mode()[0]` has nothing to index
      and fails, so both are excluded. */
  function Predict(features: seq<nat>, train: seq<seq<real>>, query: seq<real>, labels: seq<Label>, k: nat): (r: Label)
    requires WellFormed(features, train, query, labels)
    requires |train| >= 1 && k >= 1
    ensures var sel := Neighbours(features, train, query, k);
            && (exists p :: 0 <= p < |sel| && labels[sel[p]] == r)
            && IsVote(Gather(labels, sel), r)
    ensures k >= |train| ==> IsVote(labels, r)
  {
    var sel := Neighbours(features, train, query, k);
    var votes := Gather(labels, sel);
    var r := Mode(votes);
    GatherAt(labels, sel);
    assert r in votes;
    if k >= |train| then
      forall l
        ensures Count(votes, l) == Count(labels, l)
      {
        AllRowsCount(Distances(features, train, query), k, labels, l);
      }
      VoteRespectsCounts(votes, labels, r);
      r
    else
      r
  }

  // ---------------------------------------------------------------------
  // Label counts of the selection
  // ---------------------------------------------------------------------

  lemma GatherHeadCount(v: seq<Label>, s: seq<nat>, l: Label)
    requires |s| > 0 && forall p :: 0 <= p < |s| ==> s[p] < |v|
    ensures Count(Gather(v, s), l) == (if v[s[0]] == l then 1 else 0) + Count(Gather(v, s[1..]), l)
  {
    assert Gather(v, s)[0] == v[s[0]];
    assert Gather(v, s)[1..] == Gather(v, s[1..]);
  }

  /** Inserting a row into a ranked list adds one vote for its label. */
  lemma {:induction false} InsertCount(d: seq<real>, s: seq<nat>, x: nat, v: seq<Label>, l: Label)
    requires Ranked(d, s) && x < |d| && x !in s && |v| == |d|
    ensures Count(Gather(v, Insert(d, s, x)), l) == Count(Gather(v, s), l) + (if v[x] == l then 1 else 0)
    decreases |s|
  {
    var r := Insert(d, s, x);
    if |s| == 0 || Before(d, x, s[0]) {
      assert r[0] == x && r[1..] == s;
      GatherHeadCount(v, r, l);
    } else {
      var t := Insert(d, s[1..], x);
      assert r[0] == s[0] && r[1..] == t;
      InsertCount(d, s[1..], x, v, l);
      GatherHeadCount(v, r, l);
      GatherHeadCount(v, s, l);
    }
  }

  lemma PrefixCount(v: seq<Label>, n: nat, l: Label)
    requires 0 < n <= |v|
    ensures Count(v[..n], l) == Count(v[..n - 1], l) + (if v[n - 1] == l then 1 else 0)
  {
    assert v[..n] == v[..n - 1] + [v[n - 1]];
  }

  /** Ranking the first `n` rows keeps the number of votes for every label. */
  lemma {:induction false} RankPrefixCount(d: seq<real>, n: nat, v: seq<Label>, l: Label)
    requires n <= |d| && |v| == |d|
    ensures Count(Gather(v, RankPrefix(d, n)), l) == Count(v[..n], l)
  {
    if n > 0 {
      var x: nat := n - 1;
      var s := RankPrefix(d, x);
      assert RankPrefix(d, n) == Insert(d, s, x);
      InsertCount(d, s, x, v, l);
      RankPrefixCount(d, x, v, l);
      PrefixCount(v, n, l);
    }
  }

  /** When `k` covers every row, the selected rows carry every label exactly
      as often as the whole training set does. */
  lemma AllRowsCount(d: seq<real>, k: nat, v: seq<Label>, l: Label)
    requires k >= |d| && |v| == |d|
    ensures Count(Gather(v, Nearest(d, k)), l) == Count(v, l)
  {
    NearestAllRows(d, k);
    RankPrefixCount(d, |d|, v, l);
    assert v[..|d|] == v;
  }

  // ---------------------------------------------------------------------
  // Properties
  // ---------------------------------------------------------------------

  /** When `k` covers every row, the prediction is the vote over all the
      training labels, whatever the features, the rows and the query. */
  lemma PredictAllRows(f1: seq<nat>, t1: seq<seq<real>>, q1: seq<real>,
                       f2: seq<nat>, t2: seq<seq<real>>, q2: seq<real>,
                       labels: seq<Label>, k: nat)
    requires WellFormed(f1, t1, q1, labels) && WellFormed(f2, t2, q2, labels)
    requires |labels| >= 1 && k >= |labels|
    ensures Predict(f1, t1, q1, labels, k) == Predict(f2, t2, q2, labels, k)
    ensures Predict(f1, t1, q1, labels, k) == Mode(labels)
  {
    VoteUnique(labels, Predict(f1, t1, q1, labels, k), Mode(labels));
    VoteUnique(labels, Predict(f2, t2, q2, labels, k), Mode(labels));
  }

  /** A row that matches the query on every listed feature, with no earlier
      row that does, is the first neighbour for every `k >= 1`. When `k`
      covers every row, pandas leaves the order of tied rows unspecified, and
      only `ExactMatchSelected` is the source's promise. */
  lemma ExactMatchLeads(features: seq<nat>, train: seq<seq<real>>, query: seq<real>, k: nat, i: nat)
    requires RowsHaveFeatures(features, train) && HasFeatures(features, query)
    requires k >= 1 && i < |train|
    requires Agrees(features, train[i], query)
    requires forall j :: 0 <= j < i ==> !Agrees(features, train[j], query)
    ensures Neighbours(features, train, query, k)[0] == i
  {
    var d := Distances(features, train, query);
    forall j | 0 <= j < |d| && j != i
      ensures Before(d, i, j)
    {
      assert d[i] == 0.0;
      if j < i {
        assert d[j] != 0.0;
      }
    }
    NearestStartsWithLeader(d, k, i);
  }

  /** The earliest row that matches the query is among the selected rows,
      for every `k >= 1`. */
  lemma ExactMatchSelected(features: seq<nat>, train: seq<seq<real>>, query: seq<real>, k: nat, i: nat)
    requires RowsHaveFeatures(features, train) && HasFeatures(features, query)
    requires k >= 1 && i < |train|
    requires Agrees(features, train[i], query)
    requires forall j :: 0 <= j < i ==> !Agrees(features, train[j], query)
    ensures i in Neighbours(features, train, query, k)
  {
    ExactMatchLeads(features, train, query, k, i);
  }

  /** Ranking by the Euclidean distances themselves, the square roots of the
      squared distances, selects exactly the same rows. */
  lemma EuclideanSelectsAlike(features: seq<nat>, train: seq<seq<real>>, query: seq<real>,
                              euclid: seq<real>, k: nat)
    requires RowsHaveFeatures(features, train) && HasFeatures(features, query)
    requires |euclid| == |train|
    requires forall i :: 0 <= i < |train| ==> IsRoot(euclid[i], Distances(features, train, query)[i])
    ensures Nearest(euclid, k) == Neighbours(features, train, query, k)
  {
    var d := Distances(features, train, query);
    forall i, j | 0 <= i < |d| && 0 <= j < |d|
      ensures Before(d, i, j) <==> Before(euclid, i, j)
    {
      RootPreservesOrder(euclid[i], d[i], euclid[j], d[j]);
    }
    NearestSameRanking(d, euclid, k);
  }

  lemma OneFeatureDistance(a: real, b: real)
    ensures SquaredDistance([0], [a], [b]) == Square(a - b)
  {
    assert SquaredDistance([0][1..], [a], [b]) == 0.0;
  }

  lemma ScenarioDistances()
    ensures Distances([0], [[1.0], [2.0], [10.0]], [1.5]) == [0.25, 0.25, 72.25]
  {
    OneFeatureDistance(1.0, 1.5);
    OneFeatureDistance(2.0, 1.5);
    OneFeatureDistance(10.0, 1.5);
    assert Square(-0.5) == 0.25 && Square(0.5) == 0.25 && Square(8.5) == 72.25;
  }

  lemma ScenarioRankTwo(d: seq<real>)
    requires d == [0.25, 0.25, 72.25]
    ensures RankPrefix(d, 2) == [0, 1]
  {
    assert RankPrefix(d, 1) == Insert(d, [], 0) == [0];
    assert !Before(d, 1, 0);
    assert Insert(d, [0], 1) == [0] + Insert(d, [], 1);
  }

  lemma ScenarioNeighbours(d: seq<real>)
    requires d == [0.25, 0.25, 72.25]
    ensures Nearest(d, 2) == [0, 1]
  {
    ScenarioRankTwo(d);
    assert !Before(d, 2, 0) && !Before(d, 2, 1);
    assert Insert(d, [1], 2) == [1] + Insert(d, [], 2);
    assert Insert(d, [0, 1], 2) == [0] + Insert(d, [1], 2);
    assert RankPrefix(d, 3) == [0, 1, 2];
  }

  /** The end-to-end scenario: one feature, rows 1, 2 and 10 labelled
      0, 0 and 1, query 1.5 and `k = 2`. The two rows at distance 0.5 are
      selected and both vote 0. */
  lemma Scenario()
    ensures Predict([0], [[1.0], [2.0], [10.0]], [1.5], [0, 0, 1], 2) == 0
  {
    ScenarioDistances();
    ScenarioNeighbours(Distances([0], [[1.0], [2.0], [10.0]], [1.5]));
    var votes := Gather([0, 0, 1], [0, 1]);
    assert votes == [0, 0];
    assert IsVote(votes, 0);
    VoteUnique(votes, 0, Predict([0], [[1.0], [2.0], [10.0]], [1.5], [0, 0, 1], 2));
  }
}
