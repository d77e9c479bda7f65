/** Stable smallest-k selection, as `Series.nsmallest(n=k)` performs it with
    its default `keep='first'`.

    Rows are identified by their position in the input. Row `i` is ranked
    ahead of row `j` when its distance is smaller, or when the distances are
    equal and `i` comes first. Since no two rows share a position, this is a
    strict total order, and the k smallest rows are the first k of the rows
    listed in that order.
 */
module Selection {

  function Min(a: nat, b: nat): nat
  {
    if a <= b then a else b
  }

  /** Row `i` is ranked ahead of row `j`. */
  predicate Before(d: seq<real>, i: nat, j: nat)
    requires i < |d| && j < |d|
  {
    d[i] < d[j] || (d[i] == d[j] && i < j)
  }

  /** Every entry of `s` is a row position of `d`. */
  predicate Positions(d: seq<real>, s: seq<nat>)
  {
    forall p :: 0 <= p < |s| ==> s[p] < |d|
  }

  /** `s` lists rows of `d`, each ranked ahead of the row listed next. */
  predicate Ranked(d: seq<real>, s: seq<nat>)
  {
    Positions(d, s) && forall p :: 0 <= p && p + 1 < |s| ==> Before(d, s[p], s[p + 1])
  }

  /** `s` is what `nsmallest(n=k)` returns for the distances `d`: `Min(k, |d|)`
      rows, each ranked ahead of every row listed after it and of every row
      left out. When `k >= |d|` pandas lists tied rows in an unspecified
      order; this predicate fixes the earlier row first. */
  predicate IsSmallest(d: seq<real>, k: nat, s: seq<nat>)
  {
    && |s| == Min(k, |d|)
    && Positions(d, s)
    && (forall p, q :: 0 <= p < q < |s| ==> Before(d, s[p], s[q]))
    && (forall p, j :: 0 <= p < |s| && 0 <= j < |d| && j !in s ==> Before(d, s[p], j))
  }

  lemma {:induction false} RankedPair(d: seq<real>, s: seq<nat>, p: nat, q: nat)
    requires Ranked(d, s) && p < q < |s|
    ensures Before(d, s[p], s[q])
    decreases q - p
  {
    if p + 1 < q {
      RankedPair(d, s, p + 1, q);
    }
  }

  /** Ranking each row ahead of the next ranks it ahead of all later ones. */
  lemma RankedOrdered(d: seq<real>, s: seq<nat>)
    requires Ranked(d, s)
    ensures forall p, q :: 0 <= p < q < |s| ==> Before(d, s[p], s[q])
  {
    forall p, q | 0 <= p < q < |s|
      ensures Before(d, s[p], s[q])
    {
      RankedPair(d, s, p, q);
    }
  }

  /** Places row `x` into the ranked list `s`, after every row ranked ahead
      of it and before every other. */
  function Insert(d: seq<real>, s: seq<nat>, x: nat): (r: seq<nat>)
    requires Ranked(d, s) && x < |d| && x !in s
    ensures Ranked(d, r)
    ensures |r| == |s| + 1
    ensures r[0] == x || (|s| > 0 && r[0] == s[0])
    ensures forall y :: y in r <==> y == x || y in s
  {
    if |s| == 0 then [x]
    else if Before(d, x, s[0]) then [x] + s
    else
      var t := Insert(d, s[1..], x);
      assert s == [s[0]] + s[1..];
      [s[0]] + t
  }

  /** Rows `0 .. n-1` listed in rank order. */
  function RankPrefix(d: seq<real>, n: nat): (r: seq<nat>)
    requires n <= |d|
    ensures Ranked(d, r)
    ensures |r| == n
    ensures forall i :: i in r <==> 0 <= i < n
  {
    if n == 0 then [] else Insert(d, RankPrefix(d, n - 1), n - 1)
  }

  /** The rows of `d` selected by `nsmallest(n=k)`: the first `Min(k, |d|)`
      rows in rank order. A `k` beyond the number of rows selects them all,
      and their order among ties is then this model's choice. */
  function Nearest(d: seq<real>, k: nat): (r: seq<nat>)
    ensures IsSmallest(d, k, r)
  {
    var all := RankPrefix(d, |d|);
    var m := Min(k, |d|);
    var r := all[..m];
    RankedOrdered(d, all);
    assert forall q :: 0 <= q < m ==> all[q] in r by {
      forall q | 0 <= q < m
        ensures all[q] in r
      {
        assert r[q] == all[q];
      }
    }
    assert forall p, j :: 0 <= p < |r| && 0 <= j < |d| && j !in r ==> Before(d, r[p], j) by {
      forall p, j | 0 <= p < |r| && 0 <= j < |d| && j !in r
        ensures Before(d, r[p], j)
      {
        assert j in all;
        var q :| 0 <= q < |all| && all[q] == j;
        assert Before(d, all[p], all[q]);
      }
    }
    r
  }

  // ---------------------------------------------------------------------
  // Properties
  // ---------------------------------------------------------------------

  /** A ranked list never names the same row twice. */
  lemma RankedDistinct(d: seq<real>, s: seq<nat>)
    requires Ranked(d, s)
    ensures forall p, q :: 0 <= p < |s| && 0 <= q < |s| && p != q ==> s[p] != s[q]
  {
    RankedOrdered(d, s);
    forall p, q | 0 <= p < |s| && 0 <= q < |s| && p != q
      ensures s[p] != s[q]
    {
      if p < q {
        assert Before(d, s[p], s[q]);
      } else {
        assert Before(d, s[q], s[p]);
      }
    }
  }

  /** Values of `v` at the listed positions, in list order: what indexing a
      Series by the index labels of the selected rows yields. */
  function Gather<T>(v: seq<T>, s: seq<nat>): (r: seq<T>)
    requires forall p :: 0 <= p < |s| ==> s[p] < |v|
    ensures |r| == |s|
  {
    if |s| == 0 then [] else [v[s[0]]] + Gather(v, s[1..])
  }

  /** Entry `p` of the gathered values is the value at the `p`-th listed
      position. */
  lemma {:induction false} GatherAt<T>(v: seq<T>, s: seq<nat>)
    requires forall p :: 0 <= p < |s| ==> s[p] < |v|
    ensures forall p :: 0 <= p < |s| ==> Gather(v, s)[p] == v[s[p]]
  {
    if |s| > 0 {
      GatherAt(v, s[1..]);
    }
  }

  /** When `k` covers every row, every row is selected, in rank order. */
  lemma NearestAllRows(d: seq<real>, k: nat)
    requires k >= |d|
    ensures Nearest(d, k) == RankPrefix(d, |d|)
  {
  }

  /** The first selected row is ranked ahead of every other row. */
  lemma NearestLeads(d: seq<real>, k: nat)
    requires k >= 1 && |d| >= 1
    ensures forall j :: 0 <= j < |d| ==> j == Nearest(d, k)[0] || Before(d, Nearest(d, k)[0], j)
  {
    var r := Nearest(d, k);
    forall j | 0 <= j < |d|
      ensures j == r[0] || Before(d, r[0], j)
    {
      if j in r {
        var p :| 0 <= p < |r| && r[p] == j;
        if p > 0 {
          assert Before(d, r[0], r[p]);
        }
      }
    }
  }

  /** The row ranked ahead of all others, when there is one, leads the
      selection for every `k >= 1`. */
  lemma NearestStartsWithLeader(d: seq<real>, k: nat, i: nat)
    requires k >= 1 && i < |d|
    requires forall j :: 0 <= j < |d| && j != i ==> Before(d, i, j)
    ensures Nearest(d, k)[0] == i
  {
    NearestLeads(d, k);
    var r0 := Nearest(d, k)[0];
    assert r0 == i || Before(d, r0, i);
    assert r0 == i || Before(d, i, r0);
  }

  /** Two distance lists that rank every pair of rows alike. */
  predicate SameRanking(d: seq<real>, e: seq<real>)
  {
    |d| == |e| && forall i, j :: 0 <= i < |d| && 0 <= j < |d| ==> (Before(d, i, j) <==> Before(e, i, j))
  }

  lemma {:induction false} InsertSameRanking(d: seq<real>, e: seq<real>, s: seq<nat>, x: nat)
    requires SameRanking(d, e)
    requires Ranked(d, s) && x < |d| && x !in s
    ensures Ranked(e, s)
    ensures Insert(d, s, x) == Insert(e, s, x)
    decreases |s|
  {
    if |s| > 0 {
      InsertSameRanking(d, e, s[1..], x);
    }
  }

  lemma {:induction false} RankPrefixSameRanking(d: seq<real>, e: seq<real>, n: nat)
    requires SameRanking(d, e) && n <= |d|
    ensures RankPrefix(d, n) == RankPrefix(e, n)
  {
    if n > 0 {
      RankPrefixSameRanking(d, e, n - 1);
      InsertSameRanking(d, e, RankPrefix(d, n - 1), n - 1);
    }
  }

  /** The selection depends only on how the distances rank the rows, not on
      their values. */
  lemma NearestSameRanking(d: seq<real>, e: seq<real>, k: nat)
    requires SameRanking(d, e)
    ensures Nearest(d, k) == Nearest(e, k)
  {
    RankPrefixSameRanking(d, e, |d|);
  }
}
