/** Majority vote over the labels of the selected rows, as
    `Series.mode()[0]` computes it.

    `mode()` returns every most frequent value, in ascending order, and `[0]`
    takes the first of them; the vote is therefore the smallest label among
    those that occur most often.
 */
module Vote {

  /** Labels are ordered class identifiers. */
  type Label = int

  /** Number of occurrences of `x` in `s`, counted one position at a time. */
  function Count(s: seq<Label>, x: Label): (c: nat)
    ensures c == multiset(s)[x]
  {
    if |s| == 0 then 0
    else
      assert s == [s[0]] + s[1..];
      (if s[0] == x then 1 else 0) + Count(s[1..], x)
  }

  /** `m` is the outcome of `mode()[0]` on `s`: a value of `s` that no value
      of `s` outnumbers, and the smallest of all values that occur as often. */
  predicate IsVote(s: seq<Label>, m: Label)
  {
    && m in s
    && forall x :: x in s ==> Count(s, x) < Count(s, m) || (Count(s, x) == Count(s, m) && m <= x)
  }

  /** The best of the candidates `cands` by frequency in `s`, ties going to
      the smaller label. */
  function BestOf(s: seq<Label>, cands: seq<Label>): (m: Label)
    requires |cands| > 0
    ensures m in cands
    ensures forall x :: x in cands ==> Count(s, x) < Count(s, m) || (Count(s, x) == Count(s, m) && m <= x)
  {
    if |cands| == 1 then cands[0]
    else
      var rest := BestOf(s, cands[1..]);
      var c := cands[0];
      assert forall x :: x in cands ==> x == c || x in cands[1..];
      if Count(s, c) > Count(s, rest) || (Count(s, c) == Count(s, rest) && c < rest) then c else rest
  }

  /** The vote over a non-empty list of labels. */
  function Mode(s: seq<Label>): (m: Label)
    requires |s| > 0
    ensures IsVote(s, m)
  {
    BestOf(s, s)
  }

  // ---------------------------------------------------------------------
  // Properties
  // ---------------------------------------------------------------------

  /** The vote depends only on how often each label occurs, not on the
      order in which the labels are listed. */
  lemma VoteRespectsCounts(s: seq<Label>, t: seq<Label>, m: Label)
    requires forall x :: Count(s, x) == Count(t, x)
    requires IsVote(s, m)
    ensures IsVote(t, m)
  {
    assert Count(t, m) == Count(s, m) > 0;
    forall x | x in t
      ensures Count(t, x) < Count(t, m) || (Count(t, x) == Count(t, m) && m <= x)
    {
      assert Count(s, x) == Count(t, x) > 0;
    }
  }

  /** At most one label is the vote of a given list. */
  lemma VoteUnique(s: seq<Label>, m1: Label, m2: Label)
    requires IsVote(s, m1) && IsVote(s, m2)
    ensures m1 == m2
  {
  }

  /** Reordering the labels never changes the vote. */
  lemma ModeRespectsMultiset(s: seq<Label>, t: seq<Label>)
    requires |s| > 0 && multiset(s) == multiset(t)
    ensures |t| > 0
    ensures Mode(s) == Mode(t)
  {
    assert |t| == |multiset(t)| == |multiset(s)| == |s|;
    VoteRespectsCounts(s, t, Mode(s));
    VoteUnique(t, Mode(s), Mode(t));
  }
}
