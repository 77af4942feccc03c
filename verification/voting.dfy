/**
 Majority vote with the semantics of `Counter(votes).most_common(1)[0][0]`:
 the label with the highest count, and on a tie the label that occurs first
 in `votes` (a `Counter` keeps labels in first-occurrence order and `max`
 keeps the first maximum it meets).
 */
module Voting {

  /** Number of votes cast for `x`. */
  function Count<L(==)>(votes: seq<L>, x: L): nat
  {
    multiset(votes)[x]
  }

  /** Position of the first vote for `x`. */
  function FirstIndex<L(==)>(votes: seq<L>, x: L): (k: nat)
    requires x in votes
    ensures k < |votes| && votes[k] == x
    ensures forall j :: 0 <= j < k ==> votes[j] != x
  {
    if votes[0] == x then 0 else 1 + FirstIndex(votes[1..], x)
  }

  /**
   `x` is what `most_common(1)` picks: it was voted for, no vote went to a
   label with more votes, and its first vote comes no later than any vote for
   a label with as many votes.
   */
  ghost predicate IsMostCommon<L>(votes: seq<L>, x: L)
  {
    && x in votes
    && (forall i :: 0 <= i < |votes| ==> Count(votes, votes[i]) <= Count(votes, x))
    && (forall i :: 0 <= i < |votes| && Count(votes, votes[i]) == Count(votes, x) ==> FirstIndex(votes, x) <= i)
  }

  /**
   Position of the running leader after scanning the first `k` votes in
   order: a later vote takes over only when its label has strictly more
   votes, so the leader is always held at its label's first vote.
   */
  function LeaderIndex<L(==)>(votes: seq<L>, k: nat): (m: nat)
    requires 0 < k <= |votes|
    ensures m < k
    ensures forall i :: 0 <= i < k ==> Count(votes, votes[i]) <= Count(votes, votes[m])
    ensures forall i :: 0 <= i < k && Count(votes, votes[i]) == Count(votes, votes[m]) ==> m <= i
  {
    if k == 1 then 0
    else
      var prev := LeaderIndex(votes, k - 1);
      if Count(votes, votes[k - 1]) > Count(votes, votes[prev]) then k - 1 else prev
  }

  /** The most common vote, ties going to the earliest. */
  function MostCommon<L(==)>(votes: seq<L>): (r: L)
    requires 0 < |votes|
    ensures IsMostCommon(votes, r)
  {
    var m := LeaderIndex(votes, |votes|);
    assert FirstIndex(votes, votes[m]) == m by {
      var f := FirstIndex(votes, votes[m]);
      assert Count(votes, votes[f]) == Count(votes, votes[m]);
    }
    votes[m]
  }

  /** No label, voted for or not, has strictly more votes than the most common one. */
  lemma NoLabelOutvotesMostCommon<L>(votes: seq<L>)
    requires 0 < |votes|
    ensures forall y :: Count(votes, y) <= Count(votes, MostCommon(votes))
  {
  }

  /** At most one label satisfies the `most_common(1)` description. */
  lemma MostCommonUnique<L>(votes: seq<L>, x: L, y: L)
    requires IsMostCommon(votes, x) && IsMostCommon(votes, y)
    ensures x == y
  {
  }

  /** `MostCommon` is exactly the label the `most_common(1)` description singles out. */
  lemma MostCommonCharacterized<L>(votes: seq<L>, x: L)
    requires 0 < |votes|
    ensures x == MostCommon(votes) <==> IsMostCommon(votes, x)
  {
  }

  /** A unanimous vote elects the common label. */
  lemma MostCommonUnanimous<L>(votes: seq<L>, l: L)
    requires 0 < |votes|
    requires forall i :: 0 <= i < |votes| ==> votes[i] == l
    ensures MostCommon(votes) == l
  {
  }

  /** Two ones against a zero elect one; two-all is a tie won by the first-seen one. */
  lemma MostCommonExamples()
    ensures MostCommon([1, 1, 0]) == 1
    ensures MostCommon([1, 0, 1, 0]) == 1
  {
  }
}
