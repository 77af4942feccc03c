/**
 Forest prediction (`predecir_bosque`): the function as written, which
 returns inside the loop after the first tree, and the majority vote its
 comments describe.
 */
module Forest {
  import opened Wrappers
  import opened DecisionTree
  import opened Voting

  /** Why the majority vote produced no label. */
  datatype ForestError =
    | TreeFailed(cause: PredictError)  // a tree's walk hit a missing attribute
    | NoVotes                          // an empty forest: `most_common(1)` is empty

  /** The first tree whose walk fails for `rec` is tree `i`. */
  ghost predicate FirstFailure<L>(forest: seq<Tree<L>>, rec: Record, i: int)
  {
    && 0 <= i < |forest|
    && Predict(forest[i], rec).Err?
    && forall j :: 0 <= j < i ==> Predict(forest[j], rec).Ok?
  }

  /** One vote per tree, in forest order; the first failing tree aborts the collection. */
  function Votes<L>(forest: seq<Tree<L>>, rec: Record): (r: Result<seq<L>, PredictError>)
    ensures r.Ok? <==> forall i :: 0 <= i < |forest| ==> Predict(forest[i], rec).Ok?
    ensures r.Ok? ==> |r.value| == |forest|
    ensures r.Ok? ==> forall i :: 0 <= i < |forest| ==> Predict(forest[i], rec) == Ok(r.value[i])
    ensures r.Err? ==> exists i :: FirstFailure(forest, rec, i) && Predict(forest[i], rec) == Err(r.error)
  {
    if |forest| == 0 then Ok([])
    else
      match Predict(forest[0], rec)
      case Err(e) =>
        assert FirstFailure(forest, rec, 0);
        Err(e)
      case Ok(l) =>
        match Votes(forest[1..], rec)
        case Err(e) =>
          assert exists k :: FirstFailure(forest, rec, k) && Predict(forest[k], rec) == Err(e) by {
            var i :| FirstFailure(forest[1..], rec, i) && Predict(forest[1..][i], rec) == Err(e);
            assert FirstFailure(forest, rec, i + 1);
          }
          Err(e)
        case Ok(rest) =>
          assert forall i :: 0 < i < |forest| ==> forest[i] == forest[1..][i - 1];
          Ok([l] + rest)
  }

  /**
   `predecir_bosque` as written: the vote is taken inside the loop, so it
   returns `most_common(1)` of the first tree's single prediction, and an
   empty forest falls off the end of the function and yields `None`.
   */
  function PredictAsWritten<L(==)>(forest: seq<Tree<L>>, rec: Record): (r: Result<Option<L>, PredictError>)
    ensures |forest| == 0 ==> r == Ok(None)
    ensures 0 < |forest| ==> (r.Ok? <==> Predict(forest[0], rec).Ok?)
    ensures 0 < |forest| && r.Ok? ==> r.value == Some(Predict(forest[0], rec).value)
    ensures 0 < |forest| && r.Err? ==> r.error == Predict(forest[0], rec).error
  {
    if |forest| == 0 then Ok(None)
    else
      match Predict(forest[0], rec)
      case Err(e) => Err(e)
      case Ok(l) => Ok(Some(MostCommon([l])))
  }

  /**
   The majority vote the comments promise: every tree votes, and the label
   `most_common(1)` picks wins.
   */
  function PredictMajority<L(==)>(forest: seq<Tree<L>>, rec: Record): (r: Result<L, ForestError>)
    ensures |forest| == 0 ==> r == Err(NoVotes)
    ensures r.Ok? <==> 0 < |forest| && forall i :: 0 <= i < |forest| ==> Predict(forest[i], rec).Ok?
    ensures r.Ok? ==> IsMostCommon(Votes(forest, rec).value, r.value)
    ensures r.Ok? ==> exists i :: 0 <= i < |forest| && Predict(forest[i], rec) == Ok(r.value)
    ensures r.Err? && 0 < |forest| ==> exists i :: FirstFailure(forest, rec, i) && r.error == TreeFailed(Predict(forest[i], rec).error)
  {
    match Votes(forest, rec)
    case Err(e) => Err(TreeFailed(e))
    case Ok(votes) =>
      if |votes| == 0 then Err(NoVotes)
      else
        var w := MostCommon(votes);
        assert votes[FirstIndex(votes, w)] == w;
        Ok(w)
  }

  /** The majority winner is the class of a terminal node of some tree of the forest. */
  lemma MajorityIsALeafOfSomeTree<L>(forest: seq<Tree<L>>, rec: Record)
    requires PredictMajority(forest, rec).Ok?
    ensures exists i :: 0 <= i < |forest| && PredictMajority(forest, rec).value in Labels(forest[i])
  {
  }

  /** When every tree predicts the same class, both versions return it. */
  lemma UnanimousForestAgrees<L>(forest: seq<Tree<L>>, rec: Record, l: L)
    requires 0 < |forest|
    requires forall i :: 0 <= i < |forest| ==> Predict(forest[i], rec) == Ok(l)
    ensures PredictMajority(forest, rec) == Ok(l)
    ensures PredictAsWritten(forest, rec) == Ok(Some(l))
  {
  }

  /** As written, every tree after the first is ignored. */
  lemma AsWrittenIgnoresLaterTrees<L>(forest: seq<Tree<L>>, other: seq<Tree<L>>, rec: Record)
    requires 0 < |forest| && 0 < |other| && forest[0] == other[0]
    ensures PredictAsWritten(forest, rec) == PredictAsWritten(other, rec)
  {
  }

  /**
   The as-written function disagrees with the majority vote: of three
   terminal trees voting 0, 1, 1 it answers 0, while the vote elects 1.
   */
  lemma AsWrittenMissesMajority(rec: Record)
    ensures PredictAsWritten([Leaf(0), Leaf(1), Leaf(1)], rec) == Ok(Some(0))
    ensures PredictMajority([Leaf(0), Leaf(1), Leaf(1)], rec) == Ok(1)
  {
    var forest: seq<Tree<int>> := [Leaf(0), Leaf(1), Leaf(1)];
    var votes := Votes(forest, rec).value;
    assert votes == [0, 1, 1];
    assert multiset(votes)[1] == 2 && multiset(votes)[0] == 1;
    MostCommonCharacterized(votes, 1);
  }
}
