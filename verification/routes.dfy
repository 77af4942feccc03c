/**
 Path semantics of a decision tree: a route is the sequence of turns the
 walk takes (`true` for `hijoMayor`), and it is valid for a record when each
 turn is the one the record's value decides at the node reached so far and
 the route ends at a terminal node. This is a reference definition of
 prediction that does not recurse on the tree.
 */
module Routes {
  import opened Wrappers
  import opened DecisionTree

  /** The node reached from `t` by following `path`, if the path stays inside the tree. */
  function Follow<L>(t: Tree<L>, path: seq<bool>): Option<Tree<L>>
    decreases |path|
  {
    if |path| == 0 then Some(t)
    else match t
      case Leaf(_) => None
      case Split(_, _, lo, hi) => Follow(if path[0] then hi else lo, path[1..])
  }

  /** Node `n` is a split whose attribute `rec` holds, and the record sends the walk the way `toMayor` says. */
  ghost predicate StepTaken<L>(n: Option<Tree<L>>, rec: Record, toMayor: bool)
  {
    && n.Some?
    && n.value.Split?
    && n.value.atributo in rec
    && toMayor == (rec[n.value.atributo] >= n.value.valor)
  }

  /** `path` is the walk `rec` takes through `t`, ending at a terminal node. */
  ghost predicate IsRoute<L>(t: Tree<L>, rec: Record, path: seq<bool>)
  {
    && (forall i :: 0 <= i < |path| ==> StepTaken(Follow(t, path[..i]), rec, path[i]))
    && Follow(t, path).Some?
    && Follow(t, path).value.Leaf?
  }

  /** Following a non-empty path from a split node is following its tail from the chosen child. */
  lemma FollowPrefix<L>(a: string, v: int, lo: Tree<L>, hi: Tree<L>, path: seq<bool>, i: nat)
    requires 0 < |path| && i < |path|
    ensures Follow(Split(a, v, lo, hi), path[..i + 1])
         == Follow(if path[0] then hi else lo, path[1..][..i])
  {
    assert path[..i + 1][1..] == path[1..][..i];
  }

  /** A route into the chosen child, prefixed by the turn at the root, is a route of the split node. */
  lemma RouteExtend<L>(t: Tree<L>, rec: Record, q: seq<bool>)
    requires t.Split? && t.atributo in rec
    requires IsRoute(if rec[t.atributo] >= t.valor then t.hijoMayor else t.hijoMenor, rec, q)
    ensures IsRoute(t, rec, [rec[t.atributo] >= t.valor] + q)
    ensures Follow(t, [rec[t.atributo] >= t.valor] + q)
         == Follow(if rec[t.atributo] >= t.valor then t.hijoMayor else t.hijoMenor, q)
  {
    var b := rec[t.atributo] >= t.valor;
    var p := [b] + q;
    assert p[1..] == q;
    forall i | 0 <= i < |p|
      ensures StepTaken(Follow(t, p[..i]), rec, p[i])
    {
      if i == 0 {
        assert p[..0] == [];
      } else {
        FollowPrefix(t.atributo, t.valor, t.hijoMenor, t.hijoMayor, p, i - 1);
      }
    }
  }

  /** A route of a split node starts with the turn the record decides and continues with a route of that child. */
  lemma RouteTail<L>(t: Tree<L>, rec: Record, p: seq<bool>)
    requires t.Split? && IsRoute(t, rec, p)
    ensures 0 < |p| && t.atributo in rec && p[0] == (rec[t.atributo] >= t.valor)
    ensures IsRoute(if p[0] then t.hijoMayor else t.hijoMenor, rec, p[1..])
    ensures Follow(t, p) == Follow(if p[0] then t.hijoMayor else t.hijoMenor, p[1..])
  {
    assert 0 < |p|;
    assert p[..0] == [];
    assert StepTaken(Follow(t, p[..0]), rec, p[0]);
    var child := if p[0] then t.hijoMayor else t.hijoMenor;
    forall i | 0 <= i < |p[1..]|
      ensures StepTaken(Follow(child, p[1..][..i]), rec, p[1..][i])
    {
      FollowPrefix(t.atributo, t.valor, t.hijoMenor, t.hijoMayor, p, i);
      assert StepTaken(Follow(t, p[..i + 1]), rec, p[i + 1]);
    }
  }

  /** Every valid route ends at the terminal node whose class `Predict` returns. */
  lemma {:induction false} RouteSound<L>(t: Tree<L>, rec: Record, p: seq<bool>)
    requires IsRoute(t, rec, p)
    ensures Predict(t, rec) == Ok(Follow(t, p).value.claseDefault)
  {
    match t
    case Leaf(_) =>
    case Split(a, v, lo, hi) =>
      RouteTail(t, rec, p);
      RouteSound(if p[0] then hi else lo, rec, p[1..]);
  }

  /** A successful prediction has a route ending at a terminal node of that class. */
  lemma {:induction false} RouteComplete<L>(t: Tree<L>, rec: Record)
    requires Predict(t, rec).Ok?
    ensures exists p :: IsRoute(t, rec, p) && Follow(t, p) == Some(Leaf(Predict(t, rec).value))
  {
    match t
    case Leaf(c) =>
      assert IsRoute(t, rec, []) && Follow(t, []) == Some(Leaf(c));
    case Split(a, v, lo, hi) =>
      var child := if rec[a] >= v then hi else lo;
      RouteComplete(child, rec);
      var q :| IsRoute(child, rec, q) && Follow(child, q) == Some(Leaf(Predict(child, rec).value));
      RouteExtend(t, rec, q);
      var p := [rec[a] >= v] + q;
      assert IsRoute(t, rec, p) && Follow(t, p) == Some(Leaf(Predict(t, rec).value));
  }

  /** `Predict` returns class `c` exactly when some valid route of `rec` ends at a terminal node of class `c`. */
  lemma PredictIffRoute<L>(t: Tree<L>, rec: Record, c: L)
    ensures Predict(t, rec) == Ok(c) <==> exists p :: IsRoute(t, rec, p) && Follow(t, p) == Some(Leaf(c))
  {
    if Predict(t, rec) == Ok(c) {
      RouteComplete(t, rec);
    }
    if p :| IsRoute(t, rec, p) && Follow(t, p) == Some(Leaf(c)) {
      RouteSound(t, rec, p);
    }
  }

  /** A lookup error means the record has no valid route at all. */
  lemma MissingAttributeHasNoRoute<L>(t: Tree<L>, rec: Record, p: seq<bool>)
    requires Predict(t, rec).Err?
    ensures !IsRoute(t, rec, p)
  {
    if IsRoute(t, rec, p) {
      RouteSound(t, rec, p);
    }
  }

  /** The walk is deterministic: a record has at most one valid route. */
  lemma {:induction false} RouteUnique<L>(t: Tree<L>, rec: Record, p: seq<bool>, q: seq<bool>)
    requires IsRoute(t, rec, p) && IsRoute(t, rec, q)
    ensures p == q
  {
    match t
    case Leaf(_) =>
    case Split(_, _, lo, hi) =>
      RouteTail(t, rec, p);
      RouteTail(t, rec, q);
      RouteUnique(if p[0] then hi else lo, rec, p[1..], q[1..]);
      assert p == [p[0]] + p[1..];
      assert q == [q[0]] + q[1..];
  }
}
