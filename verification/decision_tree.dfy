/**
 A binary decision tree over numeric records and its prediction walk
 (`predecir_arbol`).
 */
module DecisionTree {
  import opened Wrappers

  /** An instance: attribute name to numeric value. */
  type Record = map<string, int>

  /**
   A tree node. A terminal node carries the class it predicts; a split node
   sends records whose `atributo` value is below `valor` to `hijoMenor` and
   all others to `hijoMayor`. Every split node owns two children, so the
   tree is finite and acyclic by construction.
   */
  datatype Tree<L> =
    | Leaf(claseDefault: L)
    | Split(atributo: string, valor: int, hijoMenor: Tree<L>, hijoMayor: Tree<L>)

  /** The lookup error raised when a record lacks a split attribute on the path. */
  datatype PredictError = MissingAttribute(name: string)

  /** The classes stored in the terminal nodes of `t`. */
  ghost function Labels<L>(t: Tree<L>): set<L>
  {
    match t
    case Leaf(c) => {c}
    case Split(_, _, lo, hi) => Labels(lo) + Labels(hi)
  }

  /** The attributes tested by the split nodes of `t`. */
  ghost function Attributes<L>(t: Tree<L>): set<string>
  {
    match t
    case Leaf(_) => {}
    case Split(a, _, lo, hi) => {a} + Attributes(lo) + Attributes(hi)
  }

  /**
   Prediction of tree `t` for record `rec`: the class of the terminal node the
   walk reaches, or the missing attribute that stopped it.
   */
  function Predict<L>(t: Tree<L>, rec: Record): (r: Result<L, PredictError>)
    ensures r.Ok? ==> r.value in Labels(t)
    ensures r.Err? ==> r.error.name in Attributes(t) && r.error.name !in rec
    ensures Attributes(t) <= rec.Keys ==> r.Ok?
  {
    match t
    case Leaf(c) => Ok(c)
    case Split(a, v, lo, hi) =>
      if a !in rec then Err(MissingAttribute(a))
      else if rec[a] < v then Predict(lo, rec)
      else Predict(hi, rec)
  }

  /** The same walk written as a loop over a current node. */
  method PredictIterative<L>(t: Tree<L>, rec: Record) returns (r: Result<L, PredictError>)
    ensures r == Predict(t, rec)
  {
    var node := t;
    while node.Split?
      invariant Predict(node, rec) == Predict(t, rec)
      decreases node
    {
      if node.atributo !in rec {
        return Err(MissingAttribute(node.atributo));
      }
      if rec[node.atributo] < node.valor {
        node := node.hijoMenor;
      } else {
        node := node.hijoMayor;
      }
    }
    r := Ok(node.claseDefault);
  }

  /** A terminal node predicts its class whatever the record holds. */
  lemma LeafIgnoresRecord<L>(c: L, rec: Record)
    ensures Predict(Leaf(c), rec) == Ok(c)
  {
  }

  /**
   A split node defers to `hijoMenor` when the record's value is strictly
   below the threshold and to `hijoMayor` otherwise, equality included.
   */
  lemma SplitRouting<L>(a: string, v: int, lo: Tree<L>, hi: Tree<L>, rec: Record)
    requires a in rec
    ensures rec[a] < v ==> Predict(Split(a, v, lo, hi), rec) == Predict(lo, rec)
    ensures rec[a] >= v ==> Predict(Split(a, v, lo, hi), rec) == Predict(hi, rec)
  {
  }

  /** Two records that agree on every attribute of `t` (presence and value). */
  ghost predicate AgreeOn(r1: Record, r2: Record, attrs: set<string>)
  {
    forall a :: a in attrs ==> (a in r1 <==> a in r2) && (a in r1 ==> r1[a] == r2[a])
  }

  /** The prediction reads the record only at the attributes the tree tests. */
  lemma {:induction false} PredictReadsOnlyTreeAttributes<L>(t: Tree<L>, r1: Record, r2: Record)
    requires AgreeOn(r1, r2, Attributes(t))
    ensures Predict(t, r1) == Predict(t, r2)
  {
    match t
    case Leaf(_) =>
    case Split(a, v, lo, hi) =>
      assert a in Attributes(t);
      if a in r1 && r1[a] < v {
        PredictReadsOnlyTreeAttributes(lo, r1, r2);
      } else if a in r1 {
        PredictReadsOnlyTreeAttributes(hi, r1, r2);
      }
  }
}
