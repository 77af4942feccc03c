/**
 Forest training (`entrena_bosque`): `M` rounds of bootstrap resampling,
 one call of the tree trainer per round. The random source is a parameter:
 `draws[i]` holds the indices `random.choices` picks in round `i`. The tree
 trainer is a parameter too, since its code is not part of this model.
 */
module Training {
  import opened Wrappers
  import opened DecisionTree

  /**
   The settings handed unchanged to every tree trainer call:
   `target`, `clase_default`, `max_profundidad` (`None` for unbounded),
   `acc_nodo`, `min_ejemplos` and `variables_por_nodo`, with the same
   defaults as `entrena_bosque`.
   */
  datatype Hyperparams<L> = Hyperparams(
    target: string,
    claseDefault: L,
    maxProfundidad: Option<int> := None,
    accNodo: real := 1.0,
    minEjemplos: int := 0,
    variablesPorNodo: Option<int> := None)

  /** The settings a caller gets by naming only the target, the default class and the features per split. */
  lemma OmittedSettingsTakeDefaults<L>(target: string, claseDefault: L, depth: Option<int>, features: Option<int>)
    ensures Hyperparams(target, claseDefault, maxProfundidad := depth, variablesPorNodo := features).accNodo == 1.0
    ensures Hyperparams(target, claseDefault, maxProfundidad := depth, variablesPorNodo := features).minEjemplos == 0
    ensures Hyperparams(target, claseDefault).maxProfundidad == None
    ensures Hyperparams(target, claseDefault).variablesPorNodo == None
  {
  }

  /**
   Python's `range(m)`: the integers `0, 1, ..., m - 1` in increasing order,
   so `m` rounds, and none when `m` is negative.
   */
  function Range(m: int): (r: seq<int>)
    ensures |r| == if m < 0 then 0 else m
    ensures forall i :: 0 <= i < |r| ==> r[i] == i
    ensures forall k :: k in r <==> 0 <= k < m
  {
    if m <= 0 then [] else Range(m - 1) + [m - 1]
  }

  /**
   What `random.choices(datos, k=n)` draws, round after round: one index
   sequence of length `n` per round, every index a position of the data.
   */
  ghost predicate ValidDraws(draws: seq<seq<nat>>, rounds: nat, n: nat)
  {
    && |draws| == rounds
    && forall r :: 0 <= r < |draws| ==> |draws[r]| == n && forall j :: 0 <= j < n ==> draws[r][j] < n
  }

  /**
   The sample with replacement that the indices `idx` select from `datos`:
   one record per index, the record at that index, so every record of the
   sample is a record of the data.
   */
  function Bootstrap(datos: seq<Record>, idx: seq<nat>): (s: seq<Record>)
    requires forall j :: 0 <= j < |idx| ==> idx[j] < |datos|
    ensures |s| == |idx|
    ensures forall x :: x in s ==> x in datos
    ensures forall j :: 0 <= j < |s| ==> s[j] == datos[idx[j]]
  {
    seq(|idx|, j requires 0 <= j < |idx| => datos[idx[j]])
  }

  /** Every bootstrap sample has as many records as the data, all of them taken from it. */
  lemma BootstrapSamplesComeFromData(datos: seq<Record>, draws: seq<seq<nat>>, m: int)
    requires ValidDraws(draws, |Range(m)|, |datos|)
    ensures forall i :: 0 <= i < |Range(m)| ==> |Bootstrap(datos, draws[i])| == |datos|
    ensures forall i, x :: 0 <= i < |Range(m)| && x in Bootstrap(datos, draws[i]) ==> x in datos
  {
  }

  /** The tree trainer's outcome in round `i`. */
  function Round<L, E>(
    datos: seq<Record>, params: Hyperparams<L>, draws: seq<seq<nat>>, i: nat,
    entrenaArbol: (seq<Record>, Hyperparams<L>) -> Result<Tree<L>, E>): Result<Tree<L>, E>
    requires i < |draws| && forall j :: 0 <= j < |draws[i]| ==> draws[i][j] < |datos|
  {
    entrenaArbol(Bootstrap(datos, draws[i]), params)
  }

  /** Round `i` is the first round whose tree trainer call fails. */
  ghost predicate FirstFailedRound<L, E>(
    datos: seq<Record>, params: Hyperparams<L>, draws: seq<seq<nat>>, i: int,
    entrenaArbol: (seq<Record>, Hyperparams<L>) -> Result<Tree<L>, E>)
    requires forall k :: 0 <= k < |draws| ==> forall j :: 0 <= j < |draws[k]| ==> draws[k][j] < |datos|
  {
    && 0 <= i < |draws|
    && Round(datos, params, draws, i, entrenaArbol).Err?
    && forall j :: 0 <= j < i ==> Round(datos, params, draws, j, entrenaArbol).Ok?
  }

  /**
   `entrena_bosque`: for each of the `M` rounds, train a tree on that round's
   bootstrap sample and append it. A trainer failure ends training with that
   failure, as the Python exception would.
   */
  method TrainForest<L, E>(
    datos: seq<Record>, params: Hyperparams<L>, draws: seq<seq<nat>>,
    entrenaArbol: (seq<Record>, Hyperparams<L>) -> Result<Tree<L>, E>, m: int := 10)
    returns (r: Result<seq<Tree<L>>, E>)
    requires ValidDraws(draws, |Range(m)|, |datos|)
    ensures r.Ok? <==> forall i :: 0 <= i < |Range(m)| ==> Round(datos, params, draws, i, entrenaArbol).Ok?
    ensures r.Ok? ==> |r.value| == |Range(m)|
    ensures r.Ok? ==> forall i :: 0 <= i < |Range(m)| ==>
              Round(datos, params, draws, i, entrenaArbol) == Ok(r.value[i])
    ensures r.Err? ==> exists i :: FirstFailedRound(datos, params, draws, i, entrenaArbol)
                                   && Round(datos, params, draws, i, entrenaArbol) == Err(r.error)
  {
    var bosque: seq<Tree<L>> := [];
    var rounds := |Range(m)|;
    var i := 0;
    while i < rounds
      invariant 0 <= i <= rounds
      invariant |bosque| == i
      invariant forall k :: 0 <= k < i ==> Round(datos, params, draws, k, entrenaArbol) == Ok(bosque[k])
    {
      var subconjunto := Bootstrap(datos, draws[i]);
      match entrenaArbol(subconjunto, params)
      case Err(e) =>
        assert FirstFailedRound(datos, params, draws, i, entrenaArbol);
        return Err(e);
      case Ok(arbol) =>
        bosque := bosque + [arbol];
      i := i + 1;
    }
    r := Ok(bosque);
  }
}
