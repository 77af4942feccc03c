# Random forest ensemble — Dafny model

This project models the ensemble logic of a small random-forest classifier
(`bosque_aleatorio.py`): the walk of one decision tree over a record
(`predecir_arbol`), the forest predictor (`predecir_bosque`) both as it is
written and as its comments intend (majority vote), and forest training by
bootstrap resampling (`entrena_bosque`).

Modules:

- `Wrappers` (`wrappers.dfy`): `Option` and `Result`, standing for Python's
  `None` and for raised exceptions.
- `DecisionTree` (`decision_tree.dfy`): records (`map<string, int>`), the
  `Tree` datatype (terminal node with `claseDefault`, split node with
  `atributo`, `valor`, `hijoMenor`, `hijoMayor`), the recursive prediction,
  the same walk as a loop, and lemmas about routing and what the walk reads.
- `Routes` (`routes.dfy`): an independent path semantics of prediction (a
  route is the list of turns taken, checked step by step) and the proof that
  it agrees with the recursive walk, and that the route is unique.
- `Voting` (`voting.dfy`): `Counter(votes).most_common(1)[0][0]` — the label
  with most votes, ties going to the label seen first — with a declarative
  description, uniqueness and worked examples.
- `Forest` (`forest.dfy`): forest prediction as written and by majority vote.
- `Training` (`training.dfy`): forest training with the random draws and the
  tree trainer as parameters.

Randomness: `random.choices(datos, k=n)` is replaced by a caller-supplied
sequence of index sequences, one per round, each of length `n` with every
index below `n` (the `ValidDraws` precondition). The tree trainer
`entrena_arbol` is a function parameter returning either a tree or an error.

Edge cases the code decides:

- Empty data: `random.choices(datos, k=0)` returns `[]`, so the forest layer
  raises nothing and every round hands `[]` to the tree trainer.
  `TrainForest` accepts empty data; whatever happens next is up to the
  trainer parameter.
- The comment at `bosque_aleatorio.py:81` promises a majority vote; the
  `return` at line 82 sits inside the loop, so only the first tree is
  consulted (see Findings).
- `range(M)` with negative `M` runs no rounds, so the forest is empty
  (`Training.Range`).
- The defaults of `entrena_bosque` (`M=10`, `max_profundidad=None`,
  `acc_nodo=1.0`, `min_ejemplos=0`, `variables_por_nodo=None`) are the
  default values of `TrainForest`'s `m` and of the `Hyperparams` fields.

## Model

| member | source | states |
|---|---|---|
| `DecisionTree.Predict` | bosque_aleatorio.py:101-108 | a successful prediction is the class of some terminal node of the tree; a failure names an attribute the tree tests and the record lacks; a record holding every tested attribute always gets a class |
| `DecisionTree.PredictIterative` | bosque_aleatorio.py:101-108 | the walk written as a loop over a current node returns exactly the recursive prediction, errors included |
| `DecisionTree.LeafIgnoresRecord` | bosque_aleatorio.py:101-102 | a terminal node yields its class for every record, whatever it contains |
| `DecisionTree.SplitRouting` | bosque_aleatorio.py:104-108 | at a split node a value strictly below the threshold takes the lesser child, and any other value (equality included) the greater child |
| `DecisionTree.PredictReadsOnlyTreeAttributes` | bosque_aleatorio.py:104 | two records that agree on the attributes the tree tests get the same prediction: the walk reads nothing else |
| `Routes.RouteSound` | bosque_aleatorio.py:101-108 | every step-by-step valid route of a record ends at the terminal node whose class the prediction returns |
| `Routes.RouteComplete` | bosque_aleatorio.py:101-108 | a successful prediction has a valid route ending at a terminal node of that class |
| `Routes.PredictIffRoute` | bosque_aleatorio.py:101-108 | the prediction is class `c` if and only if some valid route of the record ends at a terminal node of class `c` |
| `Routes.MissingAttributeHasNoRoute` | bosque_aleatorio.py:104 | when a split attribute on the path is missing, the record has no valid route at all |
| `Routes.RouteUnique` | bosque_aleatorio.py:104-108 | the walk is deterministic: a record has at most one valid route through a tree |
| `Voting.LeaderIndex` | bosque_aleatorio.py:82 | scanning votes in order, the leader's label has at least the votes of every label seen, and it sits at or before every vote whose label ties with it |
| `Voting.MostCommon` | bosque_aleatorio.py:82 | the winner was voted for, no voted label has more votes, and its first vote precedes every vote for a label with as many votes |
| `Voting.NoLabelOutvotesMostCommon` | bosque_aleatorio.py:82 | no label at all, voted for or not, has strictly more votes than the winner |
| `Voting.MostCommonUnique` | bosque_aleatorio.py:82 | at most one label fits the most-common description, so the tie-break is deterministic |
| `Voting.MostCommonCharacterized` | bosque_aleatorio.py:82 | a label is the winner if and only if it fits the most-common description |
| `Voting.MostCommonUnanimous` | bosque_aleatorio.py:82 | a unanimous vote elects the common label |
| `Voting.MostCommonExamples` | bosque_aleatorio.py:82 | votes 1, 1, 0 elect 1; the tie 1, 0, 1, 0 goes to the first-seen 1 |
| `Forest.Votes` | bosque_aleatorio.py:74-79 | all trees vote, in forest order, vote `i` being tree `i`'s prediction; it fails exactly when some tree fails, and then with the error of the first failing tree |
| `Forest.PredictAsWritten` | bosque_aleatorio.py:74-82 | on a non-empty forest the result is the first tree's prediction (class or lookup error); an empty forest yields no label |
| `Forest.PredictMajority` | bosque_aleatorio.py:76-82 | the intended vote: an empty forest has no votes; otherwise it succeeds exactly when every tree does, returns the most common vote, which is some tree's prediction, and otherwise reports the first failing tree's error |
| `Forest.MajorityIsALeafOfSomeTree` | bosque_aleatorio.py:76-82 | the majority label is the class of a terminal node of some tree of the forest |
| `Forest.UnanimousForestAgrees` | bosque_aleatorio.py:74-82 | when every tree predicts the same class, the as-written and the majority predictor both return it |
| `Forest.AsWrittenIgnoresLaterTrees` | bosque_aleatorio.py:77-82 | as written, two forests with the same first tree predict the same, whatever the other trees are |
| `Forest.AsWrittenMissesMajority` | bosque_aleatorio.py:77-82 | for terminal trees voting 0, 1, 1 the as-written predictor answers 0 while the majority vote answers 1 |
| `Training.Bootstrap` | bosque_aleatorio.py:40 | a sample with replacement: as many records as drawn indices, and every record of the sample is a record of the data |
| `Training.Range` | bosque_aleatorio.py:39 | `range(M)` yields `0, 1, ..., M-1` in increasing order and nothing else, so `M` rounds, none when `M` is negative |
| `Training.OmittedSettingsTakeDefaults` | bosque_aleatorio.py:5-6 | a caller naming only the target, default class, depth and features per split gets `acc_nodo` 1.0 and `min_ejemplos` 0, and omitting depth and features gives `None` for both |
| `Training.BootstrapSamplesComeFromData` | bosque_aleatorio.py:36-40 | every round's sample has exactly as many records as the data, each of them a record of the data (drawn with replacement) |
| `Training.TrainForest` | bosque_aleatorio.py:35-56 | training succeeds exactly when every round's trainer call does; then the forest has one tree per round, tree `i` being the trainer's result on round `i`'s bootstrap sample with the same hyperparameters; otherwise the error is that of the first failing round |

## Left out

- `prueba_BA.py`: dataset download and parsing, train/test split and the
  accuracy/precision/recall/F1 metrics are I/O and third-party library glue.
- The internals of `entrena_arbol`: its module is not part of this model; it
  is a function parameter. Its own random choice of `variables_por_nodo`
  attributes per split is not modelled: the parameter is a plain function of
  sample and hyperparameters.
- `random.choices`: the draws are an explicit parameter; their distribution
  (uniform, independent) is not modelled.
- Floating-point attribute values and thresholds: values and thresholds are
  integers, compared with the same strict `<`. `acc_nodo` is carried as a
  `real` and only passed through.
- Malformed tree nodes (a non-terminal node without children, or a cycle):
  the `Tree` datatype rules them out, so the `AttributeError` or unbounded
  recursion they would cause in Python has no counterpart.
- Comparison errors between values of incomparable Python types do not arise
  with integer values.

## Findings

| source | as written | input that shows it | evidently intended | confidence | as-written member | corrected member |
|---|---|---|---|---|---|---|
| bosque_aleatorio.py:77-82 | the `return` of the vote sits inside the `for` loop, so the first tree's prediction is returned and the other trees are never consulted; an empty forest returns `None` | three terminal trees voting 0, 1, 1: the result is 0 | majority vote over all trees with `most_common(1)` semantics, giving 1 | high, not executed | `Forest.AsWrittenMissesMajority` (on `Forest.PredictAsWritten`) | `Forest.PredictMajority` |
