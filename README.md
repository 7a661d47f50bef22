# Fishing-game minimax agent: search and evaluation engine

This project models the decision engine of a two-player fishing game agent,
where each player steers a hook and scores by catching fish. The model covers
the two searchers and their evaluators.

- `minmax.py`: the `minmax` searcher. It runs iterative deepening over the
  root children. Each iteration is a depth-limited alpha-beta search that
  keeps a transposition table and a depth table, keyed by a fingerprint of the
  hook and fish positions. Cut-offs are scored by a normalised-distance
  extremum.
- `help.py`: `MinimaxModel`. It builds a fish score table and a fish type
  table. It scores a position by a x100 score term with pending-catch bonus,
  collapses terminal positions to +inf, -inf or 0, and adds a proximity
  term. It picks the root child with the first strictly best value.

The game engine is an explicit finite tree (`GameTree.Node`). Each node holds
a read-only snapshot, the move that produced it and its ordered children.
Values are reals extended with -inf and +inf (`Extended.Ext`). Python's
`max(a, b)` and `min(a, b)` keep their first argument on ties.

Stateful code is imperative Dafny, proved against specification functions:

- Class `MinmaxAgent.Minmax` owns the two tables, and its recursive
  `AlphaBetaSearch` is proved equal to the function `AlphaBeta.Search`.
  `BestMove` is proved equal to `Deepening.RootValues` followed by
  `Selection.FirstArgmax`.
- `Extremum.Heuristic` is a loop proved equal to `Extremum.HeuristicValue`.
- Class `ModelAgent.MinimaxModel` owns the fish tables. Its methods are
  proved against `FishTables.ScoreTable`, `Evaluator.HeuristicValue` and
  `MoveChoice.ChooseMove`.

The properties are proved about those functions:

- minimax agreement of the pruned search;
- the behaviour of the depth-inequality cache test;
- the first-index argmax;
- the zero-sum score term;
- the density of the fish type enumeration.

The wall clock is an oracle. The k-th reading reports the time budget spent
exactly when `expired(k)` (`timeUp(k)` in `next_move`). Python's `hash` is a
`Fingerprint.Hasher` of two arbitrary functions, so fingerprints may collide,
as in the source. `help.py` never imports `math`, so `math.inf` and `math.exp`
cannot resolve there. The model assumes they resolve. `e^(-2d)` is the
parameter `decay`.

Where the code and its documentation disagree, the model follows the code:

- The cache is used when the recorded depth *differs* from the requested one
  (`minmax.py:77`), not when it is equal.
  `AlphaBetaProperties.DeeperSearchHitsCache` and
  `Deepening.DeepeningCollapses` prove the consequence. When the first
  deepening iteration on a root child is not a cache hit, every later
  iteration returns that child's static evaluation, which the first one
  stored. The tables persist across root children, so the first iteration
  can itself be a hit. `Deepening.LaterIterationsHit` covers that general
  case: once the child's entry is recorded below the next iteration's depth,
  every remaining iteration returns that entry.
- A searched node without children returns -inf to player 0 and +inf to
  player 1 (`minmax.py:92,105`), not its static evaluation.
- The "not caught" test of `minmax.heuristic` (`minmax.py:127`) compares a
  fish position with the pair of caught fish ids, so it never excludes a fish.
  The model considers every fish on the board.

## Model

| member | source | states |
|---|---|---|
| Fingerprint.HashState | minimax_assignment/minmax.py:12-20 | definition: the fingerprint combines the hash of the hook-position items and the hash of the fish-position items |
| Fingerprint.SameMapsSameFingerprint | minimax_assignment/minmax.py:12-20 | two snapshots with the same hook and fish maps get the same fingerprint, whatever the player to move |
| Fingerprint.InjectiveFingerprintSeparates | minimax_assignment/minmax.py:12-20 | with a collision-free hasher, fingerprints are equal iff the hook maps and the fish maps are equal |
| Extended.Max | minimax_assignment/minmax.py:96-97 | `max(a, b)` is at least both arguments and is one of them |
| Extended.Min | minimax_assignment/minmax.py:109-110 | `min(a, b)` is at most both arguments and is one of them |
| Extremum.SqDist | minimax_assignment/minmax.py:130-133 | helper: a squared hook-to-fish distance is non-negative |
| Extremum.LeastGapFish | minimax_assignment/minmax.py:125-138 | picks a contributing fish whose normalised gap is no larger than any other's |
| Extremum.HeuristicValue | minimax_assignment/minmax.py:117-140 | definition: +inf when no fish has a non-negative score, otherwise the least normalised gap over those fish |
| Extremum.HeuristicIsMinimum | minimax_assignment/minmax.py:122-140 | the evaluation is +inf iff no fish has a non-negative score; otherwise it is the gap of such a fish and at most every such fish's gap |
| Extremum.MinimumIsHeuristic | minimax_assignment/minmax.py:122-140 | any value that is +inf or a listed gap, and is at most every gap, is the evaluation |
| Extremum.ListMin | minimax_assignment/minmax.py:140 | `min` of a non-empty list is an element of the list and at most every element |
| Extremum.Heuristic | minimax_assignment/minmax.py:117-140 | the loop that collects gaps into a list seeded with +inf, then takes its min, computes the evaluation |
| AlphaBeta.Hit | minimax_assignment/minmax.py:77 | definition: the fingerprint is in the table and was recorded at a depth other than the requested one |
| AlphaBeta.Record | minimax_assignment/minmax.py:82-83 | definition: the fingerprint's depth becomes the visit's depth and its value the static evaluation |
| AlphaBeta.Search | minimax_assignment/minmax.py:58-115 | a search keeps both tables on the same keys; the clock and hit counters only grow |
| AlphaBeta.MaxLoop | minimax_assignment/minmax.py:91-102 | the maximising loop keeps both tables on the same keys; the counters only grow |
| AlphaBeta.MinLoop | minimax_assignment/minmax.py:104-115 | the minimising loop keeps both tables on the same keys; the counters only grow |
| AlphaBeta.SearchEvolves | minimax_assignment/minmax.py:77-83 | a search removes no key, and every depth it records is at most its own depth or was already there |
| AlphaBeta.MaxLoopEvolves | minimax_assignment/minmax.py:91-102 | the maximising loop changes the tables only as a search at its depth may |
| AlphaBeta.MinLoopEvolves | minimax_assignment/minmax.py:104-115 | the minimising loop changes the tables only as a search at its depth may |
| AlphaBeta.MaxLoopCut | minimax_assignment/minmax.py:94-99 | helper: a beta cut-off at the first child ends the loop with that child's result taken into the best value, without reading the clock |
| AlphaBeta.MaxLoopOut | minimax_assignment/minmax.py:100-101 | helper: otherwise a clock reading that reports the budget spent ends the loop after that reading |
| AlphaBeta.MaxLoopNext | minimax_assignment/minmax.py:93-101 | helper: otherwise the loop goes on with the remaining children, the raised best value and alpha, and one more clock reading |
| AlphaBeta.MinLoopCut | minimax_assignment/minmax.py:107-112 | helper: an alpha cut-off at the first child ends the loop with that child's result taken into the best value, without reading the clock |
| AlphaBeta.MinLoopOut | minimax_assignment/minmax.py:113-114 | helper: otherwise a clock reading that reports the budget spent ends the loop after that reading |
| AlphaBeta.MinLoopNext | minimax_assignment/minmax.py:106-114 | helper: otherwise the loop goes on with the remaining children, the lowered best value and beta, and one more clock reading |
| AlphaBeta.MaxLoopStep | minimax_assignment/minmax.py:93-101 | helper: one child of the maximising loop: beta cut-off, clock check, or continue with the raised value and alpha |
| AlphaBeta.MinLoopStep | minimax_assignment/minmax.py:106-114 | helper: one child of the minimising loop: alpha cut-off, clock check, or continue with the lowered value and beta |
| AlphaBetaProperties.SearchAtDepthZero | minimax_assignment/minmax.py:72-73 | at depth 0 the result is the static evaluation and the state is unchanged |
| AlphaBetaProperties.SearchOnHit | minimax_assignment/minmax.py:77-78 | on a hit the stored value is returned, with tables and clock unchanged |
| AlphaBetaProperties.SearchKeepsDeeperEntry | minimax_assignment/minmax.py:77-83 | an entry recorded at a depth greater than the search's survives the search unchanged: a node below with that fingerprint is a hit |
| AlphaBetaProperties.MaxLoopKeepsDeeperEntry | minimax_assignment/minmax.py:91-102 | the same for the maximising loop |
| AlphaBetaProperties.MinLoopKeepsDeeperEntry | minimax_assignment/minmax.py:104-115 | the same for the minimising loop |
| AlphaBetaProperties.VisitLeavesEntry | minimax_assignment/minmax.py:82-83 | after a visit that is not a hit, the fingerprint's entry is exactly the visit's depth and the node's static evaluation |
| AlphaBetaProperties.DeeperSearchHitsCache | minimax_assignment/minmax.py:77-83 | after a visit at depth d that is not a hit, a search of the same node at any greater depth is a hit: it returns the node's static evaluation and only counts the hit |
| AlphaBetaProperties.ChildlessSentinel | minimax_assignment/minmax.py:91-115 | a visited node without children is worth -inf to player 0 and +inf to player 1 |
| AlphaBetaProperties.SearchBracketsMinimax | minimax_assignment/minmax.py:58-115 | with no hits and no time-out, the result equals depth-limited minimax when strictly inside (alpha, beta); at or below alpha it bounds minimax from above; at or above beta, from below |
| AlphaBetaProperties.MaxLoopBrackets | minimax_assignment/minmax.py:91-102 | the same fail-soft relation for the maximising loop against the max of the children's minimax values |
| AlphaBetaProperties.MinLoopBrackets | minimax_assignment/minmax.py:104-115 | the same fail-soft relation for the minimising loop against the min of the children's minimax values |
| AlphaBetaProperties.FullWindowIsMinimax | minimax_assignment/minmax.py:41-42 | with the window (-inf, +inf) that the driver uses, no hits and no time-out, the search returns exactly minimax |
| Deepening.Iterate | minimax_assignment/minmax.py:41-48 | one deepening iteration keeps a value at least its result; the result replaces the kept value when the clock reports the budget spent |
| Deepening.Deepen | minimax_assignment/minmax.py:38-48 | the deepening of a child yields one result per iteration, 20 in all, with consistent tables |
| Deepening.DeepenStep | minimax_assignment/minmax.py:40-48 | helper: iterations i onwards keep and leave what iterations i+1 onwards keep and leave after iteration i, whose result heads the list |
| Deepening.Collect | minimax_assignment/minmax.py:37-50 | the values collected so far stay in place, and one value is added per remaining root child |
| Deepening.RootValues | minimax_assignment/minmax.py:36-51 | definition: one kept value per root child, with consistent tables; `RootValueIsDeepening` ties each value to its own child |
| Deepening.CollectNext | minimax_assignment/minmax.py:37-50 | the value collected for child c is the result of deepening that child from the state the earlier children left |
| Deepening.RootValuesHead | minimax_assignment/minmax.py:37-50 | the first root child's value is its deepening from the starting state |
| Deepening.StateBefore | minimax_assignment/minmax.py:37-50 | definition: the tables and clock the root children before c leave, each deepened in turn |
| Deepening.CollectAt | minimax_assignment/minmax.py:37-50 | helper: collecting from child i on, every later child c gets the kept value of its own deepening from the state the children before it left |
| Deepening.RootValueIsDeepening | minimax_assignment/minmax.py:37-50 | the value of every root child c, not only the first, is the result of deepening child c from the state the children before it left |
| Deepening.KeepsMaximumPrepend | minimax_assignment/minmax.py:47-48 | helper: an iteration that keeps the larger of the old value and its result, followed by iterations that keep the maximum, keeps the maximum |
| Deepening.KeepsMaximumStep | minimax_assignment/minmax.py:40-48 | helper: the same step stated on `Deepen` |
| Deepening.DeepeningKeepsMaximum | minimax_assignment/minmax.py:38-48 | without time-outs the kept value is at least the seed and every iteration's result, and is the seed or one of the results |
| Deepening.LaterIterationsHit | minimax_assignment/minmax.py:40-42 | once a child's entry was recorded below the next iteration's depth, every remaining iteration returns that entry |
| Deepening.DeepeningCollapses | minimax_assignment/minmax.py:40-42 | if the first iteration on a child is not a hit, every later iteration returns the child's static evaluation |
| Deepening.RootValuesKeepMaximum | minimax_assignment/minmax.py:37-54 | without time-outs, the value each root child is ranked by is the maximum of its 20 search results: at least every result, and one of them or the -inf seed |
| Selection.FirstArgmax | minimax_assignment/minmax.py:54 | an index whose value is at least every value and strictly above every earlier value |
| Selection.FirstArgmaxStep | minimax_assignment/minmax.py:54 | scanning one more value moves the index exactly when that value is strictly larger |
| Selection.BestSoFarStep | minimax_assignment/help.py:35-38 | scanning one more value makes it the first argmax exactly when it is strictly above the best so far; otherwise the best so far stays the first argmax's value |
| Selection.FirstArgmaxUnique | minimax_assignment/minmax.py:54 | a largest index with every earlier value strictly smaller is the first argmax |
| Selection.FirstArgmaxStopsAtTop | minimax_assignment/help.py:41-42 | once the best value so far is +inf, the remaining values cannot change the first argmax |
| Selection.ListMax | minimax_assignment/minmax.py:54 | `max` of a non-empty list is the value at the first largest index |
| Selection.IndexOf | minimax_assignment/minmax.py:54 | `index` returns the first position holding the value |
| Selection.IndexOfMax | minimax_assignment/minmax.py:54 | `best_values.index(max(best_values))` is the first largest index |
| Selection.FirstImprovement | minimax_assignment/help.py:29-44 | no index iff every value is -inf; otherwise the first largest index, whose value is above -inf |
| MinmaxAgent.Minmax.constructor | minimax_assignment/minmax.py:8-10 | both tables start empty |
| MinmaxAgent.Minmax.TimeUp | minimax_assignment/minmax.py:44 | a clock reading consults the oracle at the current reading count, advances the count and changes nothing else |
| MinmaxAgent.Minmax.AlphaBetaSearch | minimax_assignment/minmax.py:58-115 | the recursive search returns the value of `Search` and leaves exactly its tables and counters |
| MinmaxAgent.Minmax.Expand | minimax_assignment/minmax.py:82-115 | a visit that is neither at depth 0 nor a hit records the node, then runs the loop of the side to move, as `Search` does |
| MinmaxAgent.Minmax.MaxChild | minimax_assignment/minmax.py:94-101 | one round of the maximising loop: the loop stops here with the value `MaxLoop` gives, or continues to the same final result from the next child |
| MinmaxAgent.Minmax.MinChild | minimax_assignment/minmax.py:107-114 | one round of the minimising loop: the loop stops here with the value `MinLoop` gives, or continues to the same final result from the next child |
| MinmaxAgent.Minmax.MaximiseOver | minimax_assignment/minmax.py:91-102 | the maximising loop over the children computes `MaxLoop` from -inf |
| MinmaxAgent.Minmax.MinimiseOver | minimax_assignment/minmax.py:104-115 | the minimising loop over the children computes `MinLoop` from +inf |
| MinmaxAgent.Minmax.DeepenOnce | minimax_assignment/minmax.py:41-48 | one deepening iteration computes the kept value and state of `Iterate` |
| MinmaxAgent.Minmax.DeepenChild | minimax_assignment/minmax.py:38-48 | the 20-iteration loop for one child computes the kept value and state of `Deepen` |
| MinmaxAgent.Minmax.DeepenAll | minimax_assignment/minmax.py:37-51 | the loop over the root children computes `RootValues` |
| MinmaxAgent.Minmax.BestMove | minimax_assignment/minmax.py:22-56 | no move when the root has no children; otherwise the move of the first child with the largest deepened value, and the tables `RootValues` leaves |
| FishTables.OccursAtShift | minimax_assignment/help.py:13 | helper: an occurrence after the first character is an occurrence in the rest of the string |
| FishTables.Find | minimax_assignment/help.py:13 | the first occurrence of the separator, or none when it does not occur |
| FishTables.SecondPiece | minimax_assignment/help.py:13 | `split('fish')[1]` exists iff the key contains "fish" |
| FishTables.ParseDecimal | minimax_assignment/help.py:13 | a number is read iff the text is a non-empty run of decimal digits |
| FishTables.Decimal | minimax_assignment/help.py:13 | a number's rendering is non-empty decimal digits without a leading zero |
| FishTables.ParseDecimalInvertsDecimal | minimax_assignment/help.py:13 | reading back a rendered number gives the number |
| FishTables.FishId | minimax_assignment/help.py:13 | a key yields a non-negative id or fails for lack of "fish" or of a number |
| FishTables.NoFishInDecimal | minimax_assignment/help.py:13 | a rendered number never contains "fish" |
| FishTables.FishKeyRoundTrip | minimax_assignment/help.py:13 | the key "fish" followed by n names fish n |
| FishTables.ScoreTable | minimax_assignment/help.py:12-13 | the table is built iff every entry other than "game_over" has a readable id and a score |
| FishTables.ScoreTableKeepsError | minimax_assignment/help.py:13 | the first unreadable entry's error is the table's error |
| FishTables.ScoreTableKeys | minimax_assignment/help.py:12-13 | the table's fish are exactly the ids of the entries other than "game_over" |
| FishTables.ScoreTableLastWins | minimax_assignment/help.py:13 | a fish's score comes from the last entry naming it |
| FishTables.TypeTable | minimax_assignment/help.py:15 | every fish of the score table gets a type |
| FishTables.RankIncreases | minimax_assignment/help.py:14 | a larger score gets a larger type index |
| FishTables.RankBounded | minimax_assignment/help.py:14 | a score's type index is below the number of distinct scores |
| FishTables.TypesEnumerateScores | minimax_assignment/help.py:14-15 | two fish share a type iff they share a score; every type is below the number of distinct scores |
| FishTables.Largest | minimax_assignment/help.py:14 | a non-empty set of scores has a largest member |
| FishTables.RanksAreDense | minimax_assignment/help.py:14 | every index below the number of distinct scores is the index of some score |
| FishTables.TypesAreDense | minimax_assignment/help.py:14-15 | every index below the number of distinct scores is the type of some fish |
| Evaluator.Pending | minimax_assignment/help.py:107-108 | definition: the score of the fish on a hook, or 0 when the hook is empty |
| Evaluator.ScoreBasedValue | minimax_assignment/help.py:106-110 | definition: 100 times the maximising player's score lead plus the lead of the fish on the hooks; its zero-sum property is `Evaluator.ScoreBasedValueAntisymmetric` |
| Evaluator.ScoreBasedValueAntisymmetric | minimax_assignment/help.py:106-110 | swapping the maximising player negates the score term exactly |
| Evaluator.CaughtCount | minimax_assignment/help.py:92 | helper: at most two fish are on hooks |
| Evaluator.Terminal | minimax_assignment/help.py:91-93 | definition: no fish on the board, or as many fish on the board as occupied hooks; only the counts are compared, not which fish the hooks hold |
| Evaluator.HorizontalDistance | minimax_assignment/help.py:118 | the wrapped distance is at most the plain one, and lies in [0, W/2] when the plain one is at most W |
| Evaluator.Distance | minimax_assignment/help.py:118-120 | the hook-to-fish distance is non-negative when the horizontal gap is at most W |
| Evaluator.DistanceSymmetric | minimax_assignment/help.py:118-120 | the distance does not depend on which end is the hook |
| Evaluator.FreeFish | minimax_assignment/help.py:114-116 | definition: the fish on the board that are not on a hook |
| Evaluator.Proximity | minimax_assignment/help.py:112-123 | definition: the sum over the given free fish of the score times the decay of the hook-to-fish distance |
| Evaluator.ProximityTakesAny | minimax_assignment/help.py:112-123 | the proximity sum does not depend on the order the fish are visited in |
| Evaluator.ProximityVisit | minimax_assignment/help.py:114-121 | visiting one fish adds its pull when it is free and nothing when it is on a hook |
| Evaluator.ProximityNonnegative | minimax_assignment/help.py:112-123 | with non-negative scores and decay, proximity is non-negative |
| Evaluator.HeuristicValue | minimax_assignment/help.py:85-104 | definition: the terminal collapse to +inf, -inf or 0, the score term when `only_scores` is set, otherwise the score term plus the maximising player's proximity minus the other's |
| Evaluator.TerminalValues | minimax_assignment/help.py:91-100 | +inf iff terminal with a positive score term; -inf iff terminal with a negative one; 0 when terminal with a zero one; the score term itself when not terminal and `only_scores` is set |
| Evaluator.HeuristicAntisymmetric | minimax_assignment/help.py:85-104 | swapping the maximising player negates the evaluation exactly |
| ModelAgent.ChildValues | minimax_assignment/help.py:32-34 | definition: each root child's evaluation for the maximising player, as `next_move` computes it |
| ModelAgent.ChildValuesAntisymmetric | minimax_assignment/help.py:32-34 | the root values are zero-sum: evaluated for the other player, every child's value is negated |
| ModelAgent.MinimaxModel.constructor | minimax_assignment/help.py:7-9 | construction builds the score table from the metadata, the type table from the scores, and keeps the board circumference |
| ModelAgent.MinimaxModel.GetFishScoresAndTypes | minimax_assignment/help.py:11-15 | on readable metadata both tables are replaced by `ScoreTable` and `TypeTable`; otherwise the first error is returned and nothing changes |
| ModelAgent.MinimaxModel.ProximityValue | minimax_assignment/help.py:112-123 | the accumulation loop computes the proximity sum over the free fish |
| ModelAgent.MinimaxModel.ComputeHeuristic | minimax_assignment/help.py:85-104 | computes `Evaluator.HeuristicValue` for the object's table, maximising player and circumference |
| ModelAgent.MinimaxModel.AlphaBetaPrunning | minimax_assignment/help.py:46-48 | succeeds iff the depth is the depth limit, and then returns the evaluation whatever the window |
| ModelAgent.MinimaxModel.NextMove | minimax_assignment/help.py:17-44 | sets the maximising player and depth limit; one child is played at once; otherwise the move is `ChooseMove` over the children's evaluations |
| MoveChoice.ScanFrom | minimax_assignment/help.py:32-44 | definition: the strict-improvement scan from child i, stopping on a time-out after an improvement or on +inf |
| MoveChoice.ChooseMove | minimax_assignment/help.py:25-44 | definition: the single child's move at once, otherwise the scan from the first child with -inf and the placeholder 0 |
| MoveChoice.ScanEndsUntimed | minimax_assignment/help.py:44 | when the scan ends without a time-out, the move it holds is the first largest child's, or the placeholder when all values are -inf |
| MoveChoice.TopIsUntimed | minimax_assignment/help.py:41-42 | stopping on a +inf value that is the first largest so far gives the untimed choice |
| MoveChoice.ScanWithoutTimeout | minimax_assignment/help.py:32-44 | without time-outs, the strict-improvement scan ends on the first largest value, or on the placeholder when all are -inf |
| MoveChoice.ChoiceWithoutTimeout | minimax_assignment/help.py:25-44 | without time-outs, a root with several children gets the first child with the largest value, or 0 when every value is -inf |
| MoveChoice.ScanChoosesImprovement | minimax_assignment/help.py:32-44 | under any clock, a chosen move belongs to a child above -inf and strictly above every earlier child |
| MoveChoice.ChoiceIsImprovement | minimax_assignment/help.py:25-44 | under any clock, the chosen child's value is above -inf and strictly above every earlier child's |

## Left out

- The wall clock (`time.time()`, the 0.06 s and 0.1 s budgets) is an oracle indexed by the number of readings. The `timer`, `start` and `max_time` fields are therefore not modelled.
- `ACTION_TO_STR` and the engine's `compute_and_get_children` and state accessors: moves stay as the engine's integer ids, and the children are the tree's.
- Python's `hash` of frozensets and tuples is replaced by the arbitrary functions of `Fingerprint.Hasher`.
- Floating point: values are exact reals. Rounding, and the order of a float sum, are not modelled.
- `math.exp` is the `decay` parameter of the `help.py` methods. Nothing is assumed about it except, in `ProximityNonnegative`, that it is non-negative.
- `best_move` takes the searcher as an argument (`model`). The model assumes that it is the same object.
- `data.pop('game_over', None)` removes the key from the caller's dict. The model only skips the entry.
- FishTables.FishId: reads only plain ASCII decimal digits. Python's `int()` also accepts surrounding whitespace, a sign, underscores and non-ASCII digits.
- FishTables.TypeTable: numbers the distinct scores in ascending order. The source numbers them in Python's set iteration order, which the language does not fix. Only the order-free facts (same type iff same score, indices dense below the number of distinct scores) are claimed for the source.
- The metadata values are either a record with an integer score or malformed. Other Python objects under `score` are not modelled.
- ModelAgent.MinimaxModel.constructor: requires readable metadata, because the source raises during construction otherwise. `GetFishScoresAndTypes` models the error path.
- `max_player` and `max_depth` are unset in the source until `next_move` runs. The constructor gives them placeholder values.
- `next_move` also stores each child's value in `children_values`, a list it never reads. It is not modelled.
- The unreachable code after the `return` in `alpha_beta_prunning` (`help.py:49-66`) is not modelled. Its `else` branch (`help.py:68-83`) reads `children` before any assignment and always fails. It is modelled only as the error result `ChildrenUnbound`.
- Extremum.Heuristic: requires a nonzero score for every fish on the board, because a zero score divides by zero in the source.
- Extremum.Ready: besides the nonzero score, requires both hooks and a score for every fish on the board. The source raises `KeyError` on a missing hook or a fish without a score (`minmax.py:130-133`). The model has no error path for these, so a search over such a snapshot is not modelled.
- AlphaBeta.ReadyTree: requires `Extremum.Ready` at every node of the tree. The source evaluates only the nodes it visits, so a tree with an unreadable node below the depth limit, behind a cache hit or after a cut-off is searched there and not here.
- Evaluator.CaughtKnown: requires a score for each fish on a hook. The source raises `KeyError` for a hooked fish without one (`help.py:107-108`). That error path is not modelled.
- Evaluator.ProximityReady: requires both hooks and a score for every free fish. The source raises `KeyError` on a missing hook or a free fish without a score (`help.py:118-121`). That error path is not modelled.
- ModelAgent.MinimaxModel.NextMove: with several children, requires every child to be evaluable. The source evaluates children only until the first time-out or +inf, so a later unreadable child does not stop it there, while the model does not cover that case.
- The engine's invariant that a hooked fish is one of the fish on the board, each on a different hook, is not modelled. `Evaluator.Terminal` therefore can hold while a fish is still free, exactly as the source's count comparison would on such a snapshot.
- `StateRepresentative` is a plain record that nothing in the core uses.
