# Move picker of chester, modelled in Dafny

This project models the move-selection engine of the chester chess program
(`src/movePicker.ts`). The engine picks a move for the side to move with a
fixed-depth minimax search:

- positions at the search horizon are scored by mobility: White's
  (from, to) pairs minus Black's;
- stalemate scores 0 and checkmate scores ∓1, both marked `certain`;
- a node takes the value and the `certain` flag of its best-ranked child;
- every evaluation goes through a memo table keyed by the board's
  piece-placement string, which keeps only `certain` results;
- at the root, every candidate is scored at depth 2 and one of the moves tied
  for the best value is picked at random.

The chess rules live in the chessops library. Here they are abstract: positions
have a type parameter `P`. The library operations are the fields of a
`Rules<P>` value: side to move, stalemate and checkmate tests, occupied squares
per colour, destinations per square, playing a move, and the board key. So
the properties below hold for any rules, with three exceptions:

- `Search.HeuristicOfMover` and the properties of module `MateInOne` also
  assume that only the side to move has destinations (`OnlyMoverMoves`).
- The `MateInOne` properties further assume that every move passes the turn
  (`Alternates`).
- The lemmas of module `Scenarios` are about one concrete game and its fixed
  rules (`ExampleRules`).

Otherwise the only thing assumed of the rules is `WellFormed`: a position that
is neither stalemate nor checkmate has at least one move. Without that, the
source crashes by reading `.value` of `undefined` at `src/movePicker.ts:59-62`.

Layout:

- `chess_rules.dfy` (module `ChessRules`): squares, colours, moves, and the
  `Rules<P>` interface to the rules library.
- `moves.dfy` (module `Moves`): the move enumeration the source writes four
  times (`src/movePicker.ts:11-13`, `14-16`, `47-49` and `86-88`: the flatMap
  over occupied squares and their destinations), and `WellFormed`.
- `search.dfy` (module `Search`): the heuristic, the comparator, the effect of
  the stable sort (`FirstBest`), and the search as pure functions that thread
  the memo table as a value. `Evaluate` is evaluateState, `Memo` is the
  memoising wrapper, and `EvaluateMoves` is the map over the candidates. The
  lemmas cover terminal scoring, the horizon, child selection and the table.
- `move_picker.dfy` (module `MovePicker`): the class `Engine`, which owns the
  memo table as a mutable field. Its mutually recursive methods `EvaluateState`,
  `MemoEvaluate` and `ScoreMoves` are proved to compute exactly the functions
  of `Search`, and `PickBestMove` is proved against `SelectMove`. The root
  choice is a loop that tracks the best value and the tie list.
- `mate_in_one.dfy` (module `MateInOne`): for rules that behave like a
  legal-move generator, and whichever side is to move, no root candidate
  scores better for the mover than 1 in its favour at the default depth. So an
  unshadowed mate in one ties for best, every best-ranked candidate is a
  certain win, and the random pick is one.
- `scenarios.dfy` (module `Scenarios`): a concrete five-position game whose
  rules also report destinations for the side not to move. There a mate in one
  ranks below a quiet move.

Recursion terminates on the depth. The wrapper calls the search at the same
depth and the search calls the wrapper at depth − 1, so the decreases clauses
are `(depth, 1)` for the wrapper, `(depth, 0)` for the search and `(depth, 2)`
for the loop over the children.

Behaviour of the code that the model keeps:

- The table also stores certain results of non-terminal positions. A node
  copies `certain` from its best-ranked child, so a position whose best line
  ends in a mate or stalemate is stored too. The model claims only that every
  stored entry is certain.
- Repeating a wrapper call returns the same result without a search only for
  certain results (`MemoRepeat`). An uncertain result is never stored, so the
  next call searches again.
- With no legal move, pickBestMove returns `undefined`: the filter over an
  empty list never runs its callback, and indexing the empty tie list gives
  `undefined`. The model returns `None`.
- Checkmate scores ±1, on the same scale as mobility counts. With rules that
  report destinations only for the side to move, and that pass the turn on
  every move, a leaf below the root has the root's opponent to move, and its
  mobility value is at least one move in the opponent's favour. So no candidate
  scores better for the mover than 1 in its favour, a mating move ties for best,
  and every candidate with the best value, so the random pick too, is a certain
  win (`MateInOneTiesForBest`, `MateInOnePicksWin`, `EnginePicksWin`). This
  holds with either side to move. The provisos: every table entry is certain
  and lies in [-1, 1] (true of every table the engine builds, as `Engine.Valid`
  keeps), and the table holds no entry for the mated position's board key when
  the mating move is scored. Under `OnlyMoverMoves` and `Alternates`, and with
  both provisos, a mate in one is never outranked. `MateInOneOutranked` shows
  it can be when `OnlyMoverMoves` fails. The second proviso matters because
  board keys may collide: a table entry under the mated position's key is
  returned in place of the mate's score (`MemoHit`) and can shadow it.
- An entry that a descendant with the same board key stores during a search
  can be replaced when the ancestor stores its own certain result
  (`src/movePicker.ts:78`). Entries present when a call starts are never
  changed or removed.

## Model

| member | source | states |
|---|---|---|
| `Moves.Targets` | src/movePicker.ts:12 | the `.map` of one square's destinations to (from, to) pairs; no contract of its own, its properties are in `TargetsMembership` |
| `Moves.MovesFrom` | src/movePicker.ts:11-12 | the flatMap over occupied squares; no contract of its own, its properties are in `MovesFromMembership`, `MovesFromCount` and `MovesFromNoDests` |
| `Moves.MovesOf` | src/movePicker.ts:11-16 | the per-colour flatMap the heuristic counts; no contract of its own, its properties are in `MovesFromMembership`, `MovesFromCount` and `HeuristicIsMobility` |
| `Moves.LegalMoves` | src/movePicker.ts:47-49 | the candidate list of the side to move (also at lines 86-88); no contract of its own, its properties are in `LegalMovesMembership` |
| `Moves.TargetsMembership` | src/movePicker.ts:12 | mapping one square's destinations gives one pair per destination, and a pair is produced exactly when it starts on that square and ends on one of them |
| `Moves.MovesFromMembership` | src/movePicker.ts:11-12 | a (from, to) pair is enumerated exactly when `from` is one of the listed squares and `to` is among the destinations reported for it |
| `Moves.MovesFromCount` | src/movePicker.ts:11-16 | the number of enumerated pairs equals the total number of destinations reported for the listed squares |
| `Moves.LegalMovesMembership` | src/movePicker.ts:47-49 | a candidate move starts on a square of the side to move and ends on a destination reported for it, and every such pair is a candidate |
| `Search.Heuristic` | src/movePicker.ts:8-19 | heuristicEvaluation; no contract of its own, its properties are in `HeuristicIsMobility` and `HeuristicOfMover` |
| `Search.HeuristicIsMobility` | src/movePicker.ts:8-19 | the heuristic value is White's destination count minus Black's, and it is never certain |
| `Search.HeuristicOfMover` | src/movePicker.ts:8-19 | when only the side to move has destinations, the heuristic is the mover's number of candidates, positive for White and negative for Black |
| `Search.Compare` | src/movePicker.ts:21-29 | minMaxValueComparator; no contract of its own, its properties are in `CompareOrder` |
| `Search.CompareOrder` | src/movePicker.ts:21-29 | the comparator ranks a before b exactly when a's value is larger (maximising) or smaller (minimising); it is zero exactly on equal values, antisymmetric, and flips sign with the side |
| `Search.FirstBest` | src/movePicker.ts:51-59 | the element a stable sort with the comparator puts first: nothing ranks strictly before it, and every earlier element ranks strictly after it |
| `Search.FirstBestIsOptimal` | src/movePicker.ts:57-59 | the first-ranked element has the maximum (or minimum) value, and no earlier element has that value |
| `Search.EvaluateMoves` | src/movePicker.ts:51-56 | children are evaluated one per candidate move |
| `Search.Evaluate` | src/movePicker.ts:31-65 | evaluateState with the table passed through as a value; no contract of its own, its properties are in `EvaluateStalemate`, `EvaluateCheckmate`, `EvaluateHorizon`, `EvaluateChoosesBestChild` and `EvaluateCacheInvariant` |
| `Search.Memo` | src/movePicker.ts:69-82 | memoEvaluateStateForPlayer with the table passed through as a value; no contract of its own, its properties are in `MemoHit`, `MemoMiss`, `MemoCacheInvariant`, `MemoStoresExactlyCertain` and `MemoRepeat` |
| `Search.EvaluateStalemate` | src/movePicker.ts:35-37 | a stalemate evaluates to value 0, certain, at every depth, and the table is unchanged |
| `Search.EvaluateCheckmate` | src/movePicker.ts:39-41 | a checkmate that is not a stalemate evaluates to −1 if White is to move and +1 otherwise, certain, at every depth, and the table is unchanged |
| `Search.EvaluateHorizon` | src/movePicker.ts:43-45 | at depth 0 a non-terminal position gets the mobility heuristic; a depth-0 result is certain exactly for terminal positions; the table is unchanged |
| `Search.EvaluateChoosesBestChild` | src/movePicker.ts:47-64 | with depth left, a non-terminal position takes one of its children's evaluations, with the largest value when White is to move and the smallest otherwise. No earlier child has that value, so the first such child fixes `certain`. The table is the one the children leave |
| `Search.EvaluateMovesAt` | src/movePicker.ts:51-56 | the j-th child is the memoised evaluation, at depth − 1, of the position after the j-th move, from the table left by the children before it |
| `Search.EvaluateCacheInvariant` | src/movePicker.ts:31-65 | a search keeps every entry already in the table, and keeps the table all-certain |
| `Search.EvaluateMovesCacheInvariant` | src/movePicker.ts:51-56 | evaluating the children keeps every entry already in the table, and keeps the table all-certain |
| `Search.MemoCacheInvariant` | src/movePicker.ts:67-82 | the wrapper never removes or changes an entry present when it is called, so the key set only grows; an all-certain table stays all-certain |
| `Search.MemoHit` | src/movePicker.ts:69-73 | when the board key is in the table, the stored entry is returned and the table is unchanged, with no search |
| `Search.MemoMiss` | src/movePicker.ts:75-81 | on a miss the result is the search's. It is stored under the board key only when certain; an uncertain result leaves the table as the search left it |
| `Search.MemoStoresExactlyCertain` | src/movePicker.ts:69-81 | from an all-certain table, a result is certain exactly when the table afterwards holds that result under the position's board key |
| `Search.MemoRepeat` | src/movePicker.ts:69-81 | after a certain result, a later call on any position with the same board key, at any depth, returns the same result and leaves the table unchanged |
| `MovePicker.Ties` | src/movePicker.ts:105-107 | the filter of the ranked candidates by the best value, in enumeration order; no contract of its own, its properties are in `TiesMembership` |
| `MovePicker.TiesMembership` | src/movePicker.ts:105-107 | the tie list holds exactly the candidates whose evaluation value equals the given value |
| `MovePicker.PickIndex` | src/movePicker.ts:109-110 | `Math.floor(random * n)` is an index below n when random is in [0, 1) |
| `MovePicker.SelectMove` | src/movePicker.ts:103-112 | the choice among scored candidates is none exactly when there is no candidate; otherwise it is a candidate whose value is the maximum (White to move) or minimum over all candidates |
| `MovePicker.ChooseAmongBest` | src/movePicker.ts:99-112 | one pass that keeps the best value and the moves sharing it, then the random pick, returns exactly `SelectMove` |
| `MovePicker.Engine.constructor` | src/movePicker.ts:67 | the table starts empty, so it is all-certain and in [-1, 1] |
| `MovePicker.Engine.EvaluateState` | src/movePicker.ts:31-65 | returns, and leaves in the table, exactly what `Evaluate` gives from the old table; the table stays all-certain and in [-1, 1] |
| `MovePicker.Engine.ScoreMoves` | src/movePicker.ts:51-56 | evaluates the candidates in order through the memo, returning and leaving in the table exactly what `EvaluateMoves` gives |
| `MovePicker.Engine.MemoEvaluate` | src/movePicker.ts:69-82 | returns, and leaves in the table, exactly what `Memo` gives from the old table; the table stays all-certain and in [-1, 1] |
| `MovePicker.Engine.PickBestMove` | src/movePicker.ts:84-113 | scores every candidate at depth 2 through the memo. The result is `SelectMove` of those scores: none exactly when there is no candidate, otherwise a legal candidate with the best value for the side to move |
| `Search.EvaluateKeepsBounded` | src/movePicker.ts:31-65 | for any well-formed rules, a search from a table of values in [-1, 1] leaves the table in [-1, 1], and a certain result lies in [-1, 1] |
| `Search.EvaluateMovesKeepsBounded` | src/movePicker.ts:51-56 | the same for every child evaluation, and the table stays in [-1, 1] |
| `Search.MemoKeepsBounded` | src/movePicker.ts:69-82 | the same for the wrapper: it stores only certain results, which lie in [-1, 1] |
| `MateInOne.EvaluateBound` | src/movePicker.ts:31-65 | for legal-move rules, a table of certain entries in [-1, 1] and a node whose side to move matches its parity below a root of either colour, a certain result lies in [-1, 1], an estimate is at least one move in the opponent's favour, and the table stays in [-1, 1] |
| `MateInOne.EvaluateMovesBound` | src/movePicker.ts:51-56 | the same bound for every child evaluation, and the table stays in [-1, 1] |
| `MateInOne.MemoBound` | src/movePicker.ts:69-82 | the same bound for the wrapper, whether it hits or stores |
| `MateInOne.MateInOneTiesForBest` | src/movePicker.ts:39-41 | for legal-move rules, either side to move and a table of certain entries in [-1, 1], no candidate scores better than 1 in the mover's favour at depth 2. A mating move whose mated key is not in the table when it is scored is a certain win, has the best value and is among the ties, and every candidate with the best value is a certain win |
| `MateInOne.MateInOnePicksWin` | src/movePicker.ts:103-112 | under the same conditions, for every random draw, the root choice is a candidate scored as a certain win for the side to move |
| `MateInOne.EnginePicksWin` | src/movePicker.ts:84-113 | the engine's pickBestMove, from any table it holds, returns a candidate scored as a certain win when an unshadowed mate in one exists under legal-move rules |
| `Scenarios.MateInOneOutranked` | src/movePicker.ts:39-41 | on a concrete game whose rules report destinations for the side not to move, the mating move scores 1 and a quiet move scores 4 from mobility, and the engine picks the quiet move for every random draw |

## Left out

- The chessops library: move generation, `play`, `clone`, the checkmate and
  stalemate tests and `fen.makeBoardFen`. They are the abstract `Rules<P>`
  fields. The board key is not assumed injective and does not include the side
  to move. Nothing is assumed about the destinations reported for pieces of
  the side not to move, except in `Search.HeuristicOfMover` and module
  `MateInOne`, which assume there are none (`OnlyMoverMoves`). `MateInOne` also
  assumes that every move passes the turn (`Alternates`). Module `Scenarios`
  fixes one concrete set of rules.
- `Math.random`: replaced by a caller-supplied real in [0, 1). The choice
  `Math.floor(random * length)` is modelled as written. Uniformity is not
  stated.
- The JavaScript sort algorithm: only its effect is modelled. A sort with this
  comparator that is stable (as ECMAScript 2019 requires) puts first the
  earliest element of best value. The ties are filtered from the sorted list,
  are all of equal value, and so keep enumeration order.
- The crash on a non-terminal position with no moves (`src/movePicker.ts:59`):
  ruled out by the `WellFormed` precondition on the rules. A correct rules
  library guarantees it: a position with no legal move is stalemate or
  checkmate.
- `clone`: positions are values, so clone-then-play is the function `play`.
- Number representation: values are small integers, exact in JavaScript
  numbers, so they are modelled as `int`.
- The memo table is a plain object in the source. Prototype keys such as
  `constructor` are never board-placement strings, so it is modelled as a
  `map`.
- `src/app.ts`: the user-interface wiring. It does not call the move picker.
