/**
 The evaluation functions of the move picker as pure functions: the mobility
 heuristic, the comparator used to rank child evaluations, and the search with
 its memo table threaded through as a value. `Evaluate` is evaluateState,
 `Memo` is memoEvaluateStateForPlayer and `EvaluateMoves` is the map over the
 candidate moves; each returns its result together with the memo table as it
 stands afterwards. The class in module MovePicker is proved to compute exactly
 these.
 */
module Search {
  import opened ChessRules
  import opened Moves

  /** A score from White's point of view, and whether it is exact rather than a depth-limited estimate. */
  datatype Evaluation = Evaluation(value: int, certain: bool)

  /** The memo table: board key to a stored evaluation. */
  type Cache = map<string, Evaluation>

  /** The depth at which the root's candidate moves are evaluated (the wrapper's default limit). */
  const SearchDepth: nat := 2

  /** Mobility: White's (from, to) pairs minus Black's, never certain. */
  function Heuristic<P(!new)>(r: Rules<P>, p: P): Evaluation
  {
    Evaluation(|MovesOf(r, p, White)| - |MovesOf(r, p, Black)|, false)
  }

  /** The heuristic value is the difference of the destination counts the rules report for each colour. */
  lemma HeuristicIsMobility<P(!new)>(r: Rules<P>, p: P)
    ensures Heuristic(r, p).value == DestCount(r, p, r.occupied(p, White)) - DestCount(r, p, r.occupied(p, Black))
    ensures !Heuristic(r, p).certain
  {
    MovesFromCount(r, p, r.occupied(p, White));
    MovesFromCount(r, p, r.occupied(p, Black));
  }

  /**
   When only the side to move has destinations, the heuristic is the mover's
   number of candidate moves, counted positively for White and negatively for Black.
   */
  lemma HeuristicOfMover<P(!new)>(r: Rules<P>, p: P)
    requires OnlyMoverMoves(r)
    ensures Heuristic(r, p).value == if r.turn(p) == White then |LegalMoves(r, p)| else -|LegalMoves(r, p)|
  {
    var other := if r.turn(p) == White then Black else White;
    MovesFromNoDests(r, p, r.occupied(p, other));
  }

  /**
   The sort comparator: negative when a is to be ranked before b. Values are
   ranked in decreasing order when maximising, in increasing order otherwise.
   */
  function Compare(a: Evaluation, b: Evaluation, maximise: bool): int
  {
    (b.value - a.value) * (if maximise then 1 else -1)
  }

  /** The comparator is a consistent total preorder on values, reversed by switching sides. */
  lemma CompareOrder(a: Evaluation, b: Evaluation, maximise: bool)
    ensures Compare(a, b, maximise) < 0 <==> (if maximise then a.value > b.value else a.value < b.value)
    ensures Compare(a, b, maximise) == 0 <==> a.value == b.value
    ensures Compare(a, b, maximise) == -Compare(b, a, maximise)
    ensures Compare(a, b, !maximise) == -Compare(a, b, maximise)
  {
  }

  /** True when s[i] has the best value in s for the side that maximises (or minimises). */
  ghost predicate IsBestAt(s: seq<Evaluation>, i: int, maximise: bool)
    requires 0 <= i < |s|
  {
    forall j :: 0 <= j < |s| ==> if maximise then s[j].value <= s[i].value else s[j].value >= s[i].value
  }

  /**
   The index of the element a stable sort with Compare puts first: no element
   ranks strictly before it, and every earlier element ranks strictly after it.
   */
  function FirstBest(s: seq<Evaluation>, maximise: bool): (i: nat)
    requires s != []
    ensures i < |s|
    ensures forall j :: 0 <= j < |s| ==> Compare(s[i], s[j], maximise) <= 0
    ensures forall j :: 0 <= j < i ==> Compare(s[i], s[j], maximise) < 0
    decreases |s|
  {
    if |s| == 1 then 0
    else
      var k := FirstBest(s[..|s| - 1], maximise);
      if Compare(s[|s| - 1], s[k], maximise) < 0 then |s| - 1 else k
  }

  /** The first-ranked element has the best value, and no earlier one has that value. */
  lemma FirstBestIsOptimal(s: seq<Evaluation>, maximise: bool)
    requires s != []
    ensures IsBestAt(s, FirstBest(s, maximise), maximise)
    ensures forall j :: 0 <= j < FirstBest(s, maximise) ==> s[j].value != s[FirstBest(s, maximise)].value
  {
    var i := FirstBest(s, maximise);
    forall j | 0 <= j < |s|
      ensures if maximise then s[j].value <= s[i].value else s[j].value >= s[i].value
      ensures j < i ==> s[j].value != s[i].value
    {
      CompareOrder(s[i], s[j], maximise);
    }
  }

  /** Every entry of the memo table is certain. */
  ghost predicate AllCertain(c: Cache)
  {
    forall k :: k in c ==> c[k].certain
  }

  /** c' keeps every entry of c unchanged. */
  ghost predicate Extends(c: Cache, c': Cache)
  {
    forall k :: k in c ==> k in c' && c'[k] == c[k]
  }

  /** evaluateState: the evaluation of p with `depth` plies left, and the memo table afterwards. */
  function Evaluate<P(!new)>(r: Rules<P>, c: Cache, p: P, depth: nat): (Evaluation, Cache)
    requires WellFormed(r)
    decreases depth, 0, 0
  {
    if r.isStalemate(p) then (Evaluation(0, true), c)
    else if r.isCheckmate(p) then (Evaluation(if r.turn(p) == White then -1 else 1, true), c)
    else if depth == 0 then (Heuristic(r, p), c)
    else
      var (children, c') := EvaluateMoves(r, c, p, LegalMoves(r, p), depth - 1);
      (children[FirstBest(children, r.turn(p) == White)], c')
  }

  /** The children of p reached by `moves`, each evaluated through the memo at `depth`, in order. */
  function EvaluateMoves<P(!new)>(r: Rules<P>, c: Cache, p: P, moves: seq<Move>, depth: nat): (res: (seq<Evaluation>, Cache))
    requires WellFormed(r)
    ensures |res.0| == |moves|
    decreases depth, 2, |moves|
  {
    if moves == [] then ([], c)
    else
      var (e, c1) := Memo(r, c, r.play(p, moves[0]), depth);
      var (rest, c2) := EvaluateMoves(r, c1, p, moves[1..], depth);
      ([e] + rest, c2)
  }

  /** memoEvaluateStateForPlayer: a stored entry for p's board key if there is one, else a search, stored when certain. */
  function Memo<P(!new)>(r: Rules<P>, c: Cache, p: P, depth: nat): (Evaluation, Cache)
    requires WellFormed(r)
    decreases depth, 1, 0
  {
    var key := r.boardKey(p);
    if key in c then (c[key], c)
    else
      var (e, c') := Evaluate(r, c, p, depth);
      (e, if e.certain then c'[key := e] else c')
  }

  /** A stalemate is worth 0 with certainty, at any depth, whatever the memo holds. */
  lemma EvaluateStalemate<P(!new)>(r: Rules<P>, c: Cache, p: P, depth: nat)
    requires WellFormed(r) && r.isStalemate(p)
    ensures Evaluate(r, c, p, depth) == (Evaluation(0, true), c)
  {
  }

  /** A checkmate (that is not also a stalemate) is lost for the side to move, with certainty, at any depth. */
  lemma EvaluateCheckmate<P(!new)>(r: Rules<P>, c: Cache, p: P, depth: nat)
    requires WellFormed(r) && !r.isStalemate(p) && r.isCheckmate(p)
    ensures Evaluate(r, c, p, depth) == (Evaluation(if r.turn(p) == White then -1 else 1, true), c)
  {
  }

  /** With no depth left a non-terminal position gets the mobility estimate; only terminal ones are certain at depth 0. */
  lemma EvaluateHorizon<P(!new)>(r: Rules<P>, c: Cache, p: P)
    requires WellFormed(r)
    ensures !r.isStalemate(p) && !r.isCheckmate(p) ==> Evaluate(r, c, p, 0) == (Heuristic(r, p), c)
    ensures Evaluate(r, c, p, 0).0.certain <==> r.isStalemate(p) || r.isCheckmate(p)
    ensures Evaluate(r, c, p, 0).1 == c
  {
  }

  /**
   With depth left, a non-terminal position takes the evaluation of one of its
   children: one with the largest value when White is to move and the smallest
   otherwise, the earliest such in enumeration order (so its `certain` flag is
   that child's). The children are evaluated through the memo at depth - 1.
   */
  lemma EvaluateChoosesBestChild<P(!new)>(r: Rules<P>, c: Cache, p: P, depth: nat)
    requires WellFormed(r) && depth > 0 && !r.isStalemate(p) && !r.isCheckmate(p)
    ensures var moves := LegalMoves(r, p);
            var (children, c') := EvaluateMoves(r, c, p, moves, depth - 1);
            var (e, c'') := Evaluate(r, c, p, depth);
            c'' == c' && |children| == |moves| > 0 &&
            exists i :: 0 <= i < |children| && e == children[i] && IsBestAt(children, i, r.turn(p) == White) &&
                        forall j :: 0 <= j < i ==> children[j].value != e.value
  {
    var (children, c') := EvaluateMoves(r, c, p, LegalMoves(r, p), depth - 1);
    FirstBestIsOptimal(children, r.turn(p) == White);
  }

  /** The j-th child is the memo's evaluation of p after moves[j], from the table left by the children before it. */
  lemma {:induction false} EvaluateMovesAt<P(!new)>(r: Rules<P>, c: Cache, p: P, moves: seq<Move>, depth: nat, j: nat)
    requires WellFormed(r) && j < |moves|
    ensures EvaluateMoves(r, c, p, moves, depth).0[j] ==
            Memo(r, EvaluateMoves(r, c, p, moves[..j], depth).1, r.play(p, moves[j]), depth).0
    decreases j
  {
    var (e, c1) := Memo(r, c, r.play(p, moves[0]), depth);
    if j > 0 {
      EvaluateMovesAt(r, c1, p, moves[1..], depth, j - 1);
      assert moves[..j][0] == moves[0];
      assert moves[..j][1..] == moves[1..][..j - 1];
    }
  }

  /** A search keeps every entry already stored and stores only certain entries. */
  lemma {:induction false} EvaluateCacheInvariant<P(!new)>(r: Rules<P>, c: Cache, p: P, depth: nat)
    requires WellFormed(r)
    ensures Extends(c, Evaluate(r, c, p, depth).1)
    ensures AllCertain(c) ==> AllCertain(Evaluate(r, c, p, depth).1)
    decreases depth, 0, 0
  {
    if !r.isStalemate(p) && !r.isCheckmate(p) && depth > 0 {
      EvaluateMovesCacheInvariant(r, c, p, LegalMoves(r, p), depth - 1);
    }
  }

  lemma {:induction false} EvaluateMovesCacheInvariant<P(!new)>(r: Rules<P>, c: Cache, p: P, moves: seq<Move>, depth: nat)
    requires WellFormed(r)
    ensures Extends(c, EvaluateMoves(r, c, p, moves, depth).1)
    ensures AllCertain(c) ==> AllCertain(EvaluateMoves(r, c, p, moves, depth).1)
    decreases depth, 2, |moves|
  {
    if moves != [] {
      var (e, c1) := Memo(r, c, r.play(p, moves[0]), depth);
      MemoCacheInvariant(r, c, r.play(p, moves[0]), depth);
      EvaluateMovesCacheInvariant(r, c1, p, moves[1..], depth);
    }
  }

  /**
   The memo table only grows: every entry present before a call is still there,
   unchanged, afterwards; and if every entry was certain, every entry still is.
   */
  lemma {:induction false} MemoCacheInvariant<P(!new)>(r: Rules<P>, c: Cache, p: P, depth: nat)
    requires WellFormed(r)
    ensures Extends(c, Memo(r, c, p, depth).1)
    ensures c.Keys <= Memo(r, c, p, depth).1.Keys
    ensures AllCertain(c) ==> AllCertain(Memo(r, c, p, depth).1)
    decreases depth, 1, 0
  {
    if r.boardKey(p) !in c {
      EvaluateCacheInvariant(r, c, p, depth);
    }
  }

  /** A hit returns the stored entry and leaves the table as it was, without searching. */
  lemma MemoHit<P(!new)>(r: Rules<P>, c: Cache, p: P, depth: nat)
    requires WellFormed(r) && r.boardKey(p) in c
    ensures Memo(r, c, p, depth) == (c[r.boardKey(p)], c)
  {
  }

  /**
   On a miss the result is the search's; it is stored under the board key when
   certain and the wrapper itself adds nothing when it is not.
   */
  lemma MemoMiss<P(!new)>(r: Rules<P>, c: Cache, p: P, depth: nat)
    requires WellFormed(r) && r.boardKey(p) !in c
    ensures var (e, c') := Evaluate(r, c, p, depth);
            Memo(r, c, p, depth) == (e, if e.certain then c'[r.boardKey(p) := e] else c')
  {
  }

  /**
   From a table of certain entries, a result is certain exactly when the table
   afterwards holds it under the position's board key.
   */
  lemma MemoStoresExactlyCertain<P(!new)>(r: Rules<P>, c: Cache, p: P, depth: nat)
    requires WellFormed(r) && AllCertain(c)
    ensures var (e, c') := Memo(r, c, p, depth);
            e.certain <==> r.boardKey(p) in c' && c'[r.boardKey(p)] == e
  {
    MemoCacheInvariant(r, c, p, depth);
    if r.boardKey(p) !in c {
      EvaluateCacheInvariant(r, c, p, depth);
    }
  }

  /**
   A certain result is returned again, with no search and no change to the
   table, by any later call on a position with the same board key at any depth.
   */
  lemma MemoRepeat<P(!new)>(r: Rules<P>, c: Cache, p: P, q: P, depth: nat, depth': nat)
    requires WellFormed(r) && AllCertain(c) && r.boardKey(q) == r.boardKey(p)
    requires Memo(r, c, p, depth).0.certain
    ensures var (e, c') := Memo(r, c, p, depth);
            Memo(r, c', q, depth') == (e, c')
  {
    MemoStoresExactlyCertain(r, c, p, depth);
  }

  /** Every stored value lies in [-1, 1], the range of the terminal scores (true of the empty table the program starts with). */
  ghost predicate Bounded(c: Cache)
  {
    forall k :: k in c ==> -1 <= c[k].value <= 1
  }

  /** A certain evaluation lies in [-1, 1]. */
  predicate CertainInRange(e: Evaluation)
  {
    e.certain ==> -1 <= e.value <= 1
  }

  /**
   For any rules, a search from a table of values in [-1, 1] leaves the table in
   [-1, 1], and a certain result lies in [-1, 1]: certain values come only from
   terminal scores and from stored entries, and only certain values are stored.
   */
  lemma {:induction false} EvaluateKeepsBounded<P(!new)>(r: Rules<P>, c: Cache, p: P, depth: nat)
    requires WellFormed(r) && Bounded(c)
    ensures CertainInRange(Evaluate(r, c, p, depth).0) && Bounded(Evaluate(r, c, p, depth).1)
    decreases depth, 0, 0
  {
    if !r.isStalemate(p) && !r.isCheckmate(p) && depth > 0 {
      var moves := LegalMoves(r, p);
      EvaluateMovesKeepsBounded(r, c, p, moves, depth - 1);
      var children := EvaluateMoves(r, c, p, moves, depth - 1).0;
      assert CertainInRange(children[FirstBest(children, r.turn(p) == White)]);
    }
  }

  lemma {:induction false} EvaluateMovesKeepsBounded<P(!new)>(r: Rules<P>, c: Cache, p: P, moves: seq<Move>, depth: nat)
    requires WellFormed(r) && Bounded(c)
    ensures var (children, c') := EvaluateMoves(r, c, p, moves, depth);
            (forall j :: 0 <= j < |children| ==> CertainInRange(children[j])) && Bounded(c')
    decreases depth, 2, |moves|
  {
    if moves != [] {
      var (e, c1) := Memo(r, c, r.play(p, moves[0]), depth);
      MemoKeepsBounded(r, c, r.play(p, moves[0]), depth);
      EvaluateMovesKeepsBounded(r, c1, p, moves[1..], depth);
    }
  }

  lemma {:induction false} MemoKeepsBounded<P(!new)>(r: Rules<P>, c: Cache, p: P, depth: nat)
    requires WellFormed(r) && Bounded(c)
    ensures CertainInRange(Memo(r, c, p, depth).0) && Bounded(Memo(r, c, p, depth).1)
    decreases depth, 1, 0
  {
    if r.boardKey(p) !in c {
      EvaluateKeepsBounded(r, c, p, depth);
    }
  }
}
