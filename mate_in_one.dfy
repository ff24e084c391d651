/**
 How the search ranks a mate in one when the rules behave like a legal-move
 generator: only the side to move has destinations, and every move passes the
 turn. Below a root searched at the default depth the leaves have the root's
 opponent to move, so their mobility value is at least one move in the
 opponent's favour. A certain value comes from a terminal score (-1, 0, 1) or
 from a table entry, so with a table of certain entries in [-1, 1] no candidate
 scores better for the root's side than 1 in its favour. When no table entry
 for the mated position's board key shadows it, a mating move scores exactly
 that, certainly, and then every best-ranked candidate, and so every random
 pick, is a certain win. This holds for either side to move at the root.
 */
module MateInOne {
  import opened ChessRules
  import opened Moves
  import opened Search
  import opened MovePicker

  /** Every move passes the turn to the other side. */
  ghost predicate Alternates<P(!new)>(r: Rules<P>)
  {
    forall p, m :: r.turn(r.play(p, m)) != r.turn(p)
  }

  ghost predicate LegalMoveRules<P(!new)>(r: Rules<P>)
  {
    WellFormed(r) && OnlyMoverMoves(r) && Alternates(r)
  }

  function Other(c: Color): Color
  {
    if c == White then Black else White
  }

  /** A value seen from the root's side: as it is for White, negated for Black. */
  function Gain(root: Color, v: int): int
  {
    if root == White then v else -v
  }

  /** The value of a position the side `root` has checkmated. */
  function Win(root: Color): int
  {
    if root == White then 1 else -1
  }

  /** Certain values lie in [-1, 1]; estimates are at least one move in the opponent's favour. */
  predicate InRange(root: Color, e: Evaluation)
  {
    if e.certain then -1 <= e.value <= 1 else Gain(root, e.value) <= -1
  }

  /** The side to move at a node with `depth` plies left below a root of colour `root` searched at an even depth. */
  function MoverAt(root: Color, depth: nat): Color
  {
    if depth % 2 == 0 then Other(root) else root
  }

  lemma {:induction false} EvaluateBound<P(!new)>(r: Rules<P>, c: Cache, p: P, depth: nat, root: Color)
    requires LegalMoveRules(r) && Bounded(c) && AllCertain(c) && r.turn(p) == MoverAt(root, depth)
    ensures InRange(root, Evaluate(r, c, p, depth).0) && Bounded(Evaluate(r, c, p, depth).1)
    decreases depth, 0, 0
  {
    if r.isStalemate(p) || r.isCheckmate(p) {
    } else if depth == 0 {
      HeuristicOfMover(r, p);
    } else {
      var moves := LegalMoves(r, p);
      EvaluateMovesBound(r, c, p, moves, depth - 1, root);
      var children := EvaluateMoves(r, c, p, moves, depth - 1).0;
      var i := FirstBest(children, r.turn(p) == White);
      assert InRange(root, children[i]);
    }
  }

  lemma {:induction false} EvaluateMovesBound<P(!new)>(r: Rules<P>, c: Cache, p: P, moves: seq<Move>, depth: nat, root: Color)
    requires LegalMoveRules(r) && Bounded(c) && AllCertain(c) && r.turn(p) != MoverAt(root, depth)
    ensures var (children, c') := EvaluateMoves(r, c, p, moves, depth);
            (forall j :: 0 <= j < |children| ==> InRange(root, children[j])) && Bounded(c')
    decreases depth, 2, |moves|
  {
    if moves != [] {
      var q := r.play(p, moves[0]);
      assert r.turn(q) != r.turn(p);
      var (e, c1) := Memo(r, c, q, depth);
      MemoBound(r, c, q, depth, root);
      MemoCacheInvariant(r, c, q, depth);
      EvaluateMovesBound(r, c1, p, moves[1..], depth, root);
    }
  }

  lemma {:induction false} MemoBound<P(!new)>(r: Rules<P>, c: Cache, p: P, depth: nat, root: Color)
    requires LegalMoveRules(r) && Bounded(c) && AllCertain(c) && r.turn(p) == MoverAt(root, depth)
    ensures InRange(root, Memo(r, c, p, depth).0) && Bounded(Memo(r, c, p, depth).1)
    decreases depth, 1, 0
  {
    if r.boardKey(p) !in c {
      EvaluateBound(r, c, p, depth, root);
    }
  }

  /**
   With legal-move rules and a table of certain entries in [-1, 1] (every table
   the engine builds), no candidate scores better for the side to move than 1 in
   its favour at the default depth. A move that checkmates, and whose mated
   position's board key is not in the table when its turn to be scored comes,
   scores that certain win, has the best value and is among the ties; and every
   candidate with the best value is a certain win.
   */
  lemma MateInOneTiesForBest<P(!new)>(r: Rules<P>, c: Cache, p: P, j: nat)
    requires LegalMoveRules(r) && Bounded(c) && AllCertain(c)
    requires j < |LegalMoves(r, p)|
    requires r.isCheckmate(r.play(p, LegalMoves(r, p)[j])) && !r.isStalemate(r.play(p, LegalMoves(r, p)[j]))
    requires r.boardKey(r.play(p, LegalMoves(r, p)[j])) !in
             EvaluateMoves(r, c, p, LegalMoves(r, p)[..j], SearchDepth).1
    ensures var root := r.turn(p);
            var moves := LegalMoves(r, p);
            var scores := EvaluateMoves(r, c, p, moves, SearchDepth).0;
            (forall i :: 0 <= i < |scores| ==> Gain(root, scores[i].value) <= 1) &&
            scores[j] == Evaluation(Win(root), true) &&
            IsBestAt(scores, j, root == White) &&
            moves[j] in Ties(moves, scores, scores[FirstBest(scores, root == White)].value) &&
            (forall i :: 0 <= i < |scores| && IsBestAt(scores, i, root == White) ==> scores[i] == Evaluation(Win(root), true))
  {
    var root := r.turn(p);
    var moves := LegalMoves(r, p);
    var scores := EvaluateMoves(r, c, p, moves, SearchDepth).0;
    var q := r.play(p, moves[j]);
    assert r.turn(q) == Other(root);
    EvaluateMovesAt(r, c, p, moves, SearchDepth, j);
    EvaluateMovesBound(r, c, p, moves, SearchDepth, root);
    assert scores[j] == Evaluation(Win(root), true);
    forall i | 0 <= i < |scores| && IsBestAt(scores, i, root == White)
      ensures scores[i] == Evaluation(Win(root), true)
    {
      assert InRange(root, scores[i]);
      assert Gain(root, scores[j].value) <= Gain(root, scores[i].value);
    }
    FirstBestIsOptimal(scores, root == White);
    TiesMembership(moves, scores, scores[FirstBest(scores, root == White)].value, moves[j]);
  }

  /**
   Under the same conditions the move picked at the root, whatever the random
   draw, is a candidate scored as a certain win for the side to move.
   */
  lemma MateInOnePicksWin<P(!new)>(r: Rules<P>, c: Cache, p: P, j: nat, random: real)
    requires LegalMoveRules(r) && Bounded(c) && AllCertain(c) && 0.0 <= random < 1.0
    requires j < |LegalMoves(r, p)|
    requires r.isCheckmate(r.play(p, LegalMoves(r, p)[j])) && !r.isStalemate(r.play(p, LegalMoves(r, p)[j]))
    requires r.boardKey(r.play(p, LegalMoves(r, p)[j])) !in
             EvaluateMoves(r, c, p, LegalMoves(r, p)[..j], SearchDepth).1
    ensures var moves := LegalMoves(r, p);
            var scores := EvaluateMoves(r, c, p, moves, SearchDepth).0;
            var choice := SelectMove(moves, scores, r.turn(p) == White, random);
            choice.Some? &&
            exists i :: 0 <= i < |moves| && moves[i] == choice.value && scores[i] == Evaluation(Win(r.turn(p)), true)
  {
    MateInOneTiesForBest(r, c, p, j);
  }

  /**
   The engine's own pick, from whatever table it has built: with a mate in one
   available under legal-move rules, the move it returns is a candidate scored
   as a certain win for the side to move.
   */
  method EnginePicksWin<P(!new)>(engine: Engine<P>, p: P, j: nat, random: real) returns (choice: Option<Move>)
    requires engine.Valid() && LegalMoveRules(engine.rules) && 0.0 <= random < 1.0
    requires j < |LegalMoves(engine.rules, p)|
    requires engine.rules.isCheckmate(engine.rules.play(p, LegalMoves(engine.rules, p)[j]))
    requires !engine.rules.isStalemate(engine.rules.play(p, LegalMoves(engine.rules, p)[j]))
    requires engine.rules.boardKey(engine.rules.play(p, LegalMoves(engine.rules, p)[j])) !in
             EvaluateMoves(engine.rules, engine.memo, p, LegalMoves(engine.rules, p)[..j], SearchDepth).1
    modifies engine
    ensures engine.Valid()
    ensures var moves := LegalMoves(engine.rules, p);
            var scores := EvaluateMoves(engine.rules, old(engine.memo), p, moves, SearchDepth).0;
            choice.Some? &&
            exists i :: 0 <= i < |moves| && moves[i] == choice.value && scores[i] == Evaluation(Win(engine.rules.turn(p)), true)
  {
    MateInOnePicksWin(engine.rules, engine.memo, p, j, random);
    choice := engine.PickBestMove(p, random);
  }
}
