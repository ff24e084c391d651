/**
 A concrete game on integer positions showing how the engine ranks a mate in
 one when the rules report destinations for the side NOT to move. A checkmate
 scores 1 for White, on the same scale as the mobility difference, so a quiet
 move whose line ends in a larger mobility lead ranks above the mating move.
 Such rules are not those of a legal-move generator (`OnlyMoverMoves` fails for
 them); under legal-move rules the mate ties for best instead, as module
 MateInOne proves.

 Position 0: White to move, two moves (to 1 and to 2). Position 1: Black is
 checkmated. Positions 2, 3, 4: one move each, to the next position, with the
 side to move alternating; at position 4, Black to move, White's piece still
 has five reported destinations and Black's one.
 */
module Scenarios {
  import opened ChessRules
  import opened Moves
  import opened Search
  import opened MovePicker

  function ExampleRules(): Rules<int>
  {
    Rules(
      p => if p == 0 || p == 3 then White else Black,
      p => false,
      p => p == 1,
      (p, c) => if c == White then [0] else [1],
      (p, s) => if p == 0 && s == 0 then [1, 2]
                else if p == 4 && s == 0 then [1, 2, 3, 4, 5]
                else [1],
      (p: int, m: Move) => if p == 0 then m.to as int else p + 1,
      p => seq(if p < 0 then 0 else p, i => 'x'))
  }

  /** With a single piece of colour c, its pairs are the pairs of that piece. */
  lemma OnePiece(r: Rules<int>, p: int, c: Color, sq: Square)
    requires r.occupied(p, c) == [sq]
    ensures MovesOf(r, p, c) == Targets(sq, r.dests(p, sq))
  {
    assert r.occupied(p, c)[1..] == [];
    assert MovesFrom(r, p, []) == [];
    assert Targets(sq, r.dests(p, sq)) + [] == Targets(sq, r.dests(p, sq));
  }

  lemma ExampleWellFormed()
    ensures WellFormed(ExampleRules())
  {
    var r := ExampleRules();
    forall p: int
      ensures LegalMoves(r, p) != []
    {
      var sq := r.occupied(p, r.turn(p))[0];
      assert r.occupied(p, r.turn(p)) == [sq];
      assert r.dests(p, sq) != [];
      assert Targets(sq, r.dests(p, sq)) != [];
    }
  }

  /** The example reports destinations for White's piece while Black is to move at position 4. */
  lemma ExampleNotOnlyMover()
    ensures !OnlyMoverMoves(ExampleRules())
  {
    var r := ExampleRules();
    assert r.turn(4) == Black && 0 in r.occupied(4, White) && r.dests(4, 0) != [];
  }

  /** The table after the mating move is scored: the mated position's key, stored as a certain 1. */
  function MateTable(): Cache
  {
    map[ExampleRules().boardKey(1) := Evaluation(1, true)]
  }

  lemma ExampleEnumeration()
    ensures LegalMoves(ExampleRules(), 0) == [Move(0, 1), Move(0, 2)]
    ensures LegalMoves(ExampleRules(), 2) == [Move(1, 1)]
    ensures LegalMoves(ExampleRules(), 3) == [Move(0, 1)]
    ensures Heuristic(ExampleRules(), 4) == Evaluation(4, false)
  {
    var r := ExampleRules();
    assert Targets(0, [1, 2]) == [Move(0, 1), Move(0, 2)];
    assert Targets(0, [1]) == [Move(0, 1)];
    assert Targets(1, [1]) == [Move(1, 1)];
    assert Targets(0, [1, 2, 3, 4, 5]) == [Move(0, 1), Move(0, 2), Move(0, 3), Move(0, 4), Move(0, 5)];
    OnePiece(r, 0, White, 0);
    OnePiece(r, 2, Black, 1);
    OnePiece(r, 3, White, 0);
    OnePiece(r, 4, White, 0);
    OnePiece(r, 4, Black, 1);
  }

  /** The quiet line 2, 3, 4 from the mate table: a mobility value of 4, nothing stored. */
  lemma QuietLine()
    ensures WellFormed(ExampleRules())
    ensures Memo(ExampleRules(), MateTable(), 2, 2) == (Evaluation(4, false), MateTable())
  {
    ExampleWellFormed();
    ExampleEnumeration();
    var r := ExampleRules();
    var c1 := MateTable();
    assert r.boardKey(4) !in c1 && r.boardKey(3) !in c1 && r.boardKey(2) !in c1 by {
      assert |r.boardKey(1)| == 1;
      assert |r.boardKey(2)| == 2 && |r.boardKey(3)| == 3 && |r.boardKey(4)| == 4;
    }
    assert Memo(r, c1, 4, 0) == (Evaluation(4, false), c1);
    assert r.play(3, Move(0, 1)) == 4 && r.play(2, Move(1, 1)) == 3;
    assert [Move(0, 1)][1..] == [] && [Move(1, 1)][1..] == [];
    assert EvaluateMoves(r, c1, 3, [], 0) == ([], c1);
    assert [Move(0, 1)][0] == Move(0, 1);
    assert Memo(r, c1, r.play(3, [Move(0, 1)][0]), 0) == (Evaluation(4, false), c1);
    assert [Evaluation(4, false)] + [] == [Evaluation(4, false)];
    assert EvaluateMoves(r, c1, 3, [Move(0, 1)], 0) == ([Evaluation(4, false)], c1);
    assert Evaluate(r, c1, 3, 1) == (Evaluation(4, false), c1);
    assert Memo(r, c1, 3, 1) == (Evaluation(4, false), c1);
    assert EvaluateMoves(r, c1, 2, [Move(1, 1)], 1) == ([Evaluation(4, false)], c1);
    assert Evaluate(r, c1, 2, 2) == (Evaluation(4, false), c1);
  }

  /** The mated position, scored from an empty table: a certain 1, stored under its key. */
  lemma MateScored()
    ensures WellFormed(ExampleRules())
    ensures Memo(ExampleRules(), map[], 1, SearchDepth) == (Evaluation(1, true), MateTable())
  {
    ExampleWellFormed();
  }

  /** One step of the children's evaluation, for a list given by its head and tail. */
  lemma EvaluateMovesCons<P(!new)>(r: Rules<P>, c: Cache, p: P, m: Move, ms: seq<Move>, depth: nat,
                                   e: Evaluation, c1: Cache, rest: seq<Evaluation>, c2: Cache)
    requires WellFormed(r)
    requires Memo(r, c, r.play(p, m), depth) == (e, c1)
    requires EvaluateMoves(r, c1, p, ms, depth) == (rest, c2)
    ensures EvaluateMoves(r, c, p, [m] + ms, depth) == ([e] + rest, c2)
  {
    assert ([m] + ms)[0] == m && ([m] + ms)[1..] == ms;
  }

  /** Scoring two root moves at position 0 from an empty table, given what each child scores. */
  lemma TwoRootMoves(r: Rules<int>, c1: Cache, depth: nat)
    requires WellFormed(r)
    requires r.play(0, Move(0, 1)) == 1 && r.play(0, Move(0, 2)) == 2
    requires Memo(r, map[], 1, depth) == (Evaluation(1, true), c1)
    requires Memo(r, c1, 2, depth) == (Evaluation(4, false), c1)
    ensures EvaluateMoves(r, map[], 0, [Move(0, 1), Move(0, 2)], depth) ==
            ([Evaluation(1, true), Evaluation(4, false)], c1)
  {
    assert [Move(0, 2)] + [] == [Move(0, 2)] && [Evaluation(4, false)] + [] == [Evaluation(4, false)];
    EvaluateMovesCons(r, c1, 0, Move(0, 2), [], depth, Evaluation(4, false), c1, [], c1);
    assert [Move(0, 1)] + [Move(0, 2)] == [Move(0, 1), Move(0, 2)];
    assert [Evaluation(1, true)] + [Evaluation(4, false)] == [Evaluation(1, true), Evaluation(4, false)];
    EvaluateMovesCons(r, map[], 0, Move(0, 1), [Move(0, 2)], depth,
                      Evaluation(1, true), c1, [Evaluation(4, false)], c1);
  }

  /** Root scoring from an empty table: the mating move scores a certain 1, the quiet move 4. */
  lemma RootScores()
    ensures WellFormed(ExampleRules())
    ensures EvaluateMoves(ExampleRules(), map[], 0, [Move(0, 1), Move(0, 2)], SearchDepth) ==
            ([Evaluation(1, true), Evaluation(4, false)], MateTable())
  {
    QuietLine();
    MateScored();
    TwoRootMoves(ExampleRules(), MateTable(), SearchDepth);
  }

  /**
   From an empty table, White's mating move 0-1 scores 1 with certainty, the
   quiet move 0-2 scores 4 from the mobility at position 4, and the engine picks
   the quiet move whatever the random draw.
   */
  lemma MateInOneOutranked(random: real)
    requires 0.0 <= random < 1.0
    ensures WellFormed(ExampleRules()) && !OnlyMoverMoves(ExampleRules())
    ensures var r := ExampleRules();
            var moves := LegalMoves(r, 0);
            var scores := EvaluateMoves(r, map[], 0, moves, SearchDepth).0;
            moves == [Move(0, 1), Move(0, 2)] &&
            r.isCheckmate(r.play(0, Move(0, 1))) &&
            scores == [Evaluation(1, true), Evaluation(4, false)] &&
            SelectMove(moves, scores, true, random) == Some(Move(0, 2))
  {
    ExampleNotOnlyMover();
    ExampleEnumeration();
    RootScores();
    var moves := [Move(0, 1), Move(0, 2)];
    var scores := [Evaluation(1, true), Evaluation(4, false)];
    assert FirstBest(scores, true) == 1 by {
      assert scores[..1] == [Evaluation(1, true)];
    }
    assert Ties(moves, scores, 4) == [Move(0, 2)] by {
      assert moves[..1] == [Move(0, 1)] && scores[..1] == [Evaluation(1, true)];
      assert moves[..0] == [] && scores[..0] == [];
    }
  }
}
