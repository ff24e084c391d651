/**
 The enumeration of candidate moves in the move picker: for each square holding
 a piece of one colour, each destination the rules report for it, as a
 (from, to) pair. The same enumeration serves the mobility heuristic, the
 search and the root move choice.
 */
module Moves {
  import opened ChessRules

  /** The (from, to) pairs for the destinations `tos` of the piece on `from`. */
  function Targets(from: Square, tos: seq<Square>): seq<Move>
  {
    if tos == [] then [] else [Move(from, tos[0])] + Targets(from, tos[1..])
  }

  /** All (from, to) pairs for the pieces on `froms`: the flatMap over occupied squares. */
  function MovesFrom<P(!new)>(r: Rules<P>, p: P, froms: seq<Square>): seq<Move>
  {
    if froms == [] then [] else Targets(froms[0], r.dests(p, froms[0])) + MovesFrom(r, p, froms[1..])
  }

  /** Every (from, to) pair of the pieces of colour c. */
  function MovesOf<P(!new)>(r: Rules<P>, p: P, c: Color): seq<Move>
  {
    MovesFrom(r, p, r.occupied(p, c))
  }

  /** The candidate moves of the side to move, in enumeration order. */
  function LegalMoves<P(!new)>(r: Rules<P>, p: P): seq<Move>
  {
    MovesOf(r, p, r.turn(p))
  }

  /**
   What a correct rules library guarantees and the search relies on: a position
   that is neither stalemate nor checkmate has at least one move.
   */
  ghost predicate WellFormed<P(!new)>(r: Rules<P>)
  {
    forall p :: !r.isStalemate(p) && !r.isCheckmate(p) ==> LegalMoves(r, p) != []
  }

  /** The number of destinations reported for the pieces on `froms`. */
  function DestCount<P(!new)>(r: Rules<P>, p: P, froms: seq<Square>): nat
  {
    if froms == [] then 0 else |r.dests(p, froms[0])| + DestCount(r, p, froms[1..])
  }

  lemma {:induction false} TargetsMembership(from: Square, tos: seq<Square>, m: Move)
    ensures |Targets(from, tos)| == |tos|
    ensures m in Targets(from, tos) <==> m.from == from && m.to in tos
  {
    if tos != [] {
      TargetsMembership(from, tos[1..], m);
    }
  }

  /** A pair is enumerated exactly when its origin is one of `froms` and its destination is reported for it. */
  lemma {:induction false} MovesFromMembership<P(!new)>(r: Rules<P>, p: P, froms: seq<Square>, m: Move)
    ensures m in MovesFrom(r, p, froms) <==> m.from in froms && m.to in r.dests(p, m.from)
  {
    if froms != [] {
      TargetsMembership(froms[0], r.dests(p, froms[0]), m);
      MovesFromMembership(r, p, froms[1..], m);
    }
  }

  /** The number of enumerated pairs is the total number of reported destinations. */
  lemma {:induction false} MovesFromCount<P(!new)>(r: Rules<P>, p: P, froms: seq<Square>)
    ensures |MovesFrom(r, p, froms)| == DestCount(r, p, froms)
  {
    if froms != [] {
      TargetsMembership(froms[0], r.dests(p, froms[0]), Move(0, 0));
      MovesFromCount(r, p, froms[1..]);
    }
  }

  /** A legal move starts on a square of the side to move and ends on a reported destination. */
  lemma LegalMovesMembership<P(!new)>(r: Rules<P>, p: P, m: Move)
    ensures m in LegalMoves(r, p) <==> m.from in r.occupied(p, r.turn(p)) && m.to in r.dests(p, m.from)
  {
    MovesFromMembership(r, p, r.occupied(p, r.turn(p)), m);
  }

  /**
   Rules that, like a legal-move generator, report no destination for a piece
   of the side not to move.
   */
  ghost predicate OnlyMoverMoves<P(!new)>(r: Rules<P>)
  {
    forall p, c, s :: c != r.turn(p) && s in r.occupied(p, c) ==> r.dests(p, s) == []
  }

  /** Squares with no reported destination contribute no pair. */
  lemma {:induction false} MovesFromNoDests<P(!new)>(r: Rules<P>, p: P, froms: seq<Square>)
    requires forall s :: s in froms ==> r.dests(p, s) == []
    ensures MovesFrom(r, p, froms) == []
  {
    if froms != [] {
      assert r.dests(p, froms[0]) == [];
      MovesFromNoDests(r, p, froms[1..]);
    }
  }
}
