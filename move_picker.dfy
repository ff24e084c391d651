/**
 The move picker as the source runs it: an engine object owning the memo table
 (the module-level dictionary of the source), the mutually recursive search
 methods that fill it, and the root move choice. Every method is proved to
 compute what the pure functions of module Search say, so the lemmas there
 carry over to the engine's results and to its table.
 */
module MovePicker {
  import opened ChessRules
  import opened Moves
  import opened Search

  datatype Option<T> = None | Some(value: T)

  /** The tied candidates: the moves whose evaluation has value v, in enumeration order. */
  function Ties(moves: seq<Move>, scores: seq<Evaluation>, v: int): seq<Move>
    requires |moves| == |scores|
    decreases |moves|
  {
    if moves == [] then []
    else
      var n := |moves| - 1;
      Ties(moves[..n], scores[..n], v) + (if scores[n].value == v then [moves[n]] else [])
  }

  /** The tie list holds exactly the candidates whose value is v. */
  lemma {:induction false} TiesMembership(moves: seq<Move>, scores: seq<Evaluation>, v: int, m: Move)
    requires |moves| == |scores|
    ensures m in Ties(moves, scores, v) <==> exists i :: 0 <= i < |moves| && moves[i] == m && scores[i].value == v
    decreases |moves|
  {
    if moves != [] {
      var n := |moves| - 1;
      TiesMembership(moves[..n], scores[..n], v, m);
      if m in Ties(moves[..n], scores[..n], v) {
        var i :| 0 <= i < n && moves[..n][i] == m && scores[..n][i].value == v;
        assert moves[i] == m && scores[i].value == v;
      }
      if exists i :: 0 <= i < |moves| && moves[i] == m && scores[i].value == v {
        var i :| 0 <= i < |moves| && moves[i] == m && scores[i].value == v;
        if i < n {
          assert moves[..n][i] == m && scores[..n][i].value == v;
        }
      }
    }
  }

  /** When no candidate has value v there are no ties. */
  lemma {:induction false} TiesEmpty(moves: seq<Move>, scores: seq<Evaluation>, v: int)
    requires |moves| == |scores|
    requires forall i :: 0 <= i < |scores| ==> scores[i].value != v
    ensures Ties(moves, scores, v) == []
    decreases |moves|
  {
    if moves != [] {
      var n := |moves| - 1;
      TiesEmpty(moves[..n], scores[..n], v);
    }
  }

  /** Math.floor(random * n): an index in [0, n) when random lies in [0, 1). */
  function PickIndex(n: nat, random: real): (k: nat)
    requires 0 < n && 0.0 <= random < 1.0
    ensures k < n
  {
    assert 0.0 <= random * n as real < n as real;
    (random * n as real).Floor
  }

  /**
   The root choice once every candidate is scored: the moves tied for the first
   ranked value, and the one among them that `random` selects. With no candidate
   the tie list is empty and nothing is chosen.
   */
  function SelectMove(moves: seq<Move>, scores: seq<Evaluation>, maximise: bool, random: real): (choice: Option<Move>)
    requires |moves| == |scores| && 0.0 <= random < 1.0
    ensures choice.None? <==> moves == []
    ensures choice.Some? ==> choice.value in moves
    ensures choice.Some? ==> exists i :: 0 <= i < |moves| && moves[i] == choice.value && IsBestAt(scores, i, maximise)
  {
    if moves == [] then None
    else
      var b := FirstBest(scores, maximise);
      var ties := Ties(moves, scores, scores[b].value);
      TiesMembership(moves, scores, scores[b].value, moves[b]);
      var m := ties[PickIndex(|ties|, random)];
      TiesMembership(moves, scores, scores[b].value, m);
      FirstBestIsOptimal(scores, maximise);
      Some(m)
  }

  /** One more candidate extends the prefix's first-ranked index and tie list as the loop below does. */
  lemma PrefixStep(moves: seq<Move>, scores: seq<Evaluation>, maximise: bool, i: nat, v: int)
    requires |moves| == |scores| && 0 < i < |scores|
    ensures FirstBest(scores[..i + 1], maximise) ==
            var k := FirstBest(scores[..i], maximise);
            if Compare(scores[i], scores[k], maximise) < 0 then i else k
    ensures Ties(moves[..i + 1], scores[..i + 1], v) ==
            Ties(moves[..i], scores[..i], v) + (if scores[i].value == v then [moves[i]] else [])
  {
    assert moves[..i + 1][..i] == moves[..i];
    assert scores[..i + 1][..i] == scores[..i];
  }

  /** A candidate strictly better than the prefix's first-ranked one becomes first and has no tie before it. */
  lemma NewBestClearsTies(moves: seq<Move>, scores: seq<Evaluation>, maximise: bool, i: nat)
    requires |moves| == |scores| && 0 < i < |scores|
    requires Compare(scores[i], scores[FirstBest(scores[..i], maximise)], maximise) < 0
    ensures FirstBest(scores[..i + 1], maximise) == i
    ensures Ties(moves[..i + 1], scores[..i + 1], scores[i].value) == [moves[i]]
  {
    var best := scores[FirstBest(scores[..i], maximise)];
    forall j | 0 <= j < i
      ensures scores[..i][j].value != scores[i].value
    {
      CompareOrder(best, scores[..i][j], maximise);
      CompareOrder(scores[i], best, maximise);
    }
    TiesEmpty(moves[..i], scores[..i], scores[i].value);
    PrefixStep(moves, scores, maximise, i, scores[i].value);
  }

  /**
   The tail of pickBestMove: one pass over the scored candidates keeping the best
   value so far and the moves that share it, then the random pick among them.
   */
  method ChooseAmongBest(moves: seq<Move>, scores: seq<Evaluation>, maximise: bool, random: real)
    returns (choice: Option<Move>)
    requires |moves| == |scores| && 0.0 <= random < 1.0
    ensures choice == SelectMove(moves, scores, maximise, random)
  {
    var best := Evaluation(0, false);
    var ties: seq<Move> := [];
    for i := 0 to |moves|
      invariant i > 0 ==> best == scores[FirstBest(scores[..i], maximise)]
      invariant ties == if i == 0 then [] else Ties(moves[..i], scores[..i], best.value)
    {
      if i == 0 || Compare(scores[i], best, maximise) < 0 {
        if i == 0 {
          assert moves[..1] == [moves[0]] && scores[..1] == [scores[0]];
        } else {
          NewBestClearsTies(moves, scores, maximise, i);
        }
        best := scores[i];
        ties := [moves[i]];
      } else {
        PrefixStep(moves, scores, maximise, i, best.value);
        if scores[i].value == best.value {
          ties := ties + [moves[i]];
        }
      }
    }
    assert moves[..|moves|] == moves;
    assert scores[..|scores|] == scores;
    if ties == [] {
      choice := None;
    } else {
      choice := Some(ties[PickIndex(|ties|, random)]);
    }
  }

  /** The search engine: the rules it plays by and the memo table of certain evaluations, each in [-1, 1]. */
  class Engine<P(!new)> {
    const rules: Rules<P>
    var memo: Cache

    ghost predicate Valid()
      reads this
    {
      WellFormed(rules) && AllCertain(memo) && Bounded(memo)
    }

    /** An engine for the given rules, with an empty table (the table as the program starts). */
    constructor (rules: Rules<P>)
      requires WellFormed(rules)
      ensures Valid() && this.rules == rules && memo == map[]
    {
      this.rules := rules;
      memo := map[];
    }

    /** evaluateState. */
    method EvaluateState(p: P, depth: nat) returns (e: Evaluation)
      requires Valid()
      modifies this
      ensures Valid()
      ensures (e, memo) == Evaluate(rules, old(memo), p, depth)
      decreases depth, 0
    {
      if rules.isStalemate(p) {
        return Evaluation(0, true);
      }
      if rules.isCheckmate(p) {
        return Evaluation(if rules.turn(p) == White then -1 else 1, true);
      }
      if depth == 0 {
        return Heuristic(rules, p);
      }
      var ranked := ScoreMoves(p, LegalMoves(rules, p), depth - 1);
      e := ranked[FirstBest(ranked, rules.turn(p) == White)];
    }

    /** The map over the candidate moves: evaluate each resulting position through the memo, in order. */
    method ScoreMoves(p: P, moves: seq<Move>, depth: nat) returns (scores: seq<Evaluation>)
      requires Valid()
      modifies this
      ensures Valid()
      ensures (scores, memo) == EvaluateMoves(rules, old(memo), p, moves, depth)
      decreases depth, 2
    {
      scores := [];
      var i := 0;
      assert moves[0..] == moves;
      while i < |moves|
        invariant 0 <= i <= |moves|
        invariant Valid()
        invariant EvaluateMoves(rules, old(memo), p, moves, depth).0 ==
                  scores + EvaluateMoves(rules, memo, p, moves[i..], depth).0
        invariant EvaluateMoves(rules, old(memo), p, moves, depth).1 ==
                  EvaluateMoves(rules, memo, p, moves[i..], depth).1
      {
        assert moves[i..][0] == moves[i];
        assert moves[i..][1..] == moves[i + 1..];
        ghost var before := memo;
        var e := MemoEvaluate(rules.play(p, moves[i]), depth);
        assert EvaluateMoves(rules, before, p, moves[i..], depth).0 ==
               [e] + EvaluateMoves(rules, memo, p, moves[i + 1..], depth).0;
        scores := scores + [e];
        i := i + 1;
      }
      assert moves[i..] == [];
      assert scores + [] == scores;
    }

    /** memoEvaluateStateForPlayer. */
    method MemoEvaluate(p: P, depth: nat) returns (e: Evaluation)
      requires Valid()
      modifies this
      ensures Valid()
      ensures (e, memo) == Memo(rules, old(memo), p, depth)
      decreases depth, 1
    {
      var key := rules.boardKey(p);
      if key in memo {
        return memo[key];
      }
      e := EvaluateState(p, depth);
      EvaluateKeepsBounded(rules, old(memo), p, depth);
      if e.certain {
        memo := memo[key := e];
      }
    }

    /**
     pickBestMove: score every candidate of the side to move at the default
     depth, then pick, with `random` in the role of Math.random(), among the
     moves tied for the best value. None stands for the undefined result when
     the side to move has no candidate.
     */
    method PickBestMove(p: P, random: real) returns (choice: Option<Move>)
      requires Valid() && 0.0 <= random < 1.0
      modifies this
      ensures Valid()
      ensures var moves := LegalMoves(rules, p);
              var (scores, c') := EvaluateMoves(rules, old(memo), p, moves, SearchDepth);
              memo == c' && choice == SelectMove(moves, scores, rules.turn(p) == White, random)
      ensures choice.None? <==> LegalMoves(rules, p) == []
      ensures choice.Some? ==> choice.value in LegalMoves(rules, p)
    {
      var moves := LegalMoves(rules, p);
      var scores := ScoreMoves(p, moves, SearchDepth);
      choice := ChooseAmongBest(moves, scores, rules.turn(p) == White, random);
    }
  }
}
