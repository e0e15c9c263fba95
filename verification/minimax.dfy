/**
 * Depth-limited minimax over the rules engine. Every child is searched on
 * its own successor value, so the searched state is never altered.
 */
module MinimaxSearch {
  import opened Rules
  import opened Extended

  datatype Option<T> = None | Some(value: T)

  /** A search answer: the backed-up score and the chosen move, if any. */
  datatype SearchResult = SearchResult(score: ExtInt, move: Option<Line>)

  /** The answer at the search horizon or at the end of the game. */
  function Leaf(s: State): SearchResult {
    SearchResult(Fin(Evaluate(s)), None)
  }

  /** The child node maximises exactly when the AI is to move in it (after a capture that is the same side again). */
  predicate AiToMove(s: State) {
    s.current == AI
  }

  /** The score minimax backs up from the child reached by `m`. */
  function ChildScore(s: State, depth: nat, m: Line): ExtInt
    requires 0 < depth
    decreases depth, 0, 0
  {
    var c := MakeMove(s, m);
    Minimax(c, depth - 1, AiToMove(c)).score
  }

  function Minimax(s: State, depth: nat, maximizing: bool): (r: SearchResult)
    decreases depth, 2, 0
    ensures depth == 0 || IsTerminal(s) ==> r == Leaf(s)
    ensures r.move.Some? ==> r.move.value in PossibleMoves(s)
  {
    if depth == 0 || IsTerminal(s) then
      Leaf(s)
    else if maximizing then
      MaxLoop(s, depth, PossibleMoves(s), SearchResult(NegInf, None))
    else
      MinLoop(s, depth, PossibleMoves(s), SearchResult(PosInf, None))
  }

  /**
   * The maximising loop from the running answer `acc`: a child replaces it
   * only when strictly better, so the first best move in `moves` is kept.
   */
  function MaxLoop(s: State, depth: nat, moves: seq<Line>, acc: SearchResult): (r: SearchResult)
    requires 0 < depth
    decreases depth, 1, |moves|
    ensures Le(acc.score, r.score)
    ensures r.score == acc.score ==> r == acc
    ensures r.score != acc.score ==> r.move.Some? && r.move.value in moves
  {
    if moves == [] then
      acc
    else
      var e := ChildScore(s, depth, moves[0]);
      if Lt(acc.score, e) then MaxLoop(s, depth, moves[1..], SearchResult(e, Some(moves[0])))
      else MaxLoop(s, depth, moves[1..], acc)
  }

  /** The minimising loop: the mirror image of `MaxLoop`. */
  function MinLoop(s: State, depth: nat, moves: seq<Line>, acc: SearchResult): (r: SearchResult)
    requires 0 < depth
    decreases depth, 1, |moves|
    ensures Le(r.score, acc.score)
    ensures r.score == acc.score ==> r == acc
    ensures r.score != acc.score ==> r.move.Some? && r.move.value in moves
  {
    if moves == [] then
      acc
    else
      var e := ChildScore(s, depth, moves[0]);
      if Lt(e, acc.score) then MinLoop(s, depth, moves[1..], SearchResult(e, Some(moves[0])))
      else MinLoop(s, depth, moves[1..], acc)
  }

  /** An element of a prefix of the tail lies in the matching prefix of the whole sequence. */
  lemma TailPrefixes(moves: seq<Line>)
    requires moves != []
    ensures forall i, x :: 1 <= i < |moves| && x in moves[1..][..i] ==> x in moves[..i + 1]
  {
    forall i, x | 1 <= i < |moves| && x in moves[1..][..i]
      ensures x in moves[..i + 1]
    {
      assert moves[..i + 1] == [moves[0]] + moves[1..][..i];
    }
  }

  /**
   * What `MaxLoop` computes: a score no child falls above; a new move only
   * when some child beats `acc`, and then the first child, in the order of
   * `moves`, that reaches the score.
   */
  lemma {:induction false} MaxLoopSpec(s: State, depth: nat, moves: seq<Line>, acc: SearchResult)
    requires 0 < depth
    ensures var r := MaxLoop(s, depth, moves, acc);
            && (forall i :: 0 <= i < |moves| ==> Le(ChildScore(s, depth, moves[i]), r.score))
            && (r.score != acc.score ==> ChildScore(s, depth, r.move.value) == r.score)
            && (r.score != acc.score ==>
                  forall i :: 0 <= i < |moves| && ChildScore(s, depth, moves[i]) == r.score ==>
                    r.move.value in moves[..i + 1])
  {
    MaxLoopBound(s, depth, moves, acc);
    MaxLoopReached(s, depth, moves, acc);
    MaxLoopFirst(s, depth, moves, acc);
  }

  /** No child scores above the maximising loop's result. */
  lemma {:induction false} MaxLoopBound(s: State, depth: nat, moves: seq<Line>, acc: SearchResult)
    requires 0 < depth
    ensures forall i :: 0 <= i < |moves| ==> Le(ChildScore(s, depth, moves[i]), MaxLoop(s, depth, moves, acc).score)
    decreases |moves|
  {
    if moves != [] {
      var e := ChildScore(s, depth, moves[0]);
      var next := if Lt(acc.score, e) then SearchResult(e, Some(moves[0])) else acc;
      var r := MaxLoop(s, depth, moves, acc);
      assert r == MaxLoop(s, depth, moves[1..], next);
      MaxLoopBound(s, depth, moves[1..], next);
      forall i | 0 <= i < |moves|
        ensures Le(ChildScore(s, depth, moves[i]), r.score)
      {
        if i == 0 {
          LeTransitive(e, next.score, r.score);
        } else {
          assert moves[1..][i - 1] == moves[i];
        }
      }
    }
  }

  /** A new answer of the maximising loop carries a move whose child reaches its score. */
  lemma {:induction false} MaxLoopReached(s: State, depth: nat, moves: seq<Line>, acc: SearchResult)
    requires 0 < depth
    ensures var r := MaxLoop(s, depth, moves, acc);
            r.score != acc.score ==> ChildScore(s, depth, r.move.value) == r.score
    decreases |moves|
  {
    if moves != [] {
      var e := ChildScore(s, depth, moves[0]);
      var next := if Lt(acc.score, e) then SearchResult(e, Some(moves[0])) else acc;
      assert MaxLoop(s, depth, moves, acc) == MaxLoop(s, depth, moves[1..], next);
      MaxLoopReached(s, depth, moves[1..], next);
    }
  }

  /** A new answer of the maximising loop carries the first move, in list order, reaching its score. */
  lemma {:induction false} MaxLoopFirst(s: State, depth: nat, moves: seq<Line>, acc: SearchResult)
    requires 0 < depth
    ensures var r := MaxLoop(s, depth, moves, acc);
            r.score != acc.score ==>
              forall i :: 0 <= i < |moves| && ChildScore(s, depth, moves[i]) == r.score ==>
                r.move.value in moves[..i + 1]
    decreases |moves|
  {
    if moves != [] {
      var e := ChildScore(s, depth, moves[0]);
      var next := if Lt(acc.score, e) then SearchResult(e, Some(moves[0])) else acc;
      var r := MaxLoop(s, depth, moves, acc);
      assert r == MaxLoop(s, depth, moves[1..], next);
      MaxLoopFirst(s, depth, moves[1..], next);
      TailPrefixes(moves);
      if r.score != acc.score {
        if r.score == next.score {
          assert next != acc;
          assert r == next;
        }
        forall i | 0 <= i < |moves| && ChildScore(s, depth, moves[i]) == r.score
          ensures r.move.value in moves[..i + 1]
        {
          if r.score == next.score {
            assert r.move.value == moves[0];
          } else {
            assert i != 0;
            assert moves[1..][i - 1] == moves[i];
          }
        }
      }
    }
  }

  /** The mirror image of `MaxLoopSpec` for the minimising loop. */
  lemma {:induction false} MinLoopSpec(s: State, depth: nat, moves: seq<Line>, acc: SearchResult)
    requires 0 < depth
    ensures var r := MinLoop(s, depth, moves, acc);
            && (forall i :: 0 <= i < |moves| ==> Le(r.score, ChildScore(s, depth, moves[i])))
            && (r.score != acc.score ==> ChildScore(s, depth, r.move.value) == r.score)
            && (r.score != acc.score ==>
                  forall i :: 0 <= i < |moves| && ChildScore(s, depth, moves[i]) == r.score ==>
                    r.move.value in moves[..i + 1])
  {
    MinLoopBound(s, depth, moves, acc);
    MinLoopReached(s, depth, moves, acc);
    MinLoopFirst(s, depth, moves, acc);
  }

  /** No child scores below the minimising loop's result. */
  lemma {:induction false} MinLoopBound(s: State, depth: nat, moves: seq<Line>, acc: SearchResult)
    requires 0 < depth
    ensures forall i :: 0 <= i < |moves| ==> Le(MinLoop(s, depth, moves, acc).score, ChildScore(s, depth, moves[i]))
    decreases |moves|
  {
    if moves != [] {
      var e := ChildScore(s, depth, moves[0]);
      var next := if Lt(e, acc.score) then SearchResult(e, Some(moves[0])) else acc;
      var r := MinLoop(s, depth, moves, acc);
      assert r == MinLoop(s, depth, moves[1..], next);
      MinLoopBound(s, depth, moves[1..], next);
      forall i | 0 <= i < |moves|
        ensures Le(r.score, ChildScore(s, depth, moves[i]))
      {
        if i == 0 {
          LeTransitive(r.score, next.score, e);
        } else {
          assert moves[1..][i - 1] == moves[i];
        }
      }
    }
  }

  /** A new answer of the minimising loop carries a move whose child reaches its score. */
  lemma {:induction false} MinLoopReached(s: State, depth: nat, moves: seq<Line>, acc: SearchResult)
    requires 0 < depth
    ensures var r := MinLoop(s, depth, moves, acc);
            r.score != acc.score ==> ChildScore(s, depth, r.move.value) == r.score
    decreases |moves|
  {
    if moves != [] {
      var e := ChildScore(s, depth, moves[0]);
      var next := if Lt(e, acc.score) then SearchResult(e, Some(moves[0])) else acc;
      assert MinLoop(s, depth, moves, acc) == MinLoop(s, depth, moves[1..], next);
      MinLoopReached(s, depth, moves[1..], next);
    }
  }

  /** A new answer of the minimising loop carries the first move, in list order, reaching its score. */
  lemma {:induction false} MinLoopFirst(s: State, depth: nat, moves: seq<Line>, acc: SearchResult)
    requires 0 < depth
    ensures var r := MinLoop(s, depth, moves, acc);
            r.score != acc.score ==>
              forall i :: 0 <= i < |moves| && ChildScore(s, depth, moves[i]) == r.score ==>
                r.move.value in moves[..i + 1]
    decreases |moves|
  {
    if moves != [] {
      var e := ChildScore(s, depth, moves[0]);
      var next := if Lt(e, acc.score) then SearchResult(e, Some(moves[0])) else acc;
      var r := MinLoop(s, depth, moves, acc);
      assert r == MinLoop(s, depth, moves[1..], next);
      MinLoopFirst(s, depth, moves[1..], next);
      TailPrefixes(moves);
      if r.score != acc.score {
        if r.score == next.score {
          assert next != acc;
          assert r == next;
        }
        forall i | 0 <= i < |moves| && ChildScore(s, depth, moves[i]) == r.score
          ensures r.move.value in moves[..i + 1]
        {
          if r.score == next.score {
            assert r.move.value == moves[0];
          } else {
            assert i != 0;
            assert moves[1..][i - 1] == moves[i];
          }
        }
      }
    }
  }

  /**
   * Outside the base case the maximising search backs up the greatest child
   * score and the minimising one the least, and the move it returns is one
   * whose child reaches that score; no move is returned only when no child
   * beats the starting infinity.
   */
  lemma MinimaxBest(s: State, depth: nat, maximizing: bool)
    requires 0 < depth && !IsTerminal(s)
    ensures var r := Minimax(s, depth, maximizing);
            && (maximizing ==> forall i :: 0 <= i < |PossibleMoves(s)| ==> Le(ChildScore(s, depth, PossibleMoves(s)[i]), r.score))
            && (!maximizing ==> forall i :: 0 <= i < |PossibleMoves(s)| ==> Le(r.score, ChildScore(s, depth, PossibleMoves(s)[i])))
            && (r.move.None? <==> r.score == (if maximizing then NegInf else PosInf))
            && (r.move.Some? ==> ChildScore(s, depth, r.move.value) == r.score)
  {
    if maximizing {
      MaxLoopSpec(s, depth, PossibleMoves(s), SearchResult(NegInf, None));
    } else {
      MinLoopSpec(s, depth, PossibleMoves(s), SearchResult(PosInf, None));
    }
  }

  /**
   * The chosen move is the first one, in move-generation order, whose child
   * reaches the backed-up score (strict comparison keeps earlier ties).
   */
  lemma MinimaxFirstBest(s: State, depth: nat, maximizing: bool)
    requires 0 < depth && !IsTerminal(s)
    ensures Minimax(s, depth, maximizing).move.Some? ==>
              forall i :: 0 <= i < |PossibleMoves(s)| && ChildScore(s, depth, PossibleMoves(s)[i]) == Minimax(s, depth, maximizing).score ==>
                Minimax(s, depth, maximizing).move.value in PossibleMoves(s)[..i + 1]
  {
    if maximizing {
      MaxLoopSpec(s, depth, PossibleMoves(s), SearchResult(NegInf, None));
    } else {
      MinLoopSpec(s, depth, PossibleMoves(s), SearchResult(PosInf, None));
    }
  }

  /**
   * On a state reachable by legal play the search never answers an
   * infinity, stays within the score range of the grid, and proposes a
   * move whenever the game is not over and depth remains.
   */
  lemma {:induction false} MinimaxBounded(s: State, depth: nat, maximizing: bool)
    requires Consistent(s)
    ensures Within(Minimax(s, depth, maximizing).score, BoxCount(s.size))
    ensures 0 < depth && !IsTerminal(s) ==> Minimax(s, depth, maximizing).move.Some?
    decreases depth, 1
  {
    var r := Minimax(s, depth, maximizing);
    if depth == 0 || IsTerminal(s) {
      EvaluateInGrid(s);
    } else {
      var moves := PossibleMoves(s);
      TerminalIffNoMoves(s);
      PossibleMovesSpec(s);
      var first := moves[0];
      assert first in moves;
      ChildBounded(s, depth, first);
      MinimaxBest(s, depth, maximizing);
      assert r.move.Some? by {
        if maximizing {
          assert Le(ChildScore(s, depth, first), r.score);
        } else {
          assert Le(r.score, ChildScore(s, depth, first));
        }
      }
      ChildBounded(s, depth, r.move.value);
    }
  }

  /** The score backed up from a legal move of a consistent state is finite and within the grid's range. */
  lemma {:induction false} ChildBounded(s: State, depth: nat, m: Line)
    requires Consistent(s) && Legal(s, m) && 0 < depth
    ensures Within(ChildScore(s, depth, m), BoxCount(s.size))
    decreases depth, 0
  {
    var c := MakeMove(s, m);
    var r := Minimax(c, depth - 1, AiToMove(c));
    assert ChildScore(s, depth, m) == r.score;
    MakeMoveConsistent(s, m);
    MinimaxBounded(c, depth - 1, AiToMove(c));
  }

  /**
   * The child searched after `m` maximises exactly when the AI is to move
   * in it: a capturing move keeps the kind of node, any other move flips it.
   */
  lemma ChildKind(s: State, m: Line)
    ensures var c := MakeMove(s, m);
            AiToMove(c) == (if s.boxes.Keys < c.boxes.Keys then AiToMove(s) else !AiToMove(s))
  {
    MakeMoveSpec(s, m);
  }

  /**
   * On any state reached from a fresh game by legal moves the search score
   * is finite and within the grid's range, and while the game is not over a
   * positive depth yields a legal move.
   */
  lemma MinimaxReachable(n: int, ms: seq<Line>, depth: nat, maximizing: bool)
    requires 2 <= n && LegalPlay(Init(n), ms)
    ensures var s := Play(Init(n), ms);
            var r := Minimax(s, depth, maximizing);
            && Within(r.score, BoxCount(n))
            && (0 < depth && !IsTerminal(s) ==> r.move.Some? && Legal(s, r.move.value))
  {
    var s := Play(Init(n), ms);
    ReachableConsistent(n, ms);
    MinimaxBounded(s, depth, maximizing);
    PossibleMovesSpec(s);
  }

  /** The move the AI plays on its turn: a two-ply maximising search. */
  function AiMove(s: State): Option<Line> {
    Minimax(s, 2, true).move
  }

  /** On a consistent state that is not over, the AI's search proposes a legal move. */
  lemma AiMoveLegal(s: State)
    ensures Consistent(s) && !IsTerminal(s) ==> AiMove(s).Some? && Legal(s, AiMove(s).value)
  {
    if Consistent(s) && !IsTerminal(s) {
      MinimaxBounded(s, 2, true);
      PossibleMovesSpec(s);
    }
  }
}
