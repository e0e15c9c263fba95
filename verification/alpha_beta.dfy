/**
 * Minimax with an `(alpha, beta)` window: the same search, cut short once
 * the window closes. The results below show that the cut never changes
 * the answer the caller can observe.
 */
module AlphaBetaSearch {
  import opened Rules
  import opened Extended
  import opened MinimaxSearch

  function AlphaBeta(s: State, depth: nat, alpha: ExtInt, beta: ExtInt, maximizing: bool): (r: SearchResult)
    decreases depth, 2, 0
    ensures depth == 0 || IsTerminal(s) ==> r == Leaf(s)
    ensures r.move.Some? ==> r.move.value in PossibleMoves(s)
    ensures 0 < depth && !IsTerminal(s) ==> (r.move.None? <==> r.score == (if maximizing then NegInf else PosInf))
  {
    if depth == 0 || IsTerminal(s) then
      Leaf(s)
    else if maximizing then
      MaxWindow(s, depth, PossibleMoves(s), alpha, beta, SearchResult(NegInf, None))
    else
      MinWindow(s, depth, PossibleMoves(s), alpha, beta, SearchResult(PosInf, None))
  }

  /** The pruned score of the child reached by `m`, searched in the current window. */
  function PrunedScore(s: State, depth: nat, m: Line, alpha: ExtInt, beta: ExtInt): ExtInt
    requires 0 < depth
    decreases depth, 0, 0
  {
    var c := MakeMove(s, m);
    AlphaBeta(c, depth - 1, alpha, beta, AiToMove(c)).score
  }

  /**
   * The maximising loop: keep the first strictly best child, raise `alpha`
   * to each child's score, and stop as soon as `beta <= alpha`.
   */
  function MaxWindow(s: State, depth: nat, moves: seq<Line>, alpha: ExtInt, beta: ExtInt, acc: SearchResult): (r: SearchResult)
    requires 0 < depth
    decreases depth, 1, |moves|
    ensures Le(acc.score, r.score)
    ensures r.score == acc.score ==> r == acc
    ensures r.score != acc.score ==> r.move.Some? && r.move.value in moves
  {
    if moves == [] then
      acc
    else
      var e := PrunedScore(s, depth, moves[0], alpha, beta);
      var next := if Lt(acc.score, e) then SearchResult(e, Some(moves[0])) else acc;
      var alpha' := Max(alpha, e);
      if Le(beta, alpha') then next else MaxWindow(s, depth, moves[1..], alpha', beta, next)
  }

  /** The minimising loop: lower `beta` to each child's score and stop once `beta <= alpha`. */
  function MinWindow(s: State, depth: nat, moves: seq<Line>, alpha: ExtInt, beta: ExtInt, acc: SearchResult): (r: SearchResult)
    requires 0 < depth
    decreases depth, 1, |moves|
    ensures Le(r.score, acc.score)
    ensures r.score == acc.score ==> r == acc
    ensures r.score != acc.score ==> r.move.Some? && r.move.value in moves
  {
    if moves == [] then
      acc
    else
      var e := PrunedScore(s, depth, moves[0], alpha, beta);
      var next := if Lt(e, acc.score) then SearchResult(e, Some(moves[0])) else acc;
      var beta' := Min(beta, e);
      if Le(beta', alpha) then next else MinWindow(s, depth, moves[1..], alpha, beta', next)
  }

  /**
   * Soundness of the window (Knuth and Moore): for any window `a < b`, the
   * pruned score and the minimax score clamp to the same value in `[a, b]`.
   */
  lemma {:induction false} Sound(s: State, depth: nat, a: ExtInt, b: ExtInt, maximizing: bool)
    requires Lt(a, b)
    ensures Agree(AlphaBeta(s, depth, a, b, maximizing).score, Minimax(s, depth, maximizing).score, a, b)
    decreases depth, 2, 0
  {
    if depth == 0 || IsTerminal(s) {
    } else if maximizing {
      MaxWindowSound(s, depth, PossibleMoves(s), a, b, SearchResult(NegInf, None), SearchResult(NegInf, None));
    } else {
      MinWindowSound(s, depth, PossibleMoves(s), a, b, SearchResult(PosInf, None), SearchResult(PosInf, None));
    }
  }

  /** Soundness for the child reached by `m`, searched one level deeper. */
  lemma {:induction false} ChildSound(s: State, depth: nat, m: Line, alpha: ExtInt, beta: ExtInt)
    requires 0 < depth && Lt(alpha, beta)
    ensures Agree(PrunedScore(s, depth, m, alpha, beta), ChildScore(s, depth, m), alpha, beta)
    decreases depth, 0, 0
  {
    var c := MakeMove(s, m);
    var x := AlphaBeta(c, depth - 1, alpha, beta, AiToMove(c)).score;
    var y := Minimax(c, depth - 1, AiToMove(c)).score;
    Sound(c, depth - 1, alpha, beta, AiToMove(c));
    assert Agree(x, y, alpha, beta);
    assert PrunedScore(s, depth, m, alpha, beta) == x;
    assert ChildScore(s, depth, m) == y;
  }

  /** The maximising loops of both searches agree up to the clamp into `[a, b]`. */
  lemma {:induction false} MaxWindowSound(s: State, depth: nat, moves: seq<Line>, a: ExtInt, b: ExtInt,
                                          pruned: SearchResult, full: SearchResult)
    requires 0 < depth
    requires Lt(a, b) && Lt(Max(a, pruned.score), b)
    requires Clamp(pruned.score, a, b) == Clamp(full.score, a, b)
    ensures Clamp(MaxWindow(s, depth, moves, Max(a, pruned.score), b, pruned).score, a, b)
         == Clamp(MaxLoop(s, depth, moves, full).score, a, b)
    decreases depth, 1, |moves|
  {
    if moves != [] {
      var m := moves[0];
      var alpha := Max(a, pruned.score);
      var e := PrunedScore(s, depth, m, alpha, b);
      var v := ChildScore(s, depth, m);
      ChildSound(s, depth, m, alpha, b);
      var pruned' := if Lt(pruned.score, e) then SearchResult(e, Some(m)) else pruned;
      var full' := if Lt(full.score, v) then SearchResult(v, Some(m)) else full;
      MaxUpdate(pruned.score, e);
      MaxUpdate(full.score, v);
      MaxStep(a, b, pruned.score, full.score, e, v);
      var alpha' := Max(alpha, e);
      MaxAssoc(a, pruned.score, e);
      assert MaxLoop(s, depth, moves, full) == MaxLoop(s, depth, moves[1..], full');
      if Le(b, alpha') {
        assert MaxWindow(s, depth, moves, alpha, b, pruned) == pruned';
        MaxCutoff(a, b, pruned'.score);
        ClampTop(full'.score, MaxLoop(s, depth, moves[1..], full').score, a, b);
      } else {
        assert MaxWindow(s, depth, moves, alpha, b, pruned) == MaxWindow(s, depth, moves[1..], alpha', b, pruned');
        MaxWindowSound(s, depth, moves[1..], a, b, pruned', full');
      }
    }
  }

  /** The minimising loops of both searches agree up to the clamp into `[a, b]`. */
  lemma {:induction false} MinWindowSound(s: State, depth: nat, moves: seq<Line>, a: ExtInt, b: ExtInt,
                                          pruned: SearchResult, full: SearchResult)
    requires 0 < depth
    requires Lt(a, b) && Lt(a, Min(b, pruned.score))
    requires Clamp(pruned.score, a, b) == Clamp(full.score, a, b)
    ensures Clamp(MinWindow(s, depth, moves, a, Min(b, pruned.score), pruned).score, a, b)
         == Clamp(MinLoop(s, depth, moves, full).score, a, b)
    decreases depth, 1, |moves|
  {
    if moves != [] {
      var m := moves[0];
      var beta := Min(b, pruned.score);
      var e := PrunedScore(s, depth, m, a, beta);
      var v := ChildScore(s, depth, m);
      ChildSound(s, depth, m, a, beta);
      var pruned' := if Lt(e, pruned.score) then SearchResult(e, Some(m)) else pruned;
      var full' := if Lt(v, full.score) then SearchResult(v, Some(m)) else full;
      MinUpdate(pruned.score, e);
      MinUpdate(full.score, v);
      MinStep(a, b, pruned.score, full.score, e, v);
      var beta' := Min(beta, e);
      MinAssoc(b, pruned.score, e);
      assert MinLoop(s, depth, moves, full) == MinLoop(s, depth, moves[1..], full');
      if Le(beta', a) {
        assert MinWindow(s, depth, moves, a, beta, pruned) == pruned';
        MinCutoff(a, b, pruned'.score);
        ClampBottom(full'.score, MinLoop(s, depth, moves[1..], full').score, a, b);
      } else {
        assert MinWindow(s, depth, moves, a, beta, pruned) == MinWindow(s, depth, moves[1..], a, beta', pruned');
        MinWindowSound(s, depth, moves[1..], a, b, pruned', full');
      }
    }
  }

  /**
   * The window guarantee in its usual three cases, with `v` the minimax
   * score: inside the window the pruned score is `v`; a fail-low stays at
   * or below `alpha`; a fail-high stays at or above `beta`.
   */
  lemma Window(s: State, depth: nat, alpha: ExtInt, beta: ExtInt, maximizing: bool)
    requires Lt(alpha, beta)
    ensures var v := Minimax(s, depth, maximizing).score;
            var r := AlphaBeta(s, depth, alpha, beta, maximizing).score;
            && (Lt(alpha, v) && Lt(v, beta) ==> r == v)
            && (Le(v, alpha) ==> Le(r, alpha))
            && (Le(beta, v) ==> Le(beta, r))
  {
    Sound(s, depth, alpha, beta, maximizing);
    ClampCases(AlphaBeta(s, depth, alpha, beta, maximizing).score, Minimax(s, depth, maximizing).score, alpha, beta);
  }

  /**
   * With the root window `(-inf, +inf)` alpha-beta returns exactly what
   * minimax returns: the same score and the same move.
   */
  lemma {:induction false} FullWindow(s: State, depth: nat, maximizing: bool)
    ensures AlphaBeta(s, depth, NegInf, PosInf, maximizing) == Minimax(s, depth, maximizing)
  {
    if depth == 0 || IsTerminal(s) {
    } else if maximizing {
      MaxWindowExact(s, depth, PossibleMoves(s), SearchResult(NegInf, None));
    } else {
      MinWindowExact(s, depth, PossibleMoves(s), SearchResult(PosInf, None));
    }
  }

  /** At a maximising root `alpha` is the running best and `beta` is `+inf`: the loops coincide. */
  lemma {:induction false} MaxWindowExact(s: State, depth: nat, moves: seq<Line>, acc: SearchResult)
    requires 0 < depth && acc.score != PosInf
    ensures MaxWindow(s, depth, moves, acc.score, PosInf, acc) == MaxLoop(s, depth, moves, acc)
    decreases |moves|
  {
    if moves != [] {
      var m := moves[0];
      var e := PrunedScore(s, depth, m, acc.score, PosInf);
      var v := ChildScore(s, depth, m);
      ChildSound(s, depth, m, acc.score, PosInf);
      ClampNoTop(e, acc.score);
      ClampNoTop(v, acc.score);
      MaxAgree(acc.score, e, v);
      MaxUpdate(acc.score, e);
      var next := if Lt(acc.score, v) then SearchResult(v, Some(m)) else acc;
      assert MaxLoop(s, depth, moves, acc) == MaxLoop(s, depth, moves[1..], next);
      if next.score == PosInf {
        assert MaxWindow(s, depth, moves, acc.score, PosInf, acc) == next;
      } else {
        assert MaxWindow(s, depth, moves, acc.score, PosInf, acc) == MaxWindow(s, depth, moves[1..], next.score, PosInf, next);
        MaxWindowExact(s, depth, moves[1..], next);
      }
    }
  }

  /** At a minimising root `beta` is the running best and `alpha` is `-inf`: the loops coincide. */
  lemma {:induction false} MinWindowExact(s: State, depth: nat, moves: seq<Line>, acc: SearchResult)
    requires 0 < depth && acc.score != NegInf
    ensures MinWindow(s, depth, moves, NegInf, acc.score, acc) == MinLoop(s, depth, moves, acc)
    decreases |moves|
  {
    if moves != [] {
      var m := moves[0];
      var e := PrunedScore(s, depth, m, NegInf, acc.score);
      var v := ChildScore(s, depth, m);
      ChildSound(s, depth, m, NegInf, acc.score);
      ClampNoBottom(e, acc.score);
      ClampNoBottom(v, acc.score);
      MinAgree(acc.score, e, v);
      MinUpdate(acc.score, e);
      var next := if Lt(v, acc.score) then SearchResult(v, Some(m)) else acc;
      assert MinLoop(s, depth, moves, acc) == MinLoop(s, depth, moves[1..], next);
      if next.score == NegInf {
        assert MinWindow(s, depth, moves, NegInf, acc.score, acc) == next;
      } else {
        assert MinWindow(s, depth, moves, NegInf, acc.score, acc) == MinWindow(s, depth, moves[1..], NegInf, next.score, next);
        MinWindowExact(s, depth, moves[1..], next);
      }
    }
  }

  /** How many children the maximising loop searches before the window closes. */
  function MaxExamined(s: State, depth: nat, moves: seq<Line>, alpha: ExtInt, beta: ExtInt): (k: nat)
    requires 0 < depth
    decreases |moves|
    ensures k <= |moves|
    ensures moves != [] ==> 1 <= k
  {
    if moves == [] then
      0
    else
      var alpha' := Max(alpha, PrunedScore(s, depth, moves[0], alpha, beta));
      if Le(beta, alpha') then 1 else 1 + MaxExamined(s, depth, moves[1..], alpha', beta)
  }

  /** How many children the minimising loop searches before the window closes. */
  function MinExamined(s: State, depth: nat, moves: seq<Line>, alpha: ExtInt, beta: ExtInt): (k: nat)
    requires 0 < depth
    decreases |moves|
    ensures k <= |moves|
    ensures moves != [] ==> 1 <= k
  {
    if moves == [] then
      0
    else
      var beta' := Min(beta, PrunedScore(s, depth, moves[0], alpha, beta));
      if Le(beta', alpha) then 1 else 1 + MinExamined(s, depth, moves[1..], alpha, beta')
  }

  /**
   * The maximising loop depends only on the prefix of `moves` it examines,
   * so the move it returns comes from that prefix.
   */
  lemma {:induction false} MaxWindowPrefix(s: State, depth: nat, moves: seq<Line>, alpha: ExtInt, beta: ExtInt, acc: SearchResult)
    requires 0 < depth
    ensures var k := MaxExamined(s, depth, moves, alpha, beta);
            var r := MaxWindow(s, depth, moves, alpha, beta, acc);
            && r == MaxWindow(s, depth, moves[..k], alpha, beta, acc)
            && (r.score != acc.score ==> r.move.value in moves[..k])
  {
    MaxWindowSame(s, depth, moves, alpha, beta, acc);
  }

  /** The equation behind `MaxWindowPrefix`, by induction on the moves. */
  lemma {:induction false} MaxWindowSame(s: State, depth: nat, moves: seq<Line>, alpha: ExtInt, beta: ExtInt, acc: SearchResult)
    requires 0 < depth
    ensures MaxWindow(s, depth, moves, alpha, beta, acc) == MaxWindow(s, depth, moves[..MaxExamined(s, depth, moves, alpha, beta)], alpha, beta, acc)
    decreases |moves|
  {
    if moves == [] {
      assert moves[..0] == moves;
    } else {
      var e := PrunedScore(s, depth, moves[0], alpha, beta);
      var next := if Lt(acc.score, e) then SearchResult(e, Some(moves[0])) else acc;
      if Le(beta, Max(alpha, e)) {
        MaxWindowCut(s, depth, moves, alpha, beta, acc);
      } else {
        MaxWindowStep(s, depth, moves, alpha, beta, acc);
        MaxWindowSame(s, depth, moves[1..], Max(alpha, e), beta, next);
      }
    }
  }

  /** A child that closes the window ends the loop after one search. */
  lemma MaxWindowCut(s: State, depth: nat, moves: seq<Line>, alpha: ExtInt, beta: ExtInt, acc: SearchResult)
    requires 0 < depth && moves != []
    requires var e := PrunedScore(s, depth, moves[0], alpha, beta); Le(beta, Max(alpha, e))
    ensures MaxExamined(s, depth, moves, alpha, beta) == 1
    ensures MaxWindow(s, depth, moves, alpha, beta, acc) == MaxWindow(s, depth, moves[..1], alpha, beta, acc)
  {
    assert moves[..1][0] == moves[0];
  }

  /** A child that leaves the window open passes the narrowed window to the rest of the loop. */
  lemma MaxWindowStep(s: State, depth: nat, moves: seq<Line>, alpha: ExtInt, beta: ExtInt, acc: SearchResult)
    requires 0 < depth && moves != []
    requires var e := PrunedScore(s, depth, moves[0], alpha, beta); !Le(beta, Max(alpha, e))
    ensures var e := PrunedScore(s, depth, moves[0], alpha, beta);
            var next := if Lt(acc.score, e) then SearchResult(e, Some(moves[0])) else acc;
            var k := MaxExamined(s, depth, moves[1..], Max(alpha, e), beta);
            && MaxExamined(s, depth, moves, alpha, beta) == 1 + k
            && MaxWindow(s, depth, moves, alpha, beta, acc) == MaxWindow(s, depth, moves[1..], Max(alpha, e), beta, next)
            && MaxWindow(s, depth, moves[..1 + k], alpha, beta, acc) == MaxWindow(s, depth, moves[1..][..k], Max(alpha, e), beta, next)
  {
    var e := PrunedScore(s, depth, moves[0], alpha, beta);
    var k := MaxExamined(s, depth, moves[1..], Max(alpha, e), beta);
    var pre := moves[..1 + k];
    assert pre[0] == moves[0];
    assert pre[1..] == moves[1..][..k];
  }

  /** The mirror image of `MaxWindowPrefix` for the minimising loop. */
  lemma {:induction false} MinWindowPrefix(s: State, depth: nat, moves: seq<Line>, alpha: ExtInt, beta: ExtInt, acc: SearchResult)
    requires 0 < depth
    ensures var k := MinExamined(s, depth, moves, alpha, beta);
            var r := MinWindow(s, depth, moves, alpha, beta, acc);
            && r == MinWindow(s, depth, moves[..k], alpha, beta, acc)
            && (r.score != acc.score ==> r.move.value in moves[..k])
  {
    MinWindowSame(s, depth, moves, alpha, beta, acc);
  }

  /** The equation behind `MinWindowPrefix`, by induction on the moves. */
  lemma {:induction false} MinWindowSame(s: State, depth: nat, moves: seq<Line>, alpha: ExtInt, beta: ExtInt, acc: SearchResult)
    requires 0 < depth
    ensures MinWindow(s, depth, moves, alpha, beta, acc) == MinWindow(s, depth, moves[..MinExamined(s, depth, moves, alpha, beta)], alpha, beta, acc)
    decreases |moves|
  {
    if moves == [] {
      assert moves[..0] == moves;
    } else {
      var e := PrunedScore(s, depth, moves[0], alpha, beta);
      var next := if Lt(e, acc.score) then SearchResult(e, Some(moves[0])) else acc;
      if Le(Min(beta, e), alpha) {
        MinWindowCut(s, depth, moves, alpha, beta, acc);
      } else {
        MinWindowStep(s, depth, moves, alpha, beta, acc);
        MinWindowSame(s, depth, moves[1..], alpha, Min(beta, e), next);
      }
    }
  }

  /** A child that closes the window ends the loop after one search. */
  lemma MinWindowCut(s: State, depth: nat, moves: seq<Line>, alpha: ExtInt, beta: ExtInt, acc: SearchResult)
    requires 0 < depth && moves != []
    requires var e := PrunedScore(s, depth, moves[0], alpha, beta); Le(Min(beta, e), alpha)
    ensures MinExamined(s, depth, moves, alpha, beta) == 1
    ensures MinWindow(s, depth, moves, alpha, beta, acc) == MinWindow(s, depth, moves[..1], alpha, beta, acc)
  {
    assert moves[..1][0] == moves[0];
  }

  /** A child that leaves the window open passes the narrowed window to the rest of the loop. */
  lemma MinWindowStep(s: State, depth: nat, moves: seq<Line>, alpha: ExtInt, beta: ExtInt, acc: SearchResult)
    requires 0 < depth && moves != []
    requires var e := PrunedScore(s, depth, moves[0], alpha, beta); !Le(Min(beta, e), alpha)
    ensures var e := PrunedScore(s, depth, moves[0], alpha, beta);
            var next := if Lt(e, acc.score) then SearchResult(e, Some(moves[0])) else acc;
            var k := MinExamined(s, depth, moves[1..], alpha, Min(beta, e));
            && MinExamined(s, depth, moves, alpha, beta) == 1 + k
            && MinWindow(s, depth, moves, alpha, beta, acc) == MinWindow(s, depth, moves[1..], alpha, Min(beta, e), next)
            && MinWindow(s, depth, moves[..1 + k], alpha, beta, acc) == MinWindow(s, depth, moves[1..][..k], alpha, Min(beta, e), next)
  {
    var e := PrunedScore(s, depth, moves[0], alpha, beta);
    var k := MinExamined(s, depth, moves[1..], alpha, Min(beta, e));
    var pre := moves[..1 + k];
    assert pre[0] == moves[0];
    assert pre[1..] == moves[1..][..k];
  }

  /**
   * Outside the base case the children alpha-beta searches are a non-empty
   * prefix of the legal moves (when there are any), the answer is the one
   * the search would give on that prefix alone, and a returned move is
   * among the searched children.
   */
  lemma AlphaBetaPrefix(s: State, depth: nat, alpha: ExtInt, beta: ExtInt, maximizing: bool)
    requires 0 < depth && !IsTerminal(s)
    ensures var moves := PossibleMoves(s);
            var k := if maximizing then MaxExamined(s, depth, moves, alpha, beta) else MinExamined(s, depth, moves, alpha, beta);
            var r := AlphaBeta(s, depth, alpha, beta, maximizing);
            && k <= |moves|
            && (moves != [] ==> 1 <= k)
            && r == (if maximizing then MaxWindow(s, depth, moves[..k], alpha, beta, SearchResult(NegInf, None))
                     else MinWindow(s, depth, moves[..k], alpha, beta, SearchResult(PosInf, None)))
            && (r.move.Some? ==> r.move.value in moves[..k])
  {
    if maximizing {
      MaxWindowPrefix(s, depth, PossibleMoves(s), alpha, beta, SearchResult(NegInf, None));
    } else {
      MinWindowPrefix(s, depth, PossibleMoves(s), alpha, beta, SearchResult(PosInf, None));
    }
  }
}
