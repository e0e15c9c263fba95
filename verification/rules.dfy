/**
 * The rules engine of Dots and Boxes (the `DotsAndBoxesGame` class and the
 * `Player` enumeration). A game state is an immutable value: `MakeMove`
 * returns the successor state, so cloning a state is plain value copying.
 */
module Rules {
  import opened Collections

  /** `Human` is the enumeration's `PLAYER` member. */
  datatype Player = Human | AI

  function Other(p: Player): Player {
    if p == Human then AI else Human
  }

  /** A line `(x1, y1, x2, y2)` between two dots; the engine stores whatever tuple it is given. */
  datatype Line = Line(x1: int, y1: int, x2: int, y2: int)

  /** A box named by its top-left dot `(x, y)`. */
  datatype Box = Box(x: int, y: int)

  datatype State = State(size: int, lines: set<Line>, boxes: map<Box, Player>, current: Player)

  /** A fresh game: nothing drawn, nothing owned, the human moves first. */
  function Init(size: int): State {
    State(size, {}, map[], Human)
  }

  function Horizontal(x: int, y: int): Line {
    Line(x, y, x + 1, y)
  }

  function Vertical(x: int, y: int): Line {
    Line(x, y, x, y + 1)
  }

  /** `l` runs one step to the right: `(x, y, x+1, y)`. */
  predicate IsHorizontal(l: Line) {
    l.x2 == l.x1 + 1 && l.y2 == l.y1
  }

  /** `l` runs one step down: `(x, y, x, y+1)`. */
  predicate IsVertical(l: Line) {
    l.x2 == l.x1 && l.y2 == l.y1 + 1
  }

  /** `l` is a canonical line joining two adjacent dots of the `n` x `n` lattice. */
  predicate InGrid(n: int, l: Line) {
    || (IsHorizontal(l) && 0 <= l.x1 < n - 1 && 0 <= l.y1 < n)
    || (IsVertical(l) && 0 <= l.x1 < n && 0 <= l.y1 < n - 1)
  }

  /** What the caller checks before `MakeMove`: an in-grid line not drawn yet. */
  predicate Legal(s: State, m: Line) {
    InGrid(s.size, m) && m !in s.lines
  }

  predicate BoxInGrid(n: int, b: Box) {
    0 <= b.x < n - 1 && 0 <= b.y < n - 1
  }

  function Top(b: Box): Line { Horizontal(b.x, b.y) }
  function Left(b: Box): Line { Vertical(b.x, b.y) }
  function Right(b: Box): Line { Vertical(b.x + 1, b.y) }
  function Bottom(b: Box): Line { Horizontal(b.x, b.y + 1) }

  predicate IsEdge(l: Line, b: Box) {
    l == Top(b) || l == Left(b) || l == Right(b) || l == Bottom(b)
  }

  /** All four sides of `b` are drawn, whoever owns the box. */
  predicate IsBoxCompleted(s: State, b: Box) {
    Top(b) in s.lines && Left(b) in s.lines && Right(b) in s.lines && Bottom(b) in s.lines
  }

  /**
   * The boxes on either side of `l`, the one above (left of) it first,
   * dropping those outside the grid.
   */
  function AdjacentBoxes(n: int, l: Line): (r: seq<Box>)
    ensures |r| <= 2
    ensures |r| == 2 ==> r[0] != r[1]
    ensures InGrid(n, l) ==> 1 <= |r|
    ensures InGrid(n, l) ==> forall b :: b in r <==> BoxInGrid(n, b) && IsEdge(l, b)
  {
    if l.x1 == l.x2 then
      (if l.x1 > 0 then [Box(l.x1 - 1, l.y1)] else [])
      + (if l.x1 < n - 1 then [Box(l.x1, l.y1)] else [])
    else
      (if l.y1 > 0 then [Box(l.x1, l.y1 - 1)] else [])
      + (if l.y1 < n - 1 then [Box(l.x1, l.y1)] else [])
  }

  /**
   * The capture loop of a move: each candidate that is complete and still
   * unowned goes to the player to move. The flag says whether any was taken.
   */
  function ClaimBoxes(s: State, cands: seq<Box>): (r: (map<Box, Player>, bool))
    decreases |cands|
  {
    if cands == [] then
      (s.boxes, false)
    else
      var b := cands[0];
      if IsBoxCompleted(s, b) && b !in s.boxes then
        var r := ClaimBoxes(s.(boxes := s.boxes[b := s.current]), cands[1..]);
        (r.0, true)
      else
        ClaimBoxes(s, cands[1..])
  }

  /**
   * The capture loop keeps every earlier owner, hands exactly the complete
   * unowned candidates to the player to move, and reports a capture exactly
   * when the set of owned boxes grew.
   */
  lemma {:induction false} ClaimBoxesSpec(s: State, cands: seq<Box>)
    ensures var r := ClaimBoxes(s, cands);
            && (forall b :: b in s.boxes ==> b in r.0 && r.0[b] == s.boxes[b])
            && (forall b :: b in r.0 && b !in s.boxes ==> b in cands && IsBoxCompleted(s, b) && r.0[b] == s.current)
            && (forall b :: b in cands && IsBoxCompleted(s, b) ==> b in r.0)
            && (r.1 <==> s.boxes.Keys < r.0.Keys)
    decreases |cands|
  {
    if cands != [] {
      var b := cands[0];
      if IsBoxCompleted(s, b) && b !in s.boxes {
        var s' := s.(boxes := s.boxes[b := s.current]);
        ClaimBoxesSpec(s', cands[1..]);
        assert IsBoxCompleted(s', b);
        assert b in s'.boxes.Keys - s.boxes.Keys;
      } else {
        ClaimBoxesSpec(s, cands[1..]);
      }
    }
  }

  /**
   * Draws `m` for the player to move, captures the adjacent boxes it
   * completes, and passes the turn only when nothing was captured.
   */
  function MakeMove(s: State, m: Line): (t: State)
    ensures t.size == s.size
    ensures t.lines == s.lines + {m}
  {
    var drawn := s.(lines := s.lines + {m});
    var claim := ClaimBoxes(drawn, AdjacentBoxes(s.size, m));
    drawn.(boxes := claim.0, current := if claim.1 then s.current else Other(s.current))
  }

  /**
   * A move keeps every earlier owner; each newly owned box is a complete box
   * next to the line, owned by the mover; no complete box next to the line
   * is left unowned; and the mover keeps the turn exactly when a box was
   * captured, the turn passing to the other player otherwise.
   */
  lemma MakeMoveSpec(s: State, m: Line)
    ensures var t := MakeMove(s, m);
            && (forall b :: b in s.boxes ==> b in t.boxes && t.boxes[b] == s.boxes[b])
            && (forall b :: b in t.boxes && b !in s.boxes ==>
                  b in AdjacentBoxes(s.size, m) && IsBoxCompleted(t, b) && t.boxes[b] == s.current)
            && (forall b :: b in AdjacentBoxes(s.size, m) && IsBoxCompleted(t, b) ==> b in t.boxes)
            && (t.current == s.current <==> s.boxes.Keys < t.boxes.Keys)
            && (t.current != s.current ==> t.current == Other(s.current))
  {
    var drawn := s.(lines := s.lines + {m});
    ClaimBoxesSpec(drawn, AdjacentBoxes(s.size, m));
  }

  // Move enumeration

  /**
   * Position of a line in the move loop: iteration `(y, x)` yields the
   * horizontal `(x, y, x+1, y)` and then the vertical `(y, x, y, x+1)`.
   */
  function Rank(n: int, l: Line): int {
    if l.y1 == l.y2 then 2 * (l.y1 * (n - 1) + l.x1) else 2 * (l.x1 * (n - 1) + l.y1) + 1
  }

  ghost predicate Increasing(n: int, ls: seq<Line>) {
    forall i, j :: 0 <= i < j < |ls| ==> Rank(n, ls[i]) < Rank(n, ls[j])
  }

  /** Iterations `(y, x), (y, x+1), ...` of the inner loop, before filtering. */
  function RowLines(n: int, y: int, x: int): seq<Line>
    decreases n - x
  {
    if x >= n - 1 then [] else [Horizontal(x, y), Vertical(y, x)] + RowLines(n, y, x + 1)
  }

  /**
   * Iteration `(y, x)` onwards of one row yields two lines per column: the
   * horizontals of row `y` and the verticals of column `y` from `x` on.
   */
  lemma {:induction false} RowLinesMembers(n: int, y: int, x: int)
    ensures var r := RowLines(n, y, x);
            && (x <= n - 1 ==> |r| == 2 * (n - 1 - x))
            && (forall l :: l in r <==>
                  || (IsHorizontal(l) && l.y1 == y && x <= l.x1 < n - 1)
                  || (IsVertical(l) && l.x1 == y && x <= l.y1 < n - 1))
    decreases n - x
  {
    if x < n - 1 {
      RowLinesMembers(n, y, x + 1);
      var head := [Horizontal(x, y), Vertical(y, x)];
      var rest := RowLines(n, y, x + 1);
      assert RowLines(n, y, x) == head + rest;
      forall l
        ensures l in head + rest <==>
                  || (IsHorizontal(l) && l.y1 == y && x <= l.x1 < n - 1)
                  || (IsVertical(l) && l.x1 == y && x <= l.y1 < n - 1)
      {
        assert l in head + rest <==> l in head || l in rest;
      }
    }
  }

  /** The lines of one row come in increasing rank, all below the next row's first rank. */
  lemma {:induction false} RowLinesOrder(n: int, y: int, x: int)
    ensures var r := RowLines(n, y, x);
            && (forall i :: 0 <= i < |r| ==> 2 * (y * (n - 1) + x) <= Rank(n, r[i]) < 2 * (y * (n - 1) + n - 1))
            && Increasing(n, r)
    decreases n - x
  {
    if x < n - 1 {
      RowLinesOrder(n, y, x + 1);
      var head := [Horizontal(x, y), Vertical(y, x)];
      var rest := RowLines(n, y, x + 1);
      assert RowLines(n, y, x) == head + rest;
      assert Rank(n, head[0]) + 1 == Rank(n, head[1]) == 2 * (y * (n - 1) + x) + 1;
      IncreasingConcat(n, head, rest, 2 * (y * (n - 1) + x + 1));
    }
  }

  /** Outer-loop iterations `y, y+1, ..., n-1`, before filtering. */
  function RowsFrom(n: int, y: int): seq<Line>
    decreases n - y
  {
    if y >= n then [] else RowLines(n, y, 0) + RowsFrom(n, y + 1)
  }

  /**
   * Rows `y` onwards yield every horizontal of rows `y..n-1` and every
   * vertical of columns `y..n-1`, two per cell, in increasing rank.
   */
  lemma {:induction false} RowsFromSpec(n: int, y: int)
    requires 0 <= y
    ensures var r := RowsFrom(n, y);
            && (y <= n ==> |r| == 2 * (n - y) * (n - 1))
            && (forall l :: l in r <==>
                  || (IsHorizontal(l) && 0 <= l.x1 < n - 1 && y <= l.y1 < n)
                  || (IsVertical(l) && y <= l.x1 < n && 0 <= l.y1 < n - 1))
            && (forall i :: 0 <= i < |r| ==> 2 * (y * (n - 1)) <= Rank(n, r[i]))
            && Increasing(n, r)
    decreases n - y
  {
    if y < n {
      var row := RowLines(n, y, 0);
      var rest := RowsFrom(n, y + 1);
      RowLinesMembers(n, y, 0);
      RowLinesOrder(n, y, 0);
      RowsFromSpec(n, y + 1);
      RowStep(n, y);
      IncreasingConcat(n, row, rest, 2 * ((y + 1) * (n - 1)));
      assert RowsFrom(n, y) == row + rest;
    }
  }

  /** Arithmetic of consecutive rows of the move loop. */
  lemma RowStep(n: int, y: int)
    requires 0 <= y < n
    ensures y * (n - 1) + n - 1 == (y + 1) * (n - 1)
    ensures y * (n - 1) <= (y + 1) * (n - 1)
    ensures 2 * (n - 1) + 2 * (n - (y + 1)) * (n - 1) == 2 * (n - y) * (n - 1)
  {
  }

  /** Two increasing runs separated by a rank `mid` concatenate to an increasing run. */
  lemma IncreasingConcat(n: int, a: seq<Line>, b: seq<Line>, mid: int)
    requires Increasing(n, a) && Increasing(n, b)
    requires forall i :: 0 <= i < |a| ==> Rank(n, a[i]) < mid
    requires forall j :: 0 <= j < |b| ==> mid <= Rank(n, b[j])
    ensures Increasing(n, a + b)
  {
  }

  /** Every line of the lattice in the move loop's order. */
  function AllLines(n: int): seq<Line> {
    RowsFrom(n, 0)
  }

  /** The loop visits each of the `2n(n-1)` lattice lines, and nothing else, in increasing rank. */
  lemma AllLinesSpec(n: int)
    ensures 0 <= n ==> |AllLines(n)| == (n - 1) * n * 2
    ensures forall l :: l in AllLines(n) <==> InGrid(n, l)
    ensures Increasing(n, AllLines(n))
  {
    AllLinesCount(n);
    AllLinesMembers(n);
    AllLinesOrder(n);
  }

  /** The loop visits `2n(n-1)` lines. */
  lemma AllLinesCount(n: int)
    ensures 0 <= n ==> |AllLines(n)| == (n - 1) * n * 2
  {
    RowsFromSpec(n, 0);
    if 0 <= n {
      RowCount(n);
    }
  }

  /** The loop visits exactly the lattice lines. */
  lemma AllLinesMembers(n: int)
    ensures forall l :: l in AllLines(n) <==> InGrid(n, l)
  {
    RowsFromSpec(n, 0);
    forall l
      ensures l in AllLines(n) <==> InGrid(n, l)
    {
    }
  }

  /** The loop visits its lines in strictly increasing rank. */
  lemma AllLinesOrder(n: int)
    ensures Increasing(n, AllLines(n))
  {
    RowsFromSpec(n, 0);
  }

  /** The size of the whole loop, written two ways. */
  lemma RowCount(n: int)
    ensures 2 * (n - 0) * (n - 1) == (n - 1) * n * 2
  {
  }

  /** `ls` with the lines in `drawn` dropped, order kept. */
  function Undrawn(ls: seq<Line>, drawn: set<Line>): seq<Line> {
    if ls == [] then [] else (if ls[0] in drawn then [] else [ls[0]]) + Undrawn(ls[1..], drawn)
  }

  /** The filter keeps exactly the undrawn lines, in their order of rank. */
  lemma {:induction false} UndrawnSpec(n: int, ls: seq<Line>, drawn: set<Line>)
    ensures forall l :: l in Undrawn(ls, drawn) <==> l in ls && l !in drawn
    ensures Increasing(n, ls) ==> Increasing(n, Undrawn(ls, drawn))
  {
    if ls != [] {
      var rest := Undrawn(ls[1..], drawn);
      UndrawnSpec(n, ls[1..], drawn);
      assert Undrawn(ls, drawn) == (if ls[0] in drawn then [] else [ls[0]]) + rest;
      assert forall l :: l in ls <==> l == ls[0] || l in ls[1..];
      if Increasing(n, ls) {
        assert Increasing(n, ls[1..]);
        forall l | l in rest
          ensures Rank(n, ls[0]) < Rank(n, l)
        {
          var k :| 0 <= k < |ls[1..]| && ls[1..][k] == l;
          assert ls[k + 1] == l;
        }
      }
    }
  }

  lemma IncreasingNoDups(n: int, ls: seq<Line>)
    requires Increasing(n, ls)
    ensures NoDups(ls)
  {
  }

  /**
   * The legal moves: every undrawn lattice line, once, in the loop's order
   * (strictly increasing rank).
   */
  function PossibleMoves(s: State): seq<Line> {
    Undrawn(AllLines(s.size), s.lines)
  }

  /** A line is offered exactly when it is legal, and the offers come in increasing rank, so none twice. */
  lemma PossibleMovesSpec(s: State)
    ensures forall l :: l in PossibleMoves(s) <==> Legal(s, l)
    ensures Increasing(s.size, PossibleMoves(s))
    ensures NoDups(PossibleMoves(s))
  {
    AllLinesSpec(s.size);
    UndrawnSpec(s.size, AllLines(s.size), s.lines);
    IncreasingNoDups(s.size, PossibleMoves(s));
  }

  /** Every drawn line is a lattice line. */
  ghost predicate LinesInGrid(s: State) {
    forall l :: l in s.lines ==> InGrid(s.size, l)
  }

  /** Undrawn moves and drawn lines together make up the whole lattice. */
  lemma MovesCount(s: State)
    requires 0 <= s.size && LinesInGrid(s)
    ensures |PossibleMoves(s)| + |s.lines| == (s.size - 1) * s.size * 2
  {
    var all := AllLines(s.size);
    var moves := PossibleMoves(s);
    AllLinesSpec(s.size);
    PossibleMovesSpec(s);
    UndrawnSpec(s.size, all, s.lines);
    IncreasingNoDups(s.size, all);
    NoDupsCard(all);
    NoDupsCard(moves);
    assert Elems(moves) == Elems(all) - s.lines;
    SubsetCard(s.lines, Elems(all));
  }

  predicate IsTerminal(s: State) {
    |s.lines| >= (s.size - 1) * s.size * 2
  }

  /** On a state whose lines all lie in the lattice, the game is over exactly when no move is left. */
  lemma TerminalIffNoMoves(s: State)
    requires 0 <= s.size && LinesInGrid(s)
    ensures IsTerminal(s) <==> PossibleMoves(s) == []
  {
    MovesCount(s);
  }

  // Scoring

  function Owned(s: State, p: Player): set<Box> {
    set b | b in s.boxes && s.boxes[b] == p
  }

  /** Score difference: AI boxes minus human boxes. */
  function Evaluate(s: State): int {
    |Owned(s, AI)| - |Owned(s, Human)|
  }

  /** The two players' boxes partition the owned boxes, so the score difference is at most their number. */
  lemma EvaluateBounds(s: State)
    ensures |Owned(s, AI)| + |Owned(s, Human)| == |s.boxes|
    ensures -|s.boxes| <= Evaluate(s) <= |s.boxes|
  {
    assert Owned(s, AI) + Owned(s, Human) == s.boxes.Keys;
    assert Owned(s, AI) * Owned(s, Human) == {};
  }

  // Reachable states

  /**
   * The capture invariant: lines lie in the lattice, and an in-grid box is
   * owned exactly when its four sides are drawn.
   */
  ghost predicate Consistent(s: State) {
    && 2 <= s.size
    && LinesInGrid(s)
    && (forall b :: b in s.boxes ==> BoxInGrid(s.size, b) && IsBoxCompleted(s, b))
    && (forall b :: BoxInGrid(s.size, b) && IsBoxCompleted(s, b) ==> b in s.boxes)
  }

  lemma InitConsistent(n: int)
    requires 2 <= n
    ensures Consistent(Init(n))
  {
  }

  /** A legal move keeps the capture invariant. */
  lemma MakeMoveConsistent(s: State, m: Line)
    requires Consistent(s) && Legal(s, m)
    ensures Consistent(MakeMove(s, m))
  {
    CompletedOwned(s, m);
    OwnedCompleted(s, m);
  }

  /** After a legal move every complete in-grid box is owned: the ones it completes are captured. */
  lemma CompletedOwned(s: State, m: Line)
    requires Consistent(s) && Legal(s, m)
    ensures var t := MakeMove(s, m);
            forall b :: BoxInGrid(t.size, b) && IsBoxCompleted(t, b) ==> b in t.boxes
  {
    var t := MakeMove(s, m);
    MakeMoveSpec(s, m);
    forall b | BoxInGrid(t.size, b) && IsBoxCompleted(t, b)
      ensures b in t.boxes
    {
      if !IsBoxCompleted(s, b) {
        assert IsEdge(m, b);
        assert b in AdjacentBoxes(s.size, m);
      }
    }
  }

  /** After a legal move every owned box is a complete in-grid box. */
  lemma OwnedCompleted(s: State, m: Line)
    requires Consistent(s) && Legal(s, m)
    ensures var t := MakeMove(s, m);
            forall b :: b in t.boxes ==> BoxInGrid(t.size, b) && IsBoxCompleted(t, b)
  {
    var t := MakeMove(s, m);
    MakeMoveSpec(s, m);
    forall b | b in t.boxes
      ensures BoxInGrid(t.size, b) && IsBoxCompleted(t, b)
    {
      if b !in s.boxes {
        assert b in AdjacentBoxes(s.size, m);
      }
    }
  }

  /** The state after playing `ms` in order from `s`. */
  function Play(s: State, ms: seq<Line>): State
    decreases |ms|
  {
    if ms == [] then s else Play(MakeMove(s, ms[0]), ms[1..])
  }

  /** Each move of `ms` is legal when it is played. */
  ghost predicate LegalPlay(s: State, ms: seq<Line>)
    decreases |ms|
  {
    ms == [] || (Legal(s, ms[0]) && LegalPlay(MakeMove(s, ms[0]), ms[1..]))
  }

  lemma {:induction false} PlayConsistent(s: State, ms: seq<Line>)
    requires Consistent(s) && LegalPlay(s, ms)
    ensures Consistent(Play(s, ms))
    ensures Play(s, ms).size == s.size
    ensures |Play(s, ms).lines| == |s.lines| + |ms|
    decreases |ms|
  {
    if ms != [] {
      MakeMoveConsistent(s, ms[0]);
      PlayConsistent(MakeMove(s, ms[0]), ms[1..]);
    }
  }

  /** Every state reached from a fresh game by legal moves satisfies the capture invariant. */
  lemma {:induction false} ReachableConsistent(n: int, ms: seq<Line>)
    requires 2 <= n && LegalPlay(Init(n), ms)
    ensures Consistent(Play(Init(n), ms))
    ensures Play(Init(n), ms).size == n
    ensures |Play(Init(n), ms).lines| == |ms|
  {
    InitConsistent(n);
    PlayConsistent(Init(n), ms);
  }

  /** Boxes of row `y` from column `x` on. */
  function BoxRow(n: int, y: int, x: int): (r: seq<Box>)
    decreases n - x
    ensures x <= n - 1 ==> |r| == n - 1 - x
    ensures forall b :: b in r <==> b.y == y && x <= b.x < n - 1
  {
    if x >= n - 1 then [] else [Box(x, y)] + BoxRow(n, y, x + 1)
  }

  /** Boxes of rows `y` to `n - 2`. */
  function BoxRowsFrom(n: int, y: int): (r: seq<Box>)
    requires 1 <= n
    decreases n - y
    ensures y <= n - 1 ==> |r| == (n - 1 - y) * (n - 1)
    ensures forall b :: b in r <==> y <= b.y < n - 1 && 0 <= b.x < n - 1
  {
    if y >= n - 1 then [] else BoxRow(n, y, 0) + BoxRowsFrom(n, y + 1)
  }

  /** The number of boxes of an `n` x `n` lattice of dots. */
  function BoxCount(n: int): int {
    (n - 1) * (n - 1)
  }

  /** A consistent state owns at most the `(size-1)^2` boxes of the grid. */
  lemma BoxesBound(s: State)
    requires Consistent(s)
    ensures |s.boxes| <= BoxCount(s.size)
  {
    var all := BoxRowsFrom(s.size, 0);
    assert s.boxes.Keys <= Elems(all);
    ElemsCard(all);
    SubsetCard(s.boxes.Keys, Elems(all));
  }

  /** On a consistent state the score difference lies within `±(size-1)^2`. */
  lemma EvaluateInGrid(s: State)
    requires Consistent(s)
    ensures -BoxCount(s.size) <= Evaluate(s) <= BoxCount(s.size)
  {
    EvaluateBounds(s);
    BoxesBound(s);
  }
}
