# Dots and Boxes: rules engine and game-tree searches

A Dafny model of the core of a Dots-and-Boxes game with a computer opponent.

- **The rules engine** (`DotsAndBoxesGame` in `logic.py`). A game state holds:
  - the board size `n` (an `n` x `n` lattice of dots);
  - the set of drawn lines;
  - the map from captured boxes to their owners;
  - the player to move.

  Drawing a line captures every adjacent box it completes. The mover keeps the turn only after a capture.
- **Minimax** (`minimax.py`): a depth-limited search that backs up the score difference (AI boxes minus human boxes).
- **Alpha-beta** (`alpha_beta_pruning.py`): the same search with an `(alpha, beta)` window. It stops looking at further children once `beta <= alpha`.

Modules:

- `Collections` (`collections.dfy`): sequence and set helpers used in counting arguments. They model no part of the game.
- `Extended` (`extended.dfy`): the integers extended with `NegInf` and `PosInf`. They stand in for the `float("-inf")` and `float("inf")` bounds of the searches. The module also has:
  - `Max` and `Min`, which model Python's `max` and `min`;
  - the clamp `Clamp(x, lo, hi)`, in which the window results are stated.
- `Rules` (`rules.dfy`): the game state and its operations. `Player` models the enumeration of `constants.py:4-6`; its `Human` member is the enumeration's `PLAYER`.
  - `MakeMove` is a pure function that returns the successor state. The engine's `clone` is therefore plain value copying, and a search can never alter the state it explores.
  - The legal-move list is a sequence built exactly as the nested loops build it:
    - `RowLines` and `RowsFrom` list every lattice line in loop order.
    - `Undrawn` drops the drawn ones.
  - `Rank` numbers the loop's iterations. "In loop order" is stated as "strictly increasing rank".
- `MinimaxSearch` (`minimax.dfy`): the search as mutually recursive functions.
  - `MaxLoop` and `MinLoop` are the two `for` loops written as folds over the move sequence.
  - `ChildScore` is the score backed up from one child. The child maximises exactly when the AI is to move in it.
- `AlphaBetaSearch` (`alpha_beta.dfy`): the pruned search. Its headline results are:
  - `Sound`: for every window `a < b`, the pruned score and the minimax score clamp to the same value in `[a, b]` (the Knuth–Moore soundness of alpha-beta).
  - `Window`: the same result in its familiar three cases.
  - `FullWindow`: with the window `(-inf, +inf)`, alpha-beta returns exactly what minimax returns, the same score and the same move.

Capture correctness holds only on states reached by legal play. `Rules.Consistent` is that invariant:

- the board has at least two dots per side;
- every drawn line lies in the lattice;
- an in-grid box is owned exactly when its four sides are drawn.

`ReachableConsistent` shows that every state reached from a fresh game by legal moves satisfies it. The caller contract of `make_move` is that the line is an undrawn lattice line, and the engine itself checks nothing. The callers supply that guarantee in three places:

- a human's line comes from `get_line_from_mouse` (`main.py:34-65`), which returns only canonical lattice lines;
- `main.py:137` plays it only if it is not drawn yet;
- the AI's line comes from the search over `get_possible_moves` (`main.py:120-122`).

The searches themselves take their lines from `get_possible_moves`. So `MakeMove` is total, and legality appears only as a precondition of the invariant lemmas.

The move list interleaves the two kinds of line: for each `(y, x)` it yields the horizontal `(x, y, x+1, y)` and then the vertical `(y, x, y, x+1)` (`logic.py:45-52`). The model follows the code. Because ties keep the first best move, this order decides which move the searches pick.

## Model

| member | source | states |
|---|---|---|
| Rules.AdjacentBoxes | logic.py:55-68 | at most two boxes, and two only when distinct; for an in-grid line at least one, and a box is listed exactly when it lies in the grid and the line is one of its four sides |
| Rules.ClaimBoxesSpec | logic.py:22-25 | the capture loop keeps every earlier owner; a newly owned box is a complete candidate owned by the player to move; every complete candidate ends up owned; the claim flag is set exactly when the owned set grew |
| Rules.MakeMove | logic.py:18-19 | the board size is unchanged and the drawn lines become the old lines plus the move, so no line is removed |
| Rules.MakeMoveSpec | logic.py:18-30 | no existing owner changes; new owners are only complete boxes adjacent to the move, owned by the mover; no complete adjacent box stays unowned; the turn is kept exactly when a box was captured and otherwise passes to the other player |
| Rules.RowLinesMembers | logic.py:46-52 | one row of the move loop yields exactly the horizontals of row `y` and the verticals of column `y`, two per column |
| Rules.RowLinesOrder | logic.py:46-52 | the lines of one row come in strictly increasing loop position, all below the next row's first position |
| Rules.RowsFromSpec | logic.py:45-52 | the remaining rows yield `2(n-y)(n-1)` lines, exactly the lattice lines of those rows and columns, in strictly increasing loop position |
| Rules.AllLinesSpec | logic.py:45-52 | the whole loop visits `2n(n-1)` lines, exactly the in-grid lines, in strictly increasing loop position |
| Rules.UndrawnSpec | logic.py:49-52 | filtering keeps exactly the listed lines that are not drawn and keeps their order |
| Rules.PossibleMovesSpec | logic.py:43-53 | a line is offered exactly when it is an undrawn in-grid line; offers come in loop order, so none is offered twice |
| Rules.MovesCount | logic.py:43-53 | when every drawn line lies in the lattice, moves plus drawn lines number `2n(n-1)` |
| Rules.TerminalIffNoMoves | logic.py:70-71 | when every drawn line lies in the lattice, the game is over exactly when no move is offered |
| Rules.EvaluateBounds | logic.py:73-76 | the AI's and the human's boxes partition the owned boxes, so the score difference is at most the number of owned boxes in absolute value |
| Rules.InitConsistent | logic.py:5-9 | a fresh game on a board of at least two dots per side satisfies the capture invariant |
| Rules.CompletedOwned | logic.py:22-25 | after a legal move every complete in-grid box is owned |
| Rules.OwnedCompleted | logic.py:22-25 | after a legal move every owned box is a complete in-grid box |
| Rules.MakeMoveConsistent | logic.py:18-41 | a legal move preserves the capture invariant |
| Rules.PlayConsistent | logic.py:18-30 | a sequence of legal moves preserves the capture invariant and the board size, and adds one line per move |
| Rules.ReachableConsistent | logic.py:5-41 | every state reached from a fresh game by legal moves satisfies the capture invariant: an in-grid box is owned exactly when complete |
| Rules.BoxesBound | logic.py:22-25 | a consistent state owns at most `(n-1)^2` boxes |
| Rules.EvaluateInGrid | logic.py:73-76 | on a consistent state the score difference lies within `±(n-1)^2` |
| Extended.Max | alpha_beta_pruning.py:23 | the larger of the two bounds: at least both, and one of them |
| Extended.Min | alpha_beta_pruning.py:44 | the smaller of the two bounds: at most both, and one of them |
| MinimaxSearch.Minimax | minimax.py:4-43 | at depth 0 or a terminal state the answer is the evaluation with no move; any move returned is a legal move of the state |
| MinimaxSearch.MaxLoop | minimax.py:13-27 | the running best never decreases; it changes only when a child's score replaces it, and then the move is one of the listed moves |
| MinimaxSearch.MinLoop | minimax.py:29-43 | the running best never increases; it changes only when a child's score replaces it, and then the move is one of the listed moves |
| MinimaxSearch.MaxLoopSpec | minimax.py:16-25 | no child scores above the result; a new answer's move reaches the score; the move is the first in list order that reaches it |
| MinimaxSearch.MinLoopSpec | minimax.py:32-41 | no child scores below the result; a new answer's move reaches the score; the move is the first in list order that reaches it |
| MinimaxSearch.MinimaxBest | minimax.py:13-43 | outside the base case the score is the maximum (or minimum) child score; no move is returned only when the score is the starting infinity; a returned move's child reaches the score |
| MinimaxSearch.MinimaxFirstBest | minimax.py:23-25 | a returned move comes no later in move order than any move whose child reaches the backed-up score |
| MinimaxSearch.ChildKind | minimax.py:17-19 | the child maximises exactly when the AI is to move in it: a capturing move keeps the node kind, any other move flips it |
| MinimaxSearch.MinimaxBounded | minimax.py:4-43 | on a consistent state the score is finite and within `±(n-1)^2`, and with depth left and the game not over a move is returned |
| MinimaxSearch.ChildBounded | minimax.py:16-21 | the score backed up from a legal move of a consistent state is finite and within `±(n-1)^2` |
| MinimaxSearch.MinimaxReachable | minimax.py:4-43 | on every state reached from a fresh game by legal moves the score is finite and within `±(n-1)^2`, and while the game is not over a positive depth yields a legal move |
| MinimaxSearch.AiMoveLegal | main.py:119-122 | the AI's two-ply search on a consistent unfinished state proposes a legal move |
| AlphaBetaSearch.AlphaBeta | alpha_beta_pruning.py:4-49 | the base case equals minimax's; any move returned is a legal move; outside the base case no move is returned exactly when the score is the starting infinity |
| AlphaBetaSearch.MaxWindow | alpha_beta_pruning.py:10-28 | the running best never decreases; it changes only when a child's score replaces it, and then the move is one of the listed moves |
| AlphaBetaSearch.MinWindow | alpha_beta_pruning.py:30-49 | the running best never increases; it changes only when a child's score replaces it, and then the move is one of the listed moves |
| AlphaBetaSearch.Sound | alpha_beta_pruning.py:4-49 | for any window `a < b`, the pruned score and the minimax score clamp to the same value in `[a, b]` |
| AlphaBetaSearch.ChildSound | alpha_beta_pruning.py:14-18 | the same agreement for the child reached by one move, searched one level deeper |
| AlphaBetaSearch.MaxWindowSound | alpha_beta_pruning.py:13-26 | raising alpha to each child's score and cutting once `beta <= alpha` leaves the maximising result unchanged up to the clamp |
| AlphaBetaSearch.MinWindowSound | alpha_beta_pruning.py:33-47 | lowering beta to each child's score and cutting once `beta <= alpha` leaves the minimising result unchanged up to the clamp |
| AlphaBetaSearch.Window | alpha_beta_pruning.py:4-49 | with `v` the minimax score: if `alpha < v < beta` the result is `v`; if `v <= alpha` the result is at most alpha; if `v >= beta` the result is at least beta |
| AlphaBetaSearch.FullWindow | alpha_beta_pruning.py:4-49 | with the window `(-inf, +inf)` the result, score and move, equals minimax's |
| AlphaBetaSearch.MaxWindowExact | alpha_beta_pruning.py:13-26 | when alpha is the running best and beta is `+inf`, the pruned maximising loop returns exactly the unpruned loop's answer |
| AlphaBetaSearch.MinWindowExact | alpha_beta_pruning.py:33-47 | when beta is the running best and alpha is `-inf`, the pruned minimising loop returns exactly the unpruned loop's answer |
| AlphaBetaSearch.MaxExamined | alpha_beta_pruning.py:23-26 | the maximising loop searches at most all listed children, and at least one when there is any |
| AlphaBetaSearch.MinExamined | alpha_beta_pruning.py:44-47 | the minimising loop searches at most all listed children, and at least one when there is any |
| AlphaBetaSearch.MaxWindowPrefix | alpha_beta_pruning.py:13-26 | the maximising loop's answer depends only on the prefix it searches, and its move comes from that prefix |
| AlphaBetaSearch.MinWindowPrefix | alpha_beta_pruning.py:33-47 | the minimising loop's answer depends only on the prefix it searches, and its move comes from that prefix |
| AlphaBetaSearch.AlphaBetaPrefix | alpha_beta_pruning.py:10-49 | outside the base case the searched children form a non-empty prefix of the legal moves (when there are any); the answer is the one the loop gives on that prefix alone; a returned move is among them |

## Left out

- The user interface (`main.py`) is not modelled: the pygame window, event loop, menus, drawing, buttons and mouse hit-testing. Three of its facts are used:
  - `get_line_from_mouse` (`main.py:34-65`) returns only lattice lines, and `main.py:137` plays a line only when it is undrawn; together they make the caller contract of `MakeMove`;
  - its root call `minimax(game, 2, True)` (`main.py:120`) is modelled as `AiMove`.
- The colour palette and dialog sizes of `constants.py` are presentation only and are not modelled.
- `clone` (`logic.py:11-16`) has no member of its own. States are immutable values, so a copy is the value itself.
- Float arithmetic is not modelled. The searches compare integers against `float("±inf")`; `ExtInt` models exactly those values.
- Integer width is not a concern: Python integers are unbounded, like Dafny's `int`.
- `Rules.Consistent` requires at least two dots per side. The engine accepts any size; smaller boards have no lattice lines and are not considered.
- MinimaxSearch.MinimaxBounded is stated for consistent states only. On arbitrary states `evaluate` is still finite, but the `±(n-1)^2` bound and the existence of a move need the capture invariant.
- Rules.MovesCount and Rules.TerminalIffNoMoves assume that every drawn line lies in the lattice and that `0 <= size`.
  - The engine would count an off-grid line toward `is_terminal`, but the user interface never draws one.
  - With a negative size, `is_terminal` is false while no move is offered, so the searches answer the starting infinity with no move. The engine is never built with a negative size.
- MinimaxSearch.Minimax and AlphaBetaSearch.AlphaBeta take a `nat` depth. The source tests only `depth == 0` (`minimax.py:8`, `alpha_beta_pruning.py:5`), so a negative depth would search to the end of the game. No caller passes one: the root call passes 2 (`main.py:120`), and the recursion passes `depth - 1` only from a positive depth.
- Running time and the cost of copying states per node are not modelled.
