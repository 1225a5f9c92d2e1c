# Gomoku engine of `server.py`, modelled in Dafny

`server.py` serves a five-in-a-row game on a 20×20 board: a human plays
against a machine that searches two plies below each of its candidate moves
with minimax and alpha-beta pruning. This project models its engine — win
detection, pattern scoring of stones and boards, candidate generation, the
search, the machine's move choice and the game session — and proves what
each part computes.

Layout (one module per file):

- `board.dfy` (`GomokuBoard`): the constants (`BoardSize` 20, `WinCount` 5,
  `MaxDepth` 2, cell values `Empty` 0 / `Player` 1 / `Ai` 2, the four
  `Directions`, the `Centre` fallback (10, 10)), a board value `Grid`
  (20 rows of 20 ints) and `Place`, a one-cell update.
- `win.dfy` (`WinCheck`): `check_win` as the functions `Run`, `LineCount`
  and `Wins`, and its meaning as five cells in a row through the stone.
- `evaluate.dfy` (`Evaluation`): `evaluate_point` as `Window`, `Patterns`,
  `Occurrences` and `PointScore`; `evaluate_board` as `BoardScore`.
- `candidates.dfy` (`CandidateGen`): `generate_candidates` as the set the
  scan builds (`CandidateSet`) and the list it is iterated in
  (`Candidates`).
- `search.dfy` (`AlphaBeta`): `minimax` as the pure function `Search`,
  which returns the value and the board as the search leaves it, the
  unpruned reference `Minimax`, and `ai_move` as `AiChoice`.
- `game.dfy` (`Server`): the session as the class `Game`, which holds the
  board in place in an `array2<int>` plus the `gameOver` flag. Its methods
  are the source's routines with their loops: `CheckWin`, `EvaluatePoint`,
  `EvaluateBoard`, `GenerateCandidates`, `Minimax`, `AiMove`, `ResetGame`
  and `PlayerMove`. Each method is proved equal to the functions above. The
  pure `Step` gives the outcome of `player_move`.

Representation choices:

- Scores are `real`, so `0.8 * x` is exact. A search value is
  `Score = NegInf | Fin(v) | PosInf`, standing for `float('-inf')`, a
  board score and `float('inf')`.
- `generate_candidates` builds a Python `set`. The model builds the same
  set with the same nested loops, then iterates it in row-major order. Every
  statement about the choice of move (first best, ties) is relative to that
  order.
- `minimax` gets the board as a parameter, but `generate_candidates` reads
  the global board. Both are the same object, so the model has one board.
  `Search` threads that board through every placement and every reset, so
  the model also covers searches in which a placement does not land on an empty
  cell.

What is proved, in brief:

- `check_win` holds exactly when five cells in a row along one direction
  through the stone hold the player. The stone's own cell is counted
  without being read.
- `evaluate_point` sums weight × occurrences over the 4 windows and the 8
  patterns, so it is a `nat`. A stone that wins by `check_win` scores at
  least 10000.
- `evaluate_board` is 0 on the empty board. Scored from both sides, the
  two scores add up to 0.2 × the total point score, which is never
  negative.
- `generate_candidates` is sound and complete: it lists exactly the empty
  cells 8-adjacent to a stone, each once, in row-major order. It falls back
  to the centre exactly on the empty board and on the full board. On the
  full board the centre is occupied.
- `minimax` always returns a finite score. Suppose every move it tries lands
  on an empty cell, which holds whenever at least `depth` cells are empty.
  Then it restores the board, and its value meets the fail-soft bounds
  against unpruned minimax. With the window (−∞, +∞) its value is exactly
  the minimax value.
- Without that room the board is not restored. On a full board whose score
  is not decisive, the search overwrites the occupied centre and then
  clears it.
- The end game as written: when the human's stone fills the last empty
  cell without winning, the only candidate is the centre, which holds a
  stone. `ai_move` names it, and `player_move` writes the machine's stone
  over whatever stone was there. The draw reply is never given.
- `ai_move` always returns a move, so the draw reply of `player_move` is
  never reached. With at least 3 empty cells it returns the first candidate
  with the greatest minimax value and leaves the board unchanged.
- `player_move` refuses a finished game and an occupied cell without any
  change. A human win ends the game with no machine reply. Otherwise the
  game ends exactly when the machine's reply wins. With at least 4 empty
  cells, that reply is one new stone on an empty cell, chosen as above.

## Model

| member | source | states |
|---|---|---|
| GomokuBoard.Place | server.py:143 | the board with exactly the one cell set to the value; every other cell unchanged |
| GomokuBoard.PlaceUndo | server.py:93-95 | writing back the value a cell held undoes a write to it, which is how each search move is taken back when the cell was Empty |
| GomokuBoard.EmptyGrid | server.py:11 | the start board: 20×20, every cell Empty |
| GomokuBoard.PlaceFillsOne | server.py:93 | a stone on an empty cell removes exactly that cell from the set of empty cells |
| WinCheck.Run | server.py:22-30 | the innermost loop of check_win: how many consecutive cells holding the player are met stepping away from the origin, stopping at the first other or off-board cell and after at most `steps` steps; never more than `steps` |
| WinCheck.LineCount | server.py:21-30 | one direction's count: 1 for the origin, which is not read, plus the runs on both sides of it |
| WinCheck.Wins | server.py:19-33 | check_win: some direction's count reaches WinCount; WinCheck.WinsIffFive states what that means |
| WinCheck.RunCovers | server.py:24-30 | the capped run in one direction reaches m exactly when the first m cells along the ray are on the board and hold the player |
| WinCheck.LineCountIffSegment | server.py:20-31 | one direction's count (1 + both runs) reaches WinCount exactly when a segment of 5 cells along it through the origin holds the player, the origin aside |
| WinCheck.WinsIffFive | server.py:19-33 | check_win is true exactly when some direction has 5 cells in a row through the origin holding the player; the origin is not inspected |
| Server.Game.CheckWin | server.py:19-33 | the loops return the check_win predicate of the current board and leave the board untouched |
| Server.Game.RunLength | server.py:23-30 | the innermost loop counts the capped run of the player's stones from the origin in one direction |
| Server.Game.LineAt | server.py:50-56 | the 9-cell line along a direction, centred on the stone, with -1 for off-board cells |
| Server.Game.CountMatches | server.py:68-70 | the number of offsets in [0, 9 - len] at which the pattern matches the line exactly |
| Server.Game.LineScore | server.py:57-70 | the line's score: weight × number of matches, summed over the 8 patterns |
| Server.Game.EvaluatePoint | server.py:47-71 | evaluate_point: the line scores of the 4 directions added up, a natural number |
| Evaluation.Window | server.py:50-56 | the line of evaluate_point: the 9 cells along a direction from step -4 to step 4, with -1 for an off-board cell; always 9 long |
| Evaluation.Patterns | server.py:57-66 | the 8 weighted patterns of the player, in the source's order and with its weights; each 4 to 6 cells long |
| Evaluation.Occurrences | server.py:68-70 | the number of offsets below n at which the slice of the line equals the pattern |
| Evaluation.PatternsScore | server.py:67-70 | weight × occurrences over all offsets, summed over the first k patterns |
| Evaluation.DirectionsScore | server.py:49-70 | the pattern scores of the lines along the first k directions, summed |
| Evaluation.PointScore | server.py:47-71 | evaluate_point: the pattern scores of the four lines through the stone, summed; a natural number |
| Evaluation.OccurrenceCounted | server.py:68-70 | a match at an offset the loop visits is counted at least once |
| Evaluation.PatternsScoreCovers | server.py:67-70 | each pattern contributes its weight × matches to the line score |
| Evaluation.DirectionsScoreCovers | server.py:49-70 | each direction's line score is part of evaluate_point |
| Evaluation.FiveInWindow | server.py:50-58 | the five cells a win rests on, origin included, form the five-in-a-row pattern inside the 9-cell window |
| Evaluation.WinScoresFive | server.py:47-71 | a stone that completes a run by check_win scores at least 10000 in evaluate_point |
| Evaluation.CellScore | server.py:39-44 | one cell's share of evaluate_board: 0 when empty, its owner's point score for the scoring side, -0.8 × it for the other side |
| Evaluation.RowScore | server.py:38-44 | the cell shares of the first n cells of a row, summed |
| Evaluation.RowsScore | server.py:37-44 | the cell shares of the first n rows, summed |
| Evaluation.BoardScore | server.py:35-45 | evaluate_board: the cell shares of the whole board, summed |
| Server.Game.EvaluateBoard | server.py:35-45 | evaluate_board: the sum over stones of their owner's point score, added for the scoring side and × -0.8 for the other |
| Evaluation.RowSymmetry | server.py:38-44 | one row's scores from the two sides add up to 0.2 × the row's total point score |
| Evaluation.RowsSymmetry | server.py:37-44 | the same for the first n rows |
| Evaluation.Asymmetry | server.py:35-45 | the two sides' board scores add up to 0.2 × the total point score of all stones, which is never negative: the evaluation is not zero-sum |
| Evaluation.EmptyRowScoresZero | server.py:38-39 | an empty row adds nothing to evaluate_board |
| Evaluation.EmptyRowsScoreZero | server.py:37-39 | empty rows add nothing to evaluate_board |
| Evaluation.EmptyBoardScoresZero | server.py:35-45 | the empty board scores 0 from either side |
| CandidateGen.NeighboursInRow | server.py:79-82 | the cells the innermost loop adds for one dr: the empty on-board cells (r + dr, c + dc) for dc below the bound |
| CandidateGen.Neighbours | server.py:78-82 | the cells the two inner loops add: the union over dr below the bound |
| CandidateGen.Contribution | server.py:77-82 | what one scanned cell adds: its empty neighbours if it holds a stone, nothing otherwise |
| CandidateGen.ScanRow | server.py:76-82 | the contributions of the first cells of one row |
| CandidateGen.ScanRows | server.py:75-82 | the contributions of the first rows |
| CandidateGen.CandidateSet | server.py:74-82 | the set generate_candidates builds: the contributions of all cells; CandidateGen.InCandidateSet states which cells it holds |
| CandidateGen.ListRow | server.py:83 | the iteration order of the set within one row: its cells of that row, left to right |
| CandidateGen.ListRows | server.py:83 | the iteration order of the set: its cells in row-major order |
| CandidateGen.InNeighboursInRow | server.py:79-82 | the innermost loop adds exactly the empty on-board cells of one neighbour row, up to the current column offset |
| CandidateGen.InNeighbours | server.py:78-82 | the two inner loops add exactly the empty on-board cells among the 8 neighbours of a stone |
| CandidateGen.InScanRow | server.py:76-82 | after part of a row, the set holds exactly the empty cells next to a stone scanned so far |
| CandidateGen.InScanRows | server.py:75-82 | after the first rows, the set holds exactly the empty cells next to a stone in those rows |
| CandidateGen.InCandidateSet | server.py:74-82 | the finished set is exactly the empty cells 8-adjacent to some stone |
| CandidateGen.InListRow | server.py:83 | listing one row of the set yields exactly the set's cells in that row |
| CandidateGen.InListRows | server.py:83 | listing the first rows yields exactly the set's cells in those rows |
| CandidateGen.ListRowsInRange | server.py:83 | every listed cell is on the board |
| CandidateGen.ListRowSorted | server.py:83 | a listed row is strictly increasing by column |
| CandidateGen.ListRowsSorted | server.py:83 | the list is strictly increasing in row-major order, so it has no duplicates |
| CandidateGen.SetListed | server.py:83 | every cell of the set is listed |
| CandidateGen.Candidates | server.py:83 | the candidate list is never empty and lies on the board |
| CandidateGen.CandidatesExact | server.py:73-83 | when some empty cell touches a stone, the candidates are exactly those cells, once each, in row-major order; otherwise exactly the centre |
| CandidateGen.FallbackIffEmptyOrFull | server.py:83 | the centre fallback is taken exactly when the board is empty or full |
| CandidateGen.WalkToEmpty | server.py:73-83 | on a board with a stone and an empty cell, some empty cell touches a stone |
| CandidateGen.CandidatesAreEmpty | server.py:73-83 | while some cell is empty, every candidate is an empty cell |
| CandidateGen.EmptyBoardCandidates | server.py:83 | the empty board's only candidate is the centre |
| CandidateGen.FullBoardCandidates | server.py:83 | the full board's only candidate is the centre, which is occupied |
| Server.Game.AddNeighbours | server.py:78-82 | the two inner loops add exactly the empty on-board neighbours of the stone to the set |
| Server.Game.GenerateCandidates | server.py:73-83 | the loops return the candidate list of the current board |
| AlphaBeta.Max | server.py:96-97 | the larger of two search values, with infinities ordered below and above all scores |
| AlphaBeta.Min | server.py:107-108 | the smaller of two search values |
| AlphaBeta.IsTerminal | server.py:87 | the search stops when the board score is at least 10000 in absolute value or the depth is 0 |
| AlphaBeta.Minimax | server.py:85-111 | not a source routine: the reference value the search is compared with, plain depth-limited minimax without pruning, each child computed on its own board |
| AlphaBeta.MaxOver | server.py:90-100 | not a source routine: the reference maximum over the candidates of the machine's children, without pruning |
| AlphaBeta.MinOver | server.py:101-111 | not a source routine: the reference minimum over the candidates of the human's children, without pruning |
| AlphaBeta.Search | server.py:85-111 | minimax as written: the board score at a terminal position, otherwise the maximising or minimising loop over the candidates from -inf or +inf; it returns the value and the board as the search leaves it |
| AlphaBeta.Child | server.py:92-95 | one turn of either loop: place the stone, search the position one level down, then set the cell to Empty on the board that search left |
| AlphaBeta.SearchMax | server.py:90-100 | the maximising loop: max_eval and alpha raised by each child's value, stopping once beta <= alpha; the board is threaded through the turns |
| AlphaBeta.SearchMin | server.py:101-111 | the minimising loop: min_eval and beta lowered by each child's value, stopping once beta <= alpha |
| AlphaBeta.RoomIsClean | server.py:85-111 | with at least depth empty cells, every move the search tries, at every level, lands on an empty cell |
| AlphaBeta.RoomIsCleanOver | server.py:92-110 | the same for a loop over candidates that are all empty cells |
| AlphaBeta.FullBoardSearchClearsCentre | server.py:89-95 | on a full board without a decisive score the search ends with the centre Empty, so it does not return the board it was given |
| AlphaBeta.SearchAgrees | server.py:85-111 | for alpha < beta, and if every move lands on an empty cell (`Clean`), minimax restores the board, and its value is fail-soft for the unpruned value: at most alpha means an upper bound, at least beta a lower bound, strictly inside means exact |
| AlphaBeta.MaxStep | server.py:96-99 | one maximising step keeps the loop invariant, or its cut leaves a fail-soft lower bound whatever the skipped candidates are worth |
| AlphaBeta.MinStep | server.py:107-110 | the mirror image for the minimising loop |
| AlphaBeta.SearchMaxAgrees | server.py:90-100 | from a state meeting the loop invariant (`MaxInvariant`: the running bound is the entry bound moved by the best value so far, the window is still open, and the true value of the candidates tried so far agrees with that best value), and when every move it tries, at every level, lands on an empty cell (`CleanOver`), the maximising loop, cut or not, restores the board and is fail-soft for the maximum over the candidates |
| AlphaBeta.SearchMinAgrees | server.py:101-111 | from a state meeting the loop invariant (`MinInvariant`: the running bound is the entry bound moved by the best value so far, the window is still open, and the true value of the candidates tried so far agrees with that best value), and when every move it tries, at every level, lands on an empty cell (`CleanOver`), the minimising loop, cut or not, restores the board and is fail-soft for the minimum |
| AlphaBeta.FullWindowIsMinimax | server.py:118 | when every move lands on an empty cell (`Clean`), called with (-inf, +inf), as ai_move does, minimax returns exactly the unpruned value and restores the board |
| AlphaBeta.MinimaxIsFinite | server.py:85-111 | the unpruned minimax value is always a board score, never an infinity |
| AlphaBeta.SearchIsFinite | server.py:85-111 | minimax as written always returns a board score, whatever the board and the window |
| AlphaBeta.SearchMaxIsFinite | server.py:91-100 | the maximising loop over a non-empty candidate list ends with a finite max_eval |
| AlphaBeta.SearchMinIsFinite | server.py:102-111 | the minimising loop over a non-empty candidate list ends with a finite min_eval |
| Server.Game.Minimax | server.py:85-111 | minimax on the array board returns the value of the pure search and leaves the board as the pure search does |
| Server.Game.TryMove | server.py:92-95 | placing a Player or Ai stone, searching and resetting the cell gives the child's value and board, and keeps every cell 0, 1 or 2 |
| Server.Game.MaxLoop | server.py:90-100 | the maximising loop, with its break, computes the pure maximising loop's value and board |
| Server.Game.MinLoop | server.py:101-111 | the minimising loop, with its break, computes the pure minimising loop's value and board |
| AlphaBeta.AiLoop | server.py:116-122 | the move kept is the one it started with or one of the candidates tried |
| AlphaBeta.AiChoice | server.py:113-123 | a chosen move is one of the candidates and lies on the board |
| AlphaBeta.AiTry | server.py:117-119 | with room, trying an empty cell yields its minimax value and puts the board back |
| AlphaBeta.AiLoopStep | server.py:116-122 | with room, one turn of the loop compares the candidate's minimax value and keeps the board |
| AlphaBeta.AiLoopPicks | server.py:116-122 | with room, the loop ends with the first candidate of greatest minimax value and the board unchanged |
| AlphaBeta.AiChoiceIsFirstBest | server.py:113-123 | with at least MaxDepth + 1 empty cells, ai_move returns a move: the first candidate whose value is above every earlier one and at least every later one; the board is unchanged |
| AlphaBeta.AiChoiceIsSome | server.py:113-123 | on every board ai_move returns some move, because the candidate list is never empty |
| Server.Game.AiMove | server.py:113-123 | the loop over the array board returns ai_move's choice and leaves the board as the pure model does |
| Server.Game.constructor | server.py:11-12 | the session starts with an empty board and the game not over |
| Server.Game.ResetGame | server.py:14-17 | reset_game: a new empty board and the game not over |
| Server.Game.SetCell | server.py:143 | a write of 0, 1 or 2 to one cell of the array board, mirrored on the board value; every cell still holds 0, 1 or 2 |
| Server.Step | server.py:136-156 | player_move: refusal when the game is over or the cell occupied; otherwise the human's stone, the human's win, or the machine's reply on the board ai_move leaves, with its win; a draw when ai_move gives no move |
| Server.StepRules | server.py:136-156 | a finished game or an occupied cell is refused with no change; the human wins exactly when the new stone completes a run, which ends the game with no reply; the reply is never a draw; after a reply the game is over exactly when it wins |
| Server.StepWithRoom | server.py:143-154 | with at least MaxDepth + 2 empty cells and no human win, the machine replies on an empty cell, the first best candidate, and the board is the old one plus the two new stones |
| Server.FullBoardReplyOverwritesCentre | server.py:143-150 | when the human's stone fills the last empty cell without winning, ai_move names the centre, which holds a stone, and player_move writes the machine's stone over it; the draw reply is not given |
| Server.Game.PlayerMove | server.py:136-156 | player_move on the array board gives the outcome, game-over flag and board of Step |

## Left out

- The Flask application, its routes, `render_template`, `jsonify` and `app.run` (server.py:1-3, 125-133, 158-159). They are HTTP plumbing with no game logic.
- The reply messages and JSON shapes of `player_move`. The reply is the `Outcome` datatype instead.
- Request parsing (server.py:139-140). `row` and `col` are parameters. A non-integer value, an index of 20 or more (an `IndexError` in Python) and a negative index (which Python wraps around) are excluded by the precondition `InBounds(row, col)` of `Step` and `Server.Game.PlayerMove`.
- Concurrent requests on the shared globals `board` and `game_over`. The model has one `Game` object and runs its methods one at a time.
- Floating-point rounding of `0.8 *` and the float comparisons. Scores are exact reals, and the infinities are the `NegInf` and `PosInf` cases of `Score`.
- The actual iteration order of a Python `set`. The model lists the candidate set in row-major order.
- AlphaBeta.SearchAgrees: stated only for boards where every move lands on an empty cell (`Clean`). Otherwise the search changes the board (see AlphaBeta.FullBoardSearchClearsCentre), so no frame or value property holds in general.
- AlphaBeta.AiChoiceIsFirstBest: stated with at least MaxDepth + 1 empty cells. With fewer, a search move can land on the occupied centre, and the compared score is then not the minimax value of the position.
- Server.StepWithRoom: stated with at least MaxDepth + 2 empty cells before the human's move, for the same reason. Server.StepRules holds on every board.
- AlphaBeta.AiLoop: its contract says only where the returned move comes from. Which move that is, is stated by AlphaBeta.AiLoopPicks and AlphaBeta.AiChoiceIsFirstBest.
- Evaluation.Asymmetry: it assumes every cell holds 0, 1 or 2 (`Proper`). The session's invariant `Server.Game.Valid` includes `Proper`, because `Server.Game.SetCell` and `Server.Game.TryMove` write only those values, so the lemma applies to every board the session holds.
