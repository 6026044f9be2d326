# Connect Four engine, modelled in Dafny

This project models the game engine of `connect_four.py`, the class `ConnectFour`. Its persistence, timing and logging are left out.

The board is a ROWS x COLUMNS grid of cells. A cell is EMPTY, PLAYER or AI. Row 0 is the top row and row ROWS-1 the bottom one.

The engine does five things:
- **Setup.** It validates its construction parameters and picks a search depth from the difficulty.
- **Moves.** It lists the valid columns and drops a piece into the lowest empty cell of a column.
- **Win test.** `check_winner` looks for four in a row: horizontal, vertical or on either diagonal.
- **Evaluation.** `evaluate_window` and `evaluate_position` give a heuristic score from the AI's side.
- **Search.** `minimax` is a depth-limited minimax with alpha-beta pruning. It drops a trial piece, searches, and undoes the drop in place. `get_ai_move` and `suggest_move` call it from the root.

The modules:
- **`Wrappers`** holds `Option` and `Result`. They stand for Python's `None` and for raised exceptions.
- **`Scores`** holds the search score: an integer extended with `-inf` and `+inf`. It also holds Python's `max` and `min` on scores.
- **`Grids`** holds cells, boards, `is_valid_move`, `get_valid_moves`, and the drop and undo of a piece as pure functions. It also defines the gravity invariant: below an occupied cell every cell is occupied.
- **`Lines`** holds the 4-cell windows and the win predicate `HasFour`. A window is named by its direction and its first cell. The list of windows follows `evaluate_position`'s own loop order.
- **`Evaluation`** holds `evaluate_window`, and `evaluate_position` as the function `PositionScore`.
- **`Search`** is the reference for the search:
  - `MinimaxValue` is plain minimax, with the same terminal tests and move order.
  - `AlphaBeta` is the pruned search exactly as `minimax` runs it: value, column and nodes visited.
  - The lemmas prove the pruned search sound against plain minimax. They also characterise the column chosen from the root window.
- **`Game`** holds the class `ConnectFour`.
  - The board and `nodes_explored` are fields, and the methods update them in place.
  - The loops of `drop_piece`, `check_winner`, `evaluate_position` and `minimax` are `while` loops.
  - Each loop is proved against the pure functions above.
  - `Minimax` ends with the board it started from, and returns what `AlphaBeta` computes.

## Model

| member | source | states |
|---|---|---|
| Game.ValidateParameters | connect_four.py:103-116 | Validation passes exactly when rows and columns are in [4, 8], the difficulty is 1, 2 or 3 and the initial player is "HUMAN" or "AI". Otherwise it reports the first check that fails, in the order of connect_four.py:106-116. |
| Game.DepthMapCoversDifficulties | connect_four.py:84-85 | `depth_map` has exactly the valid difficulties as keys and maps each to twice its value (2, 4, 6). |
| Game.ConnectFour.constructor | connect_four.py:64-88 | A validated game has the given dimensions, difficulty and initial player, and search depth `depth_map[difficulty]`, which is 2, 4 or 6. Its board is all EMPTY and no node is counted. |
| Game.ConnectFour.Create | connect_four.py:49-88 | Construction fails exactly when validation reports an error, and then with that error. Otherwise it is a fresh game holding the given rows, columns, difficulty and initial player, with an empty board and the difficulty's search depth. |
| Grids.EmptyGrid | connect_four.py:88 | The initial board has `rows` rows of `columns` cells, and every cell is EMPTY. |
| Grids.ValidMoves | connect_four.py:281-283 | Every column `get_valid_moves` lists passes `is_valid_move`. |
| Grids.ValidMovesBelowMembers | connect_four.py:283 | The comprehension over `range(n)` keeps a column exactly when it is below `n` and valid. |
| Grids.ValidMovesBelowAscending | connect_four.py:283 | The comprehension's columns are strictly ascending. |
| Grids.ValidMovesSpec | connect_four.py:281-289 | `get_valid_moves` lists every valid column and nothing else, each once, in strictly ascending order. |
| Grids.ValidMoveIffNotFull | connect_four.py:285-289 | On a board with gravity, a column on the board is a valid move exactly when some cell of it is empty. |
| Grids.FullTopRowHasNoMoves | connect_four.py:444-445 | There is no valid move, which is the draw case of minimax, exactly when every top-row cell is occupied. |
| Grids.LowestEmpty | connect_four.py:309-311 | The downward scan from row `r` stops at an empty cell, and every cell it passed is occupied. |
| Grids.DropRow | connect_four.py:309-312 | The row `drop_piece` fills is empty, and every cell below it in the column is occupied. |
| Grids.PlaceCells | connect_four.py:311 | The assignment `board[row][col] = x` sets that cell and leaves every other cell as it was. |
| Grids.DropWritesLowestEmpty | connect_four.py:306-312 | Dropping on a valid column writes the piece into the lowest empty cell and changes nothing else. |
| Grids.DropKeepsGravity | connect_four.py:309-312 | Dropping on a valid column keeps every column stacked from the bottom. |
| Grids.UndoDrop | connect_four.py:454-456 | Resetting the dropped cell to EMPTY restores the board exactly. |
| Game.ConnectFour.DropPiece | connect_four.py:291-317 | On a valid column the piece lands in the lowest empty cell, and the method returns (row, col). On any other column it raises InvalidMove and the board is unchanged. Gravity is preserved. |
| Lines.CountExtremes | connect_four.py:332 | A window's count of `x` is its length exactly when every cell is `x`, and 0 exactly when none is. |
| Lines.CountsPartition | connect_four.py:365-367 | The counts of own pieces, opponent pieces and empty cells add up to the window's length. |
| Lines.StripMembers | connect_four.py:398-399 | One pass of an inner loop visits exactly the windows with that outer index and an inner index below the bound. |
| Lines.BlockMembers | connect_four.py:395-419 | A whole loop nest visits exactly the windows with outer index in its range and inner index below the bound. |
| Lines.BlockLength | connect_four.py:395-419 | A loop nest visits (number of outer indices) x (inner bound) windows. |
| Lines.WindowsMembers | connect_four.py:395-419 | The four loop nests together visit exactly the windows that lie on the board. |
| Lines.DirectionCount | connect_four.py:395-419 | One direction has (outer range) x (inner range) windows. |
| Lines.WindowCount | connect_four.py:395-419 | A ROWS x COLUMNS board has R(C-3) + C(R-3) + 2(R-3)(C-3) windows. |
| Lines.AnchorAt | connect_four.py:398-418 | The loop indices (outer, inner) name a window of that direction, with those indices. |
| Game.HasFourInDirection | connect_four.py:329-355 | One loop nest of `check_winner` returns true exactly when some window of its direction holds four of `piece`. |
| Game.ConnectFour.CheckWinner | connect_four.py:319-357 | `check_winner(piece)` is true exactly when some horizontal, vertical or diagonal window holds four of `piece`. It does not change the board. |
| Evaluation.EvaluateWindow | connect_four.py:360-379 | A window's score lies in [-4, 100]. |
| Evaluation.EvaluateWindowCases | connect_four.py:360-379 | The score is one of 100, 5, 2, 0 and -4. Each iff gives its window: 100 for four own; 5 for three own and one empty; 2 for two own and two empty; -4 for three opponent and one empty. |
| Evaluation.MixedWindowScoresZero | connect_four.py:369-377 | A window holding pieces of both sides scores 0. |
| Evaluation.EvaluateWindowSymmetric | connect_four.py:360-379 | The two sides' rules are mirror images: swapping every piece and the side scored gives the same score. |
| Evaluation.Column | connect_four.py:391 | `center_array` holds the column's cells, top to bottom. |
| Evaluation.WindowsOn | connect_four.py:395-419 | Every window `evaluate_position` scores lies on the board. |
| Evaluation.WindowScoreBounds | connect_four.py:395-419 | A sum of n window scores lies between -4n and 100n. |
| Evaluation.WindowScoreAppend | connect_four.py:395-419 | Scoring two lists of windows in a row adds their scores. |
| Evaluation.PositionScoreBounds | connect_four.py:381-421 | With n windows, the position score lies between -4n and 3 x ROWS + 100n. |
| Evaluation.EmptyBoardScoresZero | connect_four.py:381-421 | The empty board evaluates to 0. |
| Game.SumStrip | connect_four.py:398-400 | One inner loop of `evaluate_position` adds the AI's score of that row's or column's windows to the running score. |
| Game.SumWindows | connect_four.py:395-419 | One loop nest of `evaluate_position` totals the AI's score of its direction's windows, in its visiting order. |
| Game.StripScoreIs | connect_four.py:398-400 | The inner loop's running total is the model's score of the windows visited so far. |
| Game.BlockScoreIs | connect_four.py:395-400 | The outer loop's running total is the model's score of the windows of the outer indices already visited. |
| Game.BlockScoreStep | connect_four.py:395-400 | One more outer index appends its windows and adds their score. |
| Game.AppendStrip | connect_four.py:395-400 | Appending the windows of one outer index to those already visited adds exactly that strip's score, and every window stays on the board. |
| Game.ConnectFour.EvaluatePosition | connect_four.py:381-421 | `evaluate_position` is 3 per AI piece in column COLUMNS // 2, plus the AI's score of every window. |
| Scores.Max | connect_four.py:461 | `max(alpha, value)` returns one of its arguments and is at least both. |
| Scores.Min | connect_four.py:482 | `min(beta, value)` returns one of its arguments and is at most both. |
| Search.Advance | connect_four.py:458-482 | One iteration of either loop (458-461 maximising, 479-482 minimising). The loop's value never gets worse for the side to move, and it is at least as good as the child's score. The value and column are either both kept or both the child's. Alpha only rises to at least the value (maximising) or beta only falls to at most it (minimising), and the other bound is kept. The child's nodes are added. |
| Search.ScanColumn | connect_four.py:449-490 | The loop ends with a column that is a valid move, and it never loses a counted node. |
| Search.AlphaBetaColumn | connect_four.py:436-490 | `minimax` counts at least its own node. It returns no column exactly at a terminal node: a win for either side, no valid move, or depth 0. Otherwise it returns a valid column. |
| Search.BestOfBound | connect_four.py:449-490 | Plain minimax's value of a node is at least (maximising) or at most (minimising) the value of each child. |
| Search.PrefixStep | connect_four.py:452-461 | One more move folds the child's exact value into the best so far with max or min. |
| Search.MaxStep | connect_four.py:458-464 | One step of the maximising loop keeps the fail-soft loop invariant, or it cuts off with a fail-soft value. |
| Search.MinStep | connect_four.py:479-485 | One step of the minimising loop keeps the fail-soft loop invariant, or it cuts off with a fail-soft value. |
| Search.ScanStepSound | connect_four.py:452-488 | One iteration of minimax's loop keeps the loop invariant. If it cuts off, the value returned is already fail-soft for all the moves. |
| Search.ScanSound | connect_four.py:449-490 | From any state satisfying the invariant, the loop returns a value that is fail-soft with respect to the exact best over all moves. |
| Search.AlphaBetaSound | connect_four.py:423-490 | Pruned minimax is sound against plain minimax for every window alpha < beta. A value at or below alpha bounds the exact value from above; one at or above beta bounds it from below; one strictly inside the window is exact. |
| Search.FullWindowExact | connect_four.py:506-511 | In the root window (-inf, +inf), a fail-soft value is the exact value. |
| Search.RootScores | connect_four.py:449-490 | In the root window, a strictly better child's score is its exact value. Cutoffs there only happen on an exact best. |
| Search.RootStep | connect_four.py:452-488 | One iteration at the root keeps the column at the first index whose child reaches the best exact value so far. |
| Search.RootScan | connect_four.py:449-490 | The root loop returns the first move, in list order, whose child reaches the exact best over all moves. |
| Search.IndexToColumn | connect_four.py:281-283 | Since the move list is ascending, "first in the list" is "leftmost valid column". |
| Search.RootSearch | connect_four.py:506-511 | From the root window on a non-terminal board, `minimax` returns exactly the unpruned minimax value. Its column is the leftmost valid column whose move reaches that value; every valid column to its left is strictly worse. |
| Game.ConnectFour.SearchChild | connect_four.py:454-456 | Drop, search and undo: returns the child search's value, adds exactly its nodes, and leaves the board as it was. |
| Game.ConnectFour.MaximizeOver | connect_four.py:449-469 | The maximising loop computes the reference loop `Scan` from its initial state: value, column and nodes. The board ends as it started. |
| Game.ConnectFour.MinimizeOver | connect_four.py:470-490 | The minimising loop computes `Scan` from its initial state. The board ends as it started. |
| Game.ConnectFour.Minimax | connect_four.py:423-490 | `minimax` returns the value and column of `AlphaBeta`, adds exactly its visited nodes to `nodes_explored` (one for this call), and leaves the board unchanged. |
| Game.ConnectFour.GetAiMove | connect_four.py:492-527 | `get_ai_move` fails exactly when no column is valid, and otherwise returns a valid column. It is the search's column with its node count. When the search returns no column because a side has already won, it is the first valid column with 0 nodes. On a non-terminal board the column is the leftmost one reaching the minimax value. The board is unchanged. |
| Game.ConnectFour.SuggestMove | connect_four.py:529-555 | `suggest_move` searches 2 plies for the minimising side. It fails exactly when no column is valid, and otherwise returns a valid column: the search's column, or the first valid column as the fallback. On a non-terminal board the column is the leftmost one reaching the minimax value for PLAYER. |

## Left out

- SQLite persistence is not modelled: `get_db_connection`, `initialize_database`, `register_new_game`, `register_move` and `register_game_stats`. That includes the `register_move` call inside `drop_piece`. It is external I/O. Without it, `help_used` has no effect.
- A database failure during search is not modelled. `drop_piece` writes the cell (connect_four.py:311) before it calls `register_move` (314). A failure there raises `DatabaseError` (237-239), which `minimax`'s `except ValueError` (466, 487) does not catch. The undo (456, 477) is then skipped, so trial pieces stay on the board. `get_ai_move` and `suggest_move` catch the error (521, 549) and return the first valid column of that altered board. The model's `Minimax`, `GetAiMove` and `SuggestMove` always restore the board, which holds only when every database write succeeds.
- The constructor's database errors (`DatabaseError`) are not modelled, since they come from that I/O. `db_path`, `game_id` (a random UUID) and `MAX_GAME_HISTORY`/`DB_TIMEOUT` are dropped.
- `adjust_difficulty` is difficulty policy driven by the game history in the database, not game logic.
- Game.ConnectFour.GetAiMove: the thinking time comes from the wall clock and is not part of the result. The fallback reports 0 nodes, as connect_four.py:527 does, while the `nodes_explored` field keeps the search's count.
- Logging, `__del__` and the `GameStats` record are left out. `main.py` (the pygame interface) is not part of this model.
- The `@lru_cache` on `get_valid_moves` and `evaluate_window` is not modelled. The model always computes the valid moves fresh.
  - The cache is keyed only on the game object, so the running program reuses its first move list after the board changes. A drop on a listed but full column then raises the `ValueError` that the loop skips.
  - In the model every listed column is valid, so that `except ValueError: continue` branch cannot occur and is not modelled.
  - A stale list can also make `minimax` return a full column or miss the draw test. Those outcomes are outside the model.
- Scores are integers extended with `-inf` and `+inf`. Python's floats appear only as these two sentinels; every finite evaluation is an integer.
- `drop_piece`'s final `raise ValueError("Columna llena")` is unreachable. A valid column has an empty top cell, so the downward scan always finds an empty row. The model's loop stops at that row.
- The `Terminal`/`AlphaBeta`/`MinimaxValue` functions in `Search` are the specification functions: they have no contract of their own. Their properties are the lemmas listed above.
- Game.ConnectFour.Minimax: the two loops of connect_four.py:449-490 are moved into the methods `MaximizeOver` and `MinimizeOver`. The drop, search and undo of each iteration is moved into `SearchChild`. The loop variables, the early `break` and the order of drop, search and undo are those of connect_four.py.
- The class invariant `Valid` holds the board's shape and gravity. The validated parameters and the search depth are constants, stated once by `Configured` at construction, and not repeated in every method's contract.
