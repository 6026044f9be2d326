/**
 * The board of `ConnectFour` (connect_four.py): a ROWS x COLUMNS grid in which
 * row 0 is the top and row ROWS-1 the bottom, the move queries, and the drop
 * and undo of a piece, as pure functions on grid values.
 */
module Grids {

  /** A cell: EMPTY (`None`), PLAYER (`0`) or AI (`1`). */
  datatype Cell = Empty | Player | AI

  /** The values a piece argument takes: PLAYER or AI. */
  type Piece = c: Cell | c != Empty witness Player

  type Grid = seq<seq<Cell>>

  /** The `opp_piece` of evaluate_window: PLAYER for AI and AI for PLAYER. */
  function Opponent(p: Piece): (q: Piece)
    ensures q != p
  {
    if p == AI then Player else AI
  }

  /** A rectangular grid of at least MIN_BOARD_SIZE (4) rows and columns. */
  predicate Rect(g: Grid) {
    |g| >= 4 && |g[0]| >= 4 && forall r :: 0 <= r < |g| ==> |g[r]| == |g[0]|
  }

  function Width(g: Grid): nat
    requires |g| > 0
  {
    |g[0]|
  }

  /** The initial board `[[EMPTY] * columns for _ in range(rows)]`. */
  function EmptyGrid(rows: nat, columns: nat): (g: Grid)
    requires rows >= 4 && columns >= 4
    ensures Rect(g) && |g| == rows && Width(g) == columns
    ensures forall r, c :: 0 <= r < rows && 0 <= c < columns ==> g[r][c] == Empty
  {
    seq(rows, _ => seq(columns, _ => Empty))
  }

  /** is_valid_move: the column is on the board and its top cell is empty. */
  predicate ValidMove(g: Grid, col: int)
    requires Rect(g)
  {
    0 <= col < Width(g) && g[0][col] == Empty
  }

  predicate AllValidMoves(g: Grid, moves: seq<int>)
    requires Rect(g)
  {
    forall k :: 0 <= k < |moves| ==> ValidMove(g, moves[k])
  }

  predicate StrictlyAscending(s: seq<int>) {
    forall i, j :: 0 <= i < j < |s| ==> s[i] < s[j]
  }

  /** The valid columns below `n`, in ascending order. */
  function ValidMovesBelow(g: Grid, n: int): (moves: seq<int>)
    requires Rect(g) && n <= Width(g)
    ensures AllValidMoves(g, moves)
    decreases n
  {
    if n <= 0 then []
    else ValidMovesBelow(g, n - 1) + (if ValidMove(g, n - 1) then [n - 1] else [])
  }

  /** The columns listed below `n` are exactly the valid ones. */
  lemma {:induction false} ValidMovesBelowMembers(g: Grid, n: int)
    requires Rect(g) && n <= Width(g)
    ensures forall c :: c in ValidMovesBelow(g, n) <==> 0 <= c < n && ValidMove(g, c)
    decreases n
  {
    if n > 0 {
      ValidMovesBelowMembers(g, n - 1);
    }
  }

  /** The columns listed below `n` are in ascending order, so each appears once. */
  lemma {:induction false} ValidMovesBelowAscending(g: Grid, n: int)
    requires Rect(g) && n <= Width(g)
    ensures StrictlyAscending(ValidMovesBelow(g, n))
    decreases n
  {
    if n > 0 && ValidMove(g, n - 1) {
      ValidMovesBelowAscending(g, n - 1);
      ValidMovesBelowMembers(g, n - 1);
      var prev := ValidMovesBelow(g, n - 1);
      var moves := ValidMovesBelow(g, n);
      assert moves == prev + [n - 1];
      forall i, j | 0 <= i < j < |moves| ensures moves[i] < moves[j] {
        assert moves[i] == prev[i] && prev[i] in prev;
        if j < |prev| {
          assert moves[j] == prev[j];
        }
      }
    } else if n > 0 {
      ValidMovesBelowAscending(g, n - 1);
    }
  }

  /** get_valid_moves: `[col for col in range(COLUMNS) if is_valid_move(col)]`. */
  function ValidMoves(g: Grid): (moves: seq<int>)
    requires Rect(g)
    ensures AllValidMoves(g, moves)
  {
    ValidMovesBelow(g, Width(g))
  }

  /** get_valid_moves lists every valid column and nothing else, in ascending order. */
  lemma ValidMovesSpec(g: Grid)
    requires Rect(g)
    ensures forall c :: c in ValidMoves(g) <==> ValidMove(g, c)
    ensures StrictlyAscending(ValidMoves(g))
  {
    ValidMovesBelowMembers(g, Width(g));
    ValidMovesBelowAscending(g, Width(g));
  }

  /** The largest row index at most `r` whose cell in `col` is empty. */
  function LowestEmpty(g: Grid, col: int, r: int): (row: int)
    requires Rect(g) && 0 <= col < Width(g) && 0 <= r < |g| && g[0][col] == Empty
    ensures 0 <= row <= r && g[row][col] == Empty
    ensures forall k :: row < k <= r ==> Occupied(g, k, col)
    decreases r
  {
    if g[r][col] == Empty then r else LowestEmpty(g, col, r - 1)
  }

  /** The grid with cell (row, col) set to `x`: `board[row][col] = x`. */
  function Place(g: Grid, row: int, col: int, x: Cell): (g': Grid)
    requires Rect(g) && 0 <= row < |g| && 0 <= col < Width(g)
    ensures Rect(g') && |g'| == |g| && Width(g') == Width(g)
  {
    g[row := g[row][col := x]]
  }

  /** Placing writes exactly the one cell. */
  lemma PlaceCells(g: Grid, row: int, col: int, x: Cell)
    requires Rect(g) && 0 <= row < |g| && 0 <= col < Width(g)
    ensures Place(g, row, col, x)[row][col] == x
    ensures forall r, c :: 0 <= r < |g| && 0 <= c < Width(g) && (r != row || c != col) ==> Place(g, row, col, x)[r][c] == g[r][c]
  {
  }

  /** The row drop_piece fills: the lowest empty cell of the column. */
  function DropRow(g: Grid, col: int): (row: int)
    requires Rect(g) && ValidMove(g, col)
    ensures 0 <= row < |g| && g[row][col] == Empty
    ensures forall k :: row < k < |g| ==> Occupied(g, k, col)
  {
    LowestEmpty(g, col, |g| - 1)
  }

  /** The board after drop_piece(col, p) on a valid column. */
  function Drop(g: Grid, col: int, p: Piece): (g': Grid)
    requires Rect(g) && ValidMove(g, col)
    ensures Rect(g') && |g'| == |g| && Width(g') == Width(g)
  {
    Place(g, DropRow(g, col), col, p)
  }

  /** Cell (r, c) holds a piece. */
  predicate Occupied(g: Grid, r: int, c: int)
    requires Rect(g) && 0 <= r < |g| && 0 <= c < Width(g)
  {
    g[r][c] != Empty
  }

  /** Every cell below an occupied cell is occupied. */
  predicate Gravity(g: Grid)
    requires Rect(g)
  {
    forall r1, r2, c :: 0 <= r1 < r2 < |g| && 0 <= c < Width(g) && Occupied(g, r1, c) ==> Occupied(g, r2, c)
  }

  /** drop_piece writes `p` into the lowest empty cell of the column and nowhere else. */
  lemma DropWritesLowestEmpty(g: Grid, col: int, p: Piece)
    requires Rect(g) && ValidMove(g, col)
    ensures var row := DropRow(g, col);
      && g[row][col] == Empty
      && (forall k :: row < k < |g| ==> Occupied(g, k, col))
      && Drop(g, col, p)[row][col] == p
      && (forall r, c :: 0 <= r < |g| && 0 <= c < Width(g) && (r != row || c != col) ==> Drop(g, col, p)[r][c] == g[r][c])
  {
    PlaceCells(g, DropRow(g, col), col, p);
  }

  /** Dropping on a valid column keeps every column stacked from the bottom. */
  lemma DropKeepsGravity(g: Grid, col: int, p: Piece)
    requires Rect(g) && ValidMove(g, col) && Gravity(g)
    ensures Gravity(Drop(g, col, p))
  {
    var row := DropRow(g, col);
    var g' := Drop(g, col, p);
    PlaceCells(g, row, col, p);
    forall r1, r2, c | 0 <= r1 < r2 < |g'| && 0 <= c < Width(g') && Occupied(g', r1, c)
      ensures Occupied(g', r2, c)
    {
      if c == col && r1 == row {
        assert Occupied(g, r2, c);
      } else if c != col || r2 != row {
        assert Occupied(g, r1, c) && Occupied(g, r2, c);
      }
    }
  }

  /** The undo `board[row][col] = EMPTY` after a drop restores the board exactly. */
  lemma UndoDrop(g: Grid, col: int, p: Piece)
    requires Rect(g) && ValidMove(g, col)
    ensures Place(Drop(g, col, p), DropRow(g, col), col, Empty) == g
  {
    var row := DropRow(g, col);
    var u := Place(Drop(g, col, p), row, col, Empty);
    PlaceCells(g, row, col, p);
    PlaceCells(Drop(g, col, p), row, col, Empty);
    assert |u| == |g|;
    forall r | 0 <= r < |g| ensures u[r] == g[r] {
      assert |u[r]| == |g[r]|;
    }
  }

  /** A board whose top row is full has no valid move: the draw test of minimax. */
  lemma FullTopRowHasNoMoves(g: Grid)
    requires Rect(g)
    ensures ValidMoves(g) == [] <==> forall c :: 0 <= c < Width(g) ==> g[0][c] != Empty
  {
    ValidMovesSpec(g);
    if ValidMoves(g) != [] {
      assert ValidMove(g, ValidMoves(g)[0]);
    }
    forall c | 0 <= c < Width(g) && g[0][c] == Empty ensures ValidMoves(g) != [] {
      assert c in ValidMoves(g);
    }
  }

  /** With gravity, a column on the board is playable exactly when some cell of it is still empty. */
  lemma ValidMoveIffNotFull(g: Grid, col: int)
    requires Rect(g) && Gravity(g) && 0 <= col < Width(g)
    ensures ValidMove(g, col) <==> exists r :: 0 <= r < |g| && g[r][col] == Empty
  {
    if !ValidMove(g, col) {
      forall r | 0 <= r < |g| ensures g[r][col] != Empty {
        if r > 0 {
          assert Occupied(g, 0, col) && Occupied(g, r, col);
        }
      }
    }
  }
}
