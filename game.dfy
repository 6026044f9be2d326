/**
 * The `ConnectFour` class of connect_four.py: parameter validation, the board
 * it owns, and the operations that read or change it in place (drop_piece,
 * check_winner, evaluate_position, minimax, get_ai_move, suggest_move).
 * Each method is proved against the pure model in Grids, Lines, Evaluation
 * and Search.
 */
module Game {
  import opened Wrappers
  import opened Scores
  import opened Grids
  import opened Lines
  import opened Evaluation
  import opened Search

  const MinBoardSize := 4
  const MaxBoardSize := 8
  const ValidDifficulties: set<int> := {1, 2, 3}
  const InitialPlayers: set<string> := {"HUMAN", "AI"}

  /** `depth_map`: the search depth for each difficulty. */
  const DepthMap: map<int, nat> := map[1 := 2, 2 := 4, 3 := 6]

  /** Every valid difficulty has a search depth, twice the difficulty. */
  lemma DepthMapCoversDifficulties()
    ensures DepthMap.Keys == ValidDifficulties
    ensures forall d :: d in DepthMap ==> DepthMap[d] == 2 * d
  {
  }

  /** The ValueError raised by `_validate_parameters`, one per check. */
  datatype ParameterError = RowsOutOfRange | ColumnsOutOfRange | UnknownDifficulty | UnknownInitialPlayer

  /** The ValueError drop_piece raises on a column that is not a valid move. */
  datatype MoveError = InvalidMove

  /** The RuntimeError of get_ai_move and suggest_move when the board has no valid move. */
  datatype SearchError = NoValidMoves

  /** The column get_ai_move chooses and the nodes it reports. */
  datatype AiMove = AiMove(column: int, nodes: nat)

  /** `_validate_parameters`: the first failing check, in connect_four.py's order, or None. */
  function ValidateParameters(rows: int, columns: int, difficulty: int, initialPlayer: string): (err: Option<ParameterError>)
    ensures err.None? <==>
      && MinBoardSize <= rows <= MaxBoardSize && MinBoardSize <= columns <= MaxBoardSize
      && difficulty in ValidDifficulties && initialPlayer in InitialPlayers
    ensures err == Some(RowsOutOfRange) <==> !(MinBoardSize <= rows <= MaxBoardSize)
    ensures err == Some(ColumnsOutOfRange) <==>
      MinBoardSize <= rows <= MaxBoardSize && !(MinBoardSize <= columns <= MaxBoardSize)
    ensures err == Some(UnknownDifficulty) <==>
      MinBoardSize <= rows <= MaxBoardSize && MinBoardSize <= columns <= MaxBoardSize && difficulty !in ValidDifficulties
  {
    if !(MinBoardSize <= rows <= MaxBoardSize) then Some(RowsOutOfRange)
    else if !(MinBoardSize <= columns <= MaxBoardSize) then Some(ColumnsOutOfRange)
    else if difficulty !in ValidDifficulties then Some(UnknownDifficulty)
    else if initialPlayer !in InitialPlayers then Some(UnknownInitialPlayer)
    else None
  }

  /** The row ranges of check_winner's four loop nests, which all run row-major. */
  function RowLow(d: Direction): int {
    if d == DiagonalUp then 3 else 0
  }

  function RowHigh(d: Direction, rows: int): int {
    if d == Vertical || d == DiagonalDown then rows - 3 else rows
  }

  function ColCount(d: Direction, columns: int): int {
    if d == Vertical then columns else columns - 3
  }

  /** No window of direction `d` anchored before (row, col) in row-major order is four of `piece`. */
  ghost predicate NoFourBefore(g: Grid, piece: Piece, d: Direction, row: int, col: int)
    requires Rect(g)
  {
    forall a :: ValidAnchor(a, |g|, Width(g)) && a.dir == d && (a.row < row || (a.row == row && a.col < col))
      ==> Count(Cells(g, a), piece) != 4
  }

  /** The inner loop of one direction of evaluate_position: adds the windows of outer index `major`. */
  method SumStrip(g: Grid, d: Direction, major: int, start: int) returns (total: int)
    requires Rect(g) && MajorLow(d) <= major < MajorHigh(d, |g|, Width(g))
    ensures total == start + StripScore(g, d, major, MinorCount(d, |g|, Width(g)))
  {
    var n := MinorCount(d, |g|, Width(g));
    var minor := 0;
    total := start;
    while minor < n
      invariant 0 <= minor <= n
      invariant total == start + StripScore(g, d, major, minor)
    {
      var window := Cells(g, AnchorAt(d, major, minor));
      total := total + EvaluateWindow(window, AI);
      minor := minor + 1;
    }
  }

  /** One loop nest of check_winner: is some window of direction `d` four of `piece`? */
  method HasFourInDirection(g: Grid, d: Direction, piece: Piece) returns (found: bool)
    requires Rect(g)
    ensures found <==> exists a :: ValidAnchor(a, |g|, Width(g)) && a.dir == d && Count(Cells(g, a), piece) == 4
  {
    var row := RowLow(d);
    while row < RowHigh(d, |g|)
      invariant RowLow(d) <= row <= RowHigh(d, |g|)
      invariant NoFourBefore(g, piece, d, row, 0)
    {
      var col := 0;
      while col < ColCount(d, Width(g))
        invariant 0 <= col <= ColCount(d, Width(g))
        invariant NoFourBefore(g, piece, d, row, col)
      {
        var a := Anchor(d, row, col);
        var window := Cells(g, a);
        if Count(window, piece) == 4 {
          return true;
        }
        NoFourNextColumn(g, piece, d, row, col);
        col := col + 1;
      }
      NoFourNextRow(g, piece, d, row);
      row := row + 1;
    }
    NoFourDone(g, piece, d);
    return false;
  }

  /** One direction of evaluate_position: the AI's score of its windows, in connect_four.py's loop order. */
  method SumWindows(g: Grid, d: Direction) returns (total: int)
    requires Rect(g)
    ensures AnchorsOn(g, DirectionWindows(d, |g|, Width(g)))
    ensures total == WindowScore(g, DirectionWindows(d, |g|, Width(g)))
  {
    var lo, hi := MajorLow(d), MajorHigh(d, |g|, Width(g));
    var major := lo;
    total := 0;
    while major < hi
      invariant lo <= major <= hi
      invariant total == BlockScore(g, d, major)
    {
      total := SumStrip(g, d, major, total);
      major := major + 1;
    }
    BlockScoreIs(g, d, hi);
  }

  class ConnectFour {
    const rows: int
    const columns: int
    const difficulty: int
    const initialPlayer: string
    const searchDepth: nat
    var board: Grid
    var nodesExplored: nat

    /** The validated construction parameters and the search depth taken from the difficulty; all are constants. */
    ghost predicate Configured() {
      && ValidateParameters(rows, columns, difficulty, initialPlayer).None?
      && searchDepth == DepthMap[difficulty]
    }

    /** The class invariant: a rows x columns board whose columns fill from the bottom. */
    ghost predicate Valid()
      reads this
    {
      && |board| == rows && Rect(board) && Width(board) == columns
      && Gravity(board)
    }

    /** `__init__` after validation: an empty rows x columns board, search depth from the difficulty. */
    constructor(rows: int, columns: int, difficulty: int, initialPlayer: string)
      requires ValidateParameters(rows, columns, difficulty, initialPlayer).None?
      ensures Configured() && Valid()
      ensures this.rows == rows && this.columns == columns
      ensures this.difficulty == difficulty && this.initialPlayer == initialPlayer
      ensures searchDepth == DepthMap[difficulty] && searchDepth in {2, 4, 6}
      ensures board == EmptyGrid(rows, columns)
      ensures nodesExplored == 0
    {
      this.rows := rows;
      this.columns := columns;
      this.difficulty := difficulty;
      this.initialPlayer := initialPlayer;
      searchDepth := DepthMap[difficulty];
      board := EmptyGrid(rows, columns);
      nodesExplored := 0;
    }

    /** `ConnectFour(rows, columns, difficulty, initial_player)`: a new game, or the ValueError of validation. */
    static method Create(rows: int, columns: int, difficulty: int, initialPlayer: string)
      returns (r: Result<ConnectFour, ParameterError>)
      ensures r.Failure? <==> ValidateParameters(rows, columns, difficulty, initialPlayer).Some?
      ensures r.Failure? ==> r.error == ValidateParameters(rows, columns, difficulty, initialPlayer).value
      ensures r.Success? ==> fresh(r.value) && r.value.Configured() && r.value.Valid()
      ensures r.Success? ==> r.value.rows == rows && r.value.columns == columns
      ensures r.Success? ==> r.value.difficulty == difficulty && r.value.initialPlayer == initialPlayer
      ensures r.Success? ==> r.value.board == EmptyGrid(rows, columns) && r.value.nodesExplored == 0
      ensures r.Success? ==> r.value.searchDepth == DepthMap[difficulty]
    {
      var err := ValidateParameters(rows, columns, difficulty, initialPlayer);
      if err.Some? {
        return Failure(err.value);
      }
      var game := new ConnectFour(rows, columns, difficulty, initialPlayer);
      return Success(game);
    }

    /**
     * drop_piece(col, piece): on a valid column, the piece lands in the lowest empty cell and its
     * (row, col) is returned; otherwise InvalidMove and the board is unchanged.
     */
    method DropPiece(col: int, piece: Piece) returns (r: Result<(int, int), MoveError>)
      requires Valid()
      modifies this
      ensures Valid()
      ensures r.Success? <==> old(ValidMove(board, col))
      ensures r.Success? ==> r.value == (DropRow(old(board), col), col) && board == Drop(old(board), col, piece)
      ensures r.Failure? ==> r.error == InvalidMove && board == old(board)
      ensures nodesExplored == old(nodesExplored)
    {
      if !ValidMove(board, col) {
        return Failure(InvalidMove);
      }
      var row := rows - 1;
      while board[row][col] != Empty
        invariant 0 <= row < rows
        invariant forall k :: row < k < rows ==> Occupied(board, k, col)
        decreases row
      {
        row := row - 1;
      }
      assert !Occupied(board, row, col) && !Occupied(board, DropRow(board, col), col);
      DropKeepsGravity(board, col, piece);
      board := Place(board, row, col, piece);
      return Success((row, col));
    }

    /** check_winner(piece): true exactly when some window is four of `piece`. */
    method CheckWinner(piece: Piece) returns (won: bool)
      requires Valid()
      ensures won == HasFour(board, piece)
    {
      won := HasFourInDirection(board, Horizontal, piece);
      if won {
        return;
      }
      won := HasFourInDirection(board, Vertical, piece);
      if won {
        return;
      }
      won := HasFourInDirection(board, DiagonalDown, piece);
      if won {
        return;
      }
      won := HasFourInDirection(board, DiagonalUp, piece);
    }

    /** evaluate_position(): 3 per AI piece in the centre column plus the AI's score of every window. */
    method EvaluatePosition() returns (score: int)
      requires Valid()
      ensures score == PositionScore(board)
    {
      var centerArray := Column(board, columns / 2);
      score := Count(centerArray, AI) * 3;
      var horizontal := SumWindows(board, Horizontal);
      var vertical := SumWindows(board, Vertical);
      var diagonalDown := SumWindows(board, DiagonalDown);
      var diagonalUp := SumWindows(board, DiagonalUp);
      score := score + horizontal + vertical + diagonalDown + diagonalUp;
      var h := DirectionWindows(Horizontal, rows, columns);
      var v := DirectionWindows(Vertical, rows, columns);
      var dd := DirectionWindows(DiagonalDown, rows, columns);
      var du := DirectionWindows(DiagonalUp, rows, columns);
      WindowScoreAppend(board, h, v);
      WindowScoreAppend(board, h + v, dd);
      WindowScoreAppend(board, h + v + dd, du);
    }

    /**
     * minimax(depth, alpha, beta, maximizing_player): counts one node, tests the terminal cases,
     * and otherwise tries every valid column in ascending order, dropping, searching and undoing.
     * It returns what the pruned search `AlphaBeta` computes, adds the nodes it visited, and leaves
     * the board as it found it.
     */
    method Minimax(depth: nat, alpha: Score, beta: Score, maximizing: bool) returns (value: Score, column: Option<int>)
      requires Valid()
      modifies this
      ensures Valid() && board == old(board)
      ensures var r := AlphaBeta(board, depth, alpha, beta, maximizing);
        && value == r.value && column == r.column
        && nodesExplored == old(nodesExplored) + r.nodes
      decreases depth, 2
    {
      nodesExplored := nodesExplored + 1;
      var validMoves := ValidMoves(board);
      var aiWins := CheckWinner(AI);
      if aiWins {
        return PosInf, None;
      }
      var playerWins := CheckWinner(Player);
      if playerWins {
        return NegInf, None;
      }
      if validMoves == [] {
        return Fin(0), None;
      }
      if depth == 0 {
        var score := EvaluatePosition();
        return Fin(score), None;
      }
      var best;
      if maximizing {
        value, best := MaximizeOver(depth, alpha, beta, validMoves);
      } else {
        value, best := MinimizeOver(depth, alpha, beta, validMoves);
      }
      column := Some(best);
    }

    /**
     * The maximising loop of minimax: tries the valid columns in ascending order, keeps the first
     * strictly highest score, raises alpha to it, and stops once alpha >= beta. It computes `Scan`
     * from the loop's initial state, whose node count 1 is the node minimax counted.
     */
    method MaximizeOver(depth: nat, alpha: Score, beta: Score, validMoves: seq<int>) returns (value: Score, column: int)
      requires Valid() && depth > 0 && validMoves == ValidMoves(board) && validMoves != []
      modifies this
      ensures Valid() && board == old(board)
      ensures var r := Scan(board, depth - 1, validMoves, 0, StartState(alpha, beta, true, validMoves[0]), true);
        && value == r.value && r.column == Some(column)
        && nodesExplored + 1 == old(nodesExplored) + r.nodes
      decreases depth, 0
    {
      ghost var g := board;
      ghost var start := nodesExplored;
      ghost var result := Scan(g, depth - 1, validMoves, 0, StartState(alpha, beta, true, validMoves[0]), true);
      value := NegInf;
      column := validMoves[0];
      var a := alpha;
      var i := 0;
      while i < |validMoves|
        invariant 0 <= i <= |validMoves|
        invariant Valid() && board == g
        invariant nodesExplored >= start
        invariant Scan(g, depth - 1, validMoves, i, LoopState(a, beta, value, column, 1 + nodesExplored - start), true) == result
        decreases |validMoves| - i
      {
        var col := validMoves[i];
        ghost var next := ScanStep(g, depth - 1, validMoves, i, LoopState(a, beta, value, column, 1 + nodesExplored - start), true);
        var newScore := SearchChild(col, depth - 1, a, beta, true);
        if value.Lt(newScore) {
          value := newScore;
          column := col;
        }
        a := Max(a, value);
        if beta.Le(a) {
          break;
        }
        i := i + 1;
      }
    }

    /** The minimising loop of minimax, the mirror image of `MaximizeOver`: lowers beta, keeps the first strictly lowest score. */
    method MinimizeOver(depth: nat, alpha: Score, beta: Score, validMoves: seq<int>) returns (value: Score, column: int)
      requires Valid() && depth > 0 && validMoves == ValidMoves(board) && validMoves != []
      modifies this
      ensures Valid() && board == old(board)
      ensures var r := Scan(board, depth - 1, validMoves, 0, StartState(alpha, beta, false, validMoves[0]), false);
        && value == r.value && r.column == Some(column)
        && nodesExplored + 1 == old(nodesExplored) + r.nodes
      decreases depth, 0
    {
      ghost var g := board;
      ghost var start := nodesExplored;
      ghost var result := Scan(g, depth - 1, validMoves, 0, StartState(alpha, beta, false, validMoves[0]), false);
      value := PosInf;
      column := validMoves[0];
      var b := beta;
      var i := 0;
      while i < |validMoves|
        invariant 0 <= i <= |validMoves|
        invariant Valid() && board == g
        invariant nodesExplored >= start
        invariant Scan(g, depth - 1, validMoves, i, LoopState(alpha, b, value, column, 1 + nodesExplored - start), false) == result
        decreases |validMoves| - i
      {
        var col := validMoves[i];
        ghost var next := ScanStep(g, depth - 1, validMoves, i, LoopState(alpha, b, value, column, 1 + nodesExplored - start), false);
        var newScore := SearchChild(col, depth - 1, alpha, b, false);
        if newScore.Lt(value) {
          value := newScore;
          column := col;
        }
        b := Min(b, value);
        if b.Le(alpha) {
          break;
        }
        i := i + 1;
      }
    }

    /** One iteration of minimax's loop: drop a piece in `col`, search the child position, and undo the move. */
    method SearchChild(col: int, depth: nat, alpha: Score, beta: Score, maximizing: bool) returns (score: Score)
      requires Valid() && ValidMove(board, col)
      modifies this
      ensures Valid() && board == old(board)
      ensures var r := ChildSearch(old(board), depth, col, alpha, beta, maximizing);
        score == r.value && nodesExplored == old(nodesExplored) + r.nodes
      decreases depth, 3
    {
      ghost var g := board;
      var dropped := DropPiece(col, Mover(maximizing));
      var row := dropped.value.0;
      var childColumn;
      score, childColumn := Minimax(depth, alpha, beta, !maximizing);
      UndoDrop(g, col, Mover(maximizing));
      board := Place(board, row, col, Empty);
    }

    /**
     * get_ai_move(): resets the node counter and searches search_depth plies for the AI from the full
     * window. A column from the search is returned with the nodes visited; when the search returns
     * none (a side has already won), the first valid column with 0 nodes; with no valid column,
     * NoValidMoves.
     */
    method GetAiMove() returns (r: Result<AiMove, SearchError>)
      requires Valid()
      modifies this
      ensures Valid() && board == old(board)
      ensures r.Failure? <==> ValidMoves(board) == []
      ensures r.Success? ==> ValidMove(board, r.value.column)
      ensures var s := AlphaBeta(board, searchDepth, NegInf, PosInf, true);
        && nodesExplored == s.nodes
        && (s.column.Some? ==> r == Success(AiMove(s.column.value, s.nodes)))
        && (s.column.None? && ValidMoves(board) != [] ==> r == Success(AiMove(ValidMoves(board)[0], 0)))
      ensures r.Success? && !Terminal(board, searchDepth) ==> FirstBest(board, searchDepth, true, r.value.column)
    {
      nodesExplored := 0;
      var _, column := Minimax(searchDepth, NegInf, PosInf, true);
      if !Terminal(board, searchDepth) {
        RootSearch(board, searchDepth, true);
      }
      if column.Some? {
        return Success(AiMove(column.value, nodesExplored));
      }
      var validMoves := ValidMoves(board);
      if validMoves == [] {
        return Failure(NoValidMoves);
      }
      return Success(AiMove(validMoves[0], 0));
    }

    /**
     * suggest_move(): resets the node counter and searches 2 plies for the human (minimising) from the
     * full window; the column found if it is a valid move, else the first valid column, else NoValidMoves.
     */
    method SuggestMove() returns (r: Result<int, SearchError>)
      requires Valid()
      modifies this
      ensures Valid() && board == old(board)
      ensures r.Failure? <==> ValidMoves(board) == []
      ensures r.Success? ==> ValidMove(board, r.value)
      ensures var s := AlphaBeta(board, 2, NegInf, PosInf, false);
        && nodesExplored == s.nodes
        && (s.column.Some? ==> r == Success(s.column.value))
        && (s.column.None? && ValidMoves(board) != [] ==> r == Success(ValidMoves(board)[0]))
      ensures r.Success? && !Terminal(board, 2) ==> FirstBest(board, 2, false, r.value)
    {
      nodesExplored := 0;
      var _, column := Minimax(2, NegInf, PosInf, false);
      if !Terminal(board, 2) {
        RootSearch(board, 2, false);
      }
      if column.None? || !ValidMove(board, column.value) {
        var validMoves := ValidMoves(board);
        if validMoves == [] {
          return Failure(NoValidMoves);
        }
        return Success(validMoves[0]);
      }
      return Success(column.value);
    }
  }

  lemma NoFourNextColumn(g: Grid, piece: Piece, d: Direction, row: int, col: int)
    requires Rect(g) && RowLow(d) <= row < RowHigh(d, |g|) && 0 <= col < ColCount(d, Width(g))
    requires NoFourBefore(g, piece, d, row, col)
    requires Count(Cells(g, Anchor(d, row, col)), piece) != 4
    ensures NoFourBefore(g, piece, d, row, col + 1)
  {
  }

  lemma NoFourNextRow(g: Grid, piece: Piece, d: Direction, row: int)
    requires Rect(g) && NoFourBefore(g, piece, d, row, ColCount(d, Width(g)))
    ensures NoFourBefore(g, piece, d, row + 1, 0)
  {
  }

  lemma NoFourDone(g: Grid, piece: Piece, d: Direction)
    requires Rect(g) && NoFourBefore(g, piece, d, RowHigh(d, |g|), 0)
    ensures !exists a :: ValidAnchor(a, |g|, Width(g)) && a.dir == d && Count(Cells(g, a), piece) == 4
  {
  }

  /** The AI's score of the first `m` windows of outer index `major` of direction `d`. */
  ghost function StripScore(g: Grid, d: Direction, major: int, m: int): int
    requires Rect(g) && MajorLow(d) <= major < MajorHigh(d, |g|, Width(g))
    requires 0 <= m <= MinorCount(d, |g|, Width(g))
    decreases m
  {
    if m == 0 then 0 else StripScore(g, d, major, m - 1) + EvaluateWindow(Cells(g, AnchorAt(d, major, m - 1)), AI)
  }

  /** The AI's score of the windows of direction `d` whose outer index is below `major`. */
  ghost function BlockScore(g: Grid, d: Direction, major: int): int
    requires Rect(g) && MajorLow(d) <= major <= MajorHigh(d, |g|, Width(g))
    decreases major
  {
    if major == MajorLow(d) then 0
    else BlockScore(g, d, major - 1) + StripScore(g, d, major - 1, MinorCount(d, |g|, Width(g)))
  }

  lemma {:induction false} StripScoreIs(g: Grid, d: Direction, major: int, m: int)
    requires Rect(g) && MajorLow(d) <= major < MajorHigh(d, |g|, Width(g))
    requires 0 <= m <= MinorCount(d, |g|, Width(g))
    ensures AnchorsOn(g, Strip(d, major, m))
    ensures WindowScore(g, Strip(d, major, m)) == StripScore(g, d, major, m)
    decreases m
  {
    if m > 0 {
      var ws, a := Strip(d, major, m - 1), AnchorAt(d, major, m - 1);
      assert Strip(d, major, m) == ws + [a];
      StripScoreIs(g, d, major, m - 1);
      WindowScoreSnoc(g, ws, a);
    }
  }

  /** The loop nest's running total is the model's score of the windows it has visited. */
  lemma {:induction false} BlockScoreIs(g: Grid, d: Direction, major: int)
    requires Rect(g) && MajorLow(d) <= major <= MajorHigh(d, |g|, Width(g))
    ensures AnchorsOn(g, Block(d, MajorLow(d), major, MinorCount(d, |g|, Width(g))))
    ensures WindowScore(g, Block(d, MajorLow(d), major, MinorCount(d, |g|, Width(g)))) == BlockScore(g, d, major)
    decreases major
  {
    if major > MajorLow(d) {
      BlockScoreIs(g, d, major - 1);
      BlockScoreStep(g, d, major);
    }
  }

  /** One more outer index: the windows of strip `major - 1` are appended and their score added. */
  lemma BlockScoreStep(g: Grid, d: Direction, major: int)
    requires Rect(g) && MajorLow(d) < major <= MajorHigh(d, |g|, Width(g))
    requires AnchorsOn(g, Block(d, MajorLow(d), major - 1, MinorCount(d, |g|, Width(g))))
    requires WindowScore(g, Block(d, MajorLow(d), major - 1, MinorCount(d, |g|, Width(g)))) == BlockScore(g, d, major - 1)
    ensures AnchorsOn(g, Block(d, MajorLow(d), major, MinorCount(d, |g|, Width(g))))
    ensures WindowScore(g, Block(d, MajorLow(d), major, MinorCount(d, |g|, Width(g)))) == BlockScore(g, d, major)
  {
    AppendStrip(g, d, MajorLow(d), major, MinorCount(d, |g|, Width(g)));
  }

  /** Appending the strip of outer index `major - 1` to a block adds the strip's score. */
  lemma AppendStrip(g: Grid, d: Direction, lo: int, major: int, n: int)
    requires Rect(g) && MajorLow(d) == lo < major <= MajorHigh(d, |g|, Width(g)) && n == MinorCount(d, |g|, Width(g))
    requires AnchorsOn(g, Block(d, lo, major - 1, n))
    ensures AnchorsOn(g, Block(d, lo, major, n))
    ensures WindowScore(g, Block(d, lo, major, n)) == WindowScore(g, Block(d, lo, major - 1, n)) + StripScore(g, d, major - 1, n)
  {
    var xs, ys := Block(d, lo, major - 1, n), Strip(d, major - 1, n);
    StripScoreIs(g, d, major - 1, n);
    WindowScoreAppend(g, xs, ys);
  }
}
