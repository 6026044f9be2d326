/**
 * The heuristic evaluator of connect_four.py: `evaluate_window`, which scores
 * one 4-cell window for a side, and `evaluate_position`, which scores the
 * whole board from the AI's point of view.
 */
module Evaluation {
  import opened Grids
  import opened Lines

  /**
   * evaluate_window(window, piece): 100 for four own pieces, 5 for three and an
   * empty cell, 2 for two and two empty cells, and then 4 less when the
   * opponent holds three cells and the fourth is empty.
   */
  function EvaluateWindow(w: seq<Cell>, piece: Piece): (score: int)
    requires |w| == 4
    ensures -4 <= score <= 100
  {
    var oppPiece := Opponent(piece);
    var pieceCount := Count(w, piece);
    var emptyCount := Count(w, Empty);
    var oppCount := Count(w, oppPiece);
    var own :=
      if pieceCount == 4 then 100
      else if pieceCount == 3 && emptyCount == 1 then 5
      else if pieceCount == 2 && emptyCount == 2 then 2
      else 0;
    if oppCount == 3 && emptyCount == 1 then own - 4 else own
  }

  /**
   * The five possible scores and the window contents that give each: since a window has four
   * cells, the opponent's bonus penalty never combines with a bonus of one's own.
   */
  lemma EvaluateWindowCases(w: seq<Cell>, piece: Piece)
    requires |w| == 4
    ensures EvaluateWindow(w, piece) in {100, 5, 2, 0, -4}
    ensures EvaluateWindow(w, piece) == 100 <==> Count(w, piece) == 4
    ensures EvaluateWindow(w, piece) == 5 <==> Count(w, piece) == 3 && Count(w, Empty) == 1
    ensures EvaluateWindow(w, piece) == 2 <==> Count(w, piece) == 2 && Count(w, Empty) == 2
    ensures EvaluateWindow(w, piece) == -4 <==> Count(w, Opponent(piece)) == 3 && Count(w, Empty) == 1
  {
    CountsPartition(w);
  }

  /** A window holding pieces of both sides scores nothing. */
  lemma MixedWindowScoresZero(w: seq<Cell>, piece: Piece)
    requires |w| == 4 && Count(w, piece) > 0 && Count(w, Opponent(piece)) > 0
    ensures EvaluateWindow(w, piece) == 0
  {
    CountsPartition(w);
  }

  /** Exchanges the two sides' pieces. */
  function SwapCell(x: Cell): (y: Cell)
    ensures x == Empty <==> y == Empty
    ensures x != Empty ==> y == Opponent(x)
  {
    match x
    case Empty => Empty
    case Player => AI
    case AI => Player
  }

  /** The window with every PLAYER piece replaced by an AI piece and back. */
  function Swap(w: seq<Cell>): (v: seq<Cell>)
    ensures |v| == |w|
    decreases |w|
  {
    if w == [] then [] else [SwapCell(w[0])] + Swap(w[1..])
  }

  lemma {:induction false} CountSwap(w: seq<Cell>, x: Cell)
    ensures Count(Swap(w), SwapCell(x)) == Count(w, x)
    decreases |w|
  {
    if w != [] {
      CountSwap(w[1..], x);
      assert Swap(w)[1..] == Swap(w[1..]);
    }
  }

  /** The scoring rules for the two sides are mirror images: swapping the pieces and the side gives the same score. */
  lemma EvaluateWindowSymmetric(w: seq<Cell>, piece: Piece)
    requires |w| == 4
    ensures EvaluateWindow(Swap(w), Opponent(piece)) == EvaluateWindow(w, piece)
  {
    CountSwap(w, piece);
    CountSwap(w, Opponent(piece));
    CountSwap(w, Empty);
  }

  predicate AnchorsOn(g: Grid, ws: seq<Anchor>)
    requires Rect(g)
  {
    forall k :: 0 <= k < |ws| ==> ValidAnchor(ws[k], |g|, Width(g))
  }

  /** The sum of evaluate_window(window, AI) over a list of windows. */
  function WindowScore(g: Grid, ws: seq<Anchor>): (total: int)
    requires Rect(g) && AnchorsOn(g, ws)
    decreases |ws|
  {
    if ws == [] then 0
    else WindowScore(g, ws[..|ws| - 1]) + EvaluateWindow(Cells(g, ws[|ws| - 1]), AI)
  }

  /** Each window scores between -4 and 100, so a list of n windows between -4n and 100n. */
  lemma {:induction false} WindowScoreBounds(g: Grid, ws: seq<Anchor>)
    requires Rect(g) && AnchorsOn(g, ws)
    ensures -4 * |ws| <= WindowScore(g, ws) <= 100 * |ws|
    decreases |ws|
  {
    if ws != [] {
      WindowScoreBounds(g, ws[..|ws| - 1]);
    }
  }

  lemma {:induction false} WindowScoreAppend(g: Grid, xs: seq<Anchor>, ys: seq<Anchor>)
    requires Rect(g) && AnchorsOn(g, xs) && AnchorsOn(g, ys)
    ensures AnchorsOn(g, xs + ys)
    ensures WindowScore(g, xs + ys) == WindowScore(g, xs) + WindowScore(g, ys)
    decreases |ys|
  {
    if ys == [] {
      assert xs + ys == xs;
    } else {
      var ys' := ys[..|ys| - 1];
      assert (xs + ys)[..|xs + ys| - 1] == xs + ys';
      assert (xs + ys)[|xs + ys| - 1] == ys[|ys| - 1];
      WindowScoreAppend(g, xs, ys');
    }
  }

  /** Scoring one more window adds its score. */
  lemma WindowScoreSnoc(g: Grid, ws: seq<Anchor>, a: Anchor)
    requires Rect(g) && AnchorsOn(g, ws) && ValidAnchor(a, |g|, Width(g))
    ensures AnchorsOn(g, ws + [a])
    ensures WindowScore(g, ws + [a]) == WindowScore(g, ws) + EvaluateWindow(Cells(g, a), AI)
  {
    assert (ws + [a])[..|ws|] == ws;
  }

  /** The cells of one column, top to bottom. */
  function Column(g: Grid, col: int): (cells: seq<Cell>)
    requires Rect(g) && 0 <= col < Width(g)
    ensures |cells| == |g|
    ensures forall r :: 0 <= r < |g| ==> cells[r] == g[r][col]
  {
    seq(|g|, r requires 0 <= r < |g| => g[r][col])
  }

  /** Every window of the board's list lies on the board. */
  lemma WindowsOn(g: Grid)
    requires Rect(g)
    ensures AnchorsOn(g, Windows(|g|, Width(g)))
  {
    var ws := Windows(|g|, Width(g));
    WindowsMembers(|g|, Width(g));
    forall k | 0 <= k < |ws| ensures ValidAnchor(ws[k], |g|, Width(g)) {
      assert ws[k] in ws;
    }
  }

  /** evaluate_position: 3 per AI piece in column COLUMNS // 2, plus the AI's score of every window. */
  function PositionScore(g: Grid): int
    requires Rect(g)
  {
    WindowsOn(g);
    Count(Column(g, Width(g) / 2), AI) * 3 + WindowScore(g, Windows(|g|, Width(g)))
  }

  /** The evaluation is bounded by the number of windows and rows. */
  lemma PositionScoreBounds(g: Grid)
    requires Rect(g)
    ensures var n := |Windows(|g|, Width(g))|;
      -4 * n <= PositionScore(g) <= 3 * |g| + 100 * n
  {
    WindowsOn(g);
    WindowScoreBounds(g, Windows(|g|, Width(g)));
  }

  lemma {:induction false} WindowScoreOfEmpty(g: Grid, ws: seq<Anchor>)
    requires Rect(g) && AnchorsOn(g, ws)
    requires forall r, c :: 0 <= r < |g| && 0 <= c < Width(g) ==> g[r][c] == Empty
    ensures WindowScore(g, ws) == 0
    decreases |ws|
  {
    if ws != [] {
      WindowScoreOfEmpty(g, ws[..|ws| - 1]);
      EmptyWindow(g, ws[|ws| - 1]);
    }
  }

  lemma EmptyWindow(g: Grid, a: Anchor)
    requires Rect(g) && ValidAnchor(a, |g|, Width(g))
    requires forall r, c :: 0 <= r < |g| && 0 <= c < Width(g) ==> g[r][c] == Empty
    ensures Count(Cells(g, a), Empty) == 4
  {
    var w := Cells(g, a);
    CountExtremes(w, Empty);
    match a.dir
    case Horizontal =>
      assert forall i :: 0 <= i < 4 ==> w[i] == g[a.row][a.col + i];
    case _ =>
  }

  /** The empty board evaluates to 0: no centre pieces and every window scores 0. */
  lemma EmptyBoardScoresZero(rows: int, columns: int)
    requires rows >= 4 && columns >= 4
    ensures PositionScore(EmptyGrid(rows, columns)) == 0
  {
    var g := EmptyGrid(rows, columns);
    WindowsOn(g);
    WindowScoreOfEmpty(g, Windows(rows, columns));
    CountExtremes(Column(g, columns / 2), AI);
  }
}
