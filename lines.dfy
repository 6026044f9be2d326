/**
 * The 4-cell windows of a board and the win test `check_winner`.
 *
 * A window is named by an anchor: a direction and the (row, col) of its first
 * cell. Horizontal windows run (row, col+i), vertical ones (row+i, col), the
 * "positive" diagonal (row+i, col+i) and the "negative" one (row-i, col+i),
 * for i in 0..3, exactly as the loops of check_winner and evaluate_position.
 */
module Lines {
  import opened Grids

  datatype Direction = Horizontal | Vertical | DiagonalDown | DiagonalUp

  datatype Anchor = Anchor(dir: Direction, row: int, col: int)

  /** The loop index that runs outermost in evaluate_position: the column for vertical windows, the row otherwise. */
  function Major(a: Anchor): int {
    if a.dir == Vertical then a.col else a.row
  }

  /** The loop index that runs innermost in evaluate_position. */
  function Minor(a: Anchor): int {
    if a.dir == Vertical then a.row else a.col
  }

  /** First outer index: `range(3, ROWS)` for the negative diagonal, 0 otherwise. */
  function MajorLow(d: Direction): int {
    if d == DiagonalUp then 3 else 0
  }

  /** End of the outer range for a rows x columns board. */
  function MajorHigh(d: Direction, rows: int, columns: int): int {
    match d
    case Horizontal => rows
    case Vertical => columns
    case DiagonalDown => rows - 3
    case DiagonalUp => rows
  }

  /** Length of the inner range: `ROWS - 3` for vertical windows, `COLUMNS - 3` otherwise. */
  function MinorCount(d: Direction, rows: int, columns: int): int {
    if d == Vertical then rows - 3 else columns - 3
  }

  /** The anchors the four loops visit. */
  predicate ValidAnchor(a: Anchor, rows: int, columns: int) {
    && MajorLow(a.dir) <= Major(a) < MajorHigh(a.dir, rows, columns)
    && 0 <= Minor(a) < MinorCount(a.dir, rows, columns)
  }

  /** Cell i (0 to 3) of a window: one step of its direction per i from the anchor. */
  function CellAt(g: Grid, a: Anchor, i: int): Cell
    requires Rect(g) && ValidAnchor(a, |g|, Width(g)) && 0 <= i < 4
  {
    match a.dir
    case Horizontal => g[a.row][a.col + i]
    case Vertical => g[a.row + i][a.col]
    case DiagonalDown => g[a.row + i][a.col + i]
    case DiagonalUp => g[a.row - i][a.col + i]
  }

  /** The four cells of a window, first cell first. */
  function Cells(g: Grid, a: Anchor): (w: seq<Cell>)
    requires Rect(g) && ValidAnchor(a, |g|, Width(g))
    ensures |w| == 4
  {
    seq(4, i requires 0 <= i < 4 => CellAt(g, a, i))
  }

  /** `window.count(x)`, and `len([y for y in window if y == x])`. */
  function Count(w: seq<Cell>, x: Cell): (n: nat)
    ensures n <= |w|
    decreases |w|
  {
    if w == [] then 0 else (if w[0] == x then 1 else 0) + Count(w[1..], x)
  }

  /** The count is the length exactly when every cell is `x`, and 0 exactly when none is. */
  lemma {:induction false} CountExtremes(w: seq<Cell>, x: Cell)
    ensures Count(w, x) == |w| <==> forall i :: 0 <= i < |w| ==> w[i] == x
    ensures Count(w, x) == 0 <==> forall i :: 0 <= i < |w| ==> w[i] != x
    decreases |w|
  {
    if w != [] {
      CountExtremes(w[1..], x);
      assert forall i :: 1 <= i < |w| ==> w[i] == w[1..][i - 1];
    }
  }

  /** Every cell holds one of the three values, so their counts add up to the length. */
  lemma {:induction false} CountsPartition(w: seq<Cell>)
    ensures Count(w, Player) + Count(w, AI) + Count(w, Empty) == |w|
    decreases |w|
  {
    if w != [] {
      CountsPartition(w[1..]);
    }
  }

  /** check_winner(piece): some window holds `piece` in all four cells. */
  ghost predicate HasFour(g: Grid, piece: Piece)
    requires Rect(g)
  {
    exists a :: ValidAnchor(a, |g|, Width(g)) && Count(Cells(g, a), piece) == 4
  }

  /** The window at (major, minor) of a direction. */
  function AnchorAt(d: Direction, major: int, minor: int): (a: Anchor)
    ensures a.dir == d && Major(a) == major && Minor(a) == minor
  {
    if d == Vertical then Anchor(d, minor, major) else Anchor(d, major, minor)
  }

  /** The windows of one outer index, inner index 0 to n-1 in order. */
  function Strip(d: Direction, major: int, n: int): (s: seq<Anchor>)
    ensures |s| == if n <= 0 then 0 else n
    decreases n
  {
    if n <= 0 then [] else Strip(d, major, n - 1) + [AnchorAt(d, major, n - 1)]
  }

  lemma {:induction false} StripMembers(d: Direction, major: int, n: int)
    ensures forall a :: a in Strip(d, major, n) <==> a.dir == d && Major(a) == major && 0 <= Minor(a) < n
    decreases n
  {
    if n > 0 {
      StripMembers(d, major, n - 1);
    }
  }

  /** The windows of outer indices lo to hi-1, each with inner indices 0 to n-1. */
  function Block(d: Direction, lo: int, hi: int, n: int): (s: seq<Anchor>)
    requires lo <= hi && 0 <= n
    decreases hi - lo
  {
    if hi == lo then [] else Block(d, lo, hi - 1, n) + Strip(d, hi - 1, n)
  }

  lemma {:induction false} BlockLength(d: Direction, lo: int, hi: int, n: int)
    requires lo <= hi && 0 <= n
    ensures |Block(d, lo, hi, n)| == (hi - lo) * n
    decreases hi - lo
  {
    if hi > lo {
      BlockLength(d, lo, hi - 1, n);
    }
  }

  lemma {:induction false} BlockMembers(d: Direction, lo: int, hi: int, n: int)
    requires lo <= hi && 0 <= n
    ensures forall a :: a in Block(d, lo, hi, n) <==> a.dir == d && lo <= Major(a) < hi && 0 <= Minor(a) < n
    decreases hi - lo
  {
    if hi > lo {
      BlockMembers(d, lo, hi - 1, n);
      StripMembers(d, hi - 1, n);
    }
  }

  /** The windows of one direction on a rows x columns board, in evaluate_position's order. */
  function DirectionWindows(d: Direction, rows: int, columns: int): (s: seq<Anchor>)
    requires rows >= 3 && columns >= 3
  {
    Block(d, MajorLow(d), MajorHigh(d, rows, columns), MinorCount(d, rows, columns))
  }

  /** Every window evaluate_position scores, in its order: horizontal, vertical, and the two diagonals. */
  function Windows(rows: int, columns: int): (s: seq<Anchor>)
    requires rows >= 3 && columns >= 3
    ensures |s| == |DirectionWindows(Horizontal, rows, columns)| + |DirectionWindows(Vertical, rows, columns)|
      + |DirectionWindows(DiagonalDown, rows, columns)| + |DirectionWindows(DiagonalUp, rows, columns)|
  {
    DirectionWindows(Horizontal, rows, columns) + DirectionWindows(Vertical, rows, columns)
      + DirectionWindows(DiagonalDown, rows, columns) + DirectionWindows(DiagonalUp, rows, columns)
  }

  /** The windows are exactly the anchors the four loops visit: each window is on the board and none is missed. */
  lemma WindowsMembers(rows: int, columns: int)
    requires rows >= 3 && columns >= 3
    ensures forall a :: a in Windows(rows, columns) <==> ValidAnchor(a, rows, columns)
  {
    BlockMembers(Horizontal, MajorLow(Horizontal), MajorHigh(Horizontal, rows, columns), MinorCount(Horizontal, rows, columns));
    BlockMembers(Vertical, MajorLow(Vertical), MajorHigh(Vertical, rows, columns), MinorCount(Vertical, rows, columns));
    BlockMembers(DiagonalDown, MajorLow(DiagonalDown), MajorHigh(DiagonalDown, rows, columns), MinorCount(DiagonalDown, rows, columns));
    BlockMembers(DiagonalUp, MajorLow(DiagonalUp), MajorHigh(DiagonalUp, rows, columns), MinorCount(DiagonalUp, rows, columns));
  }

  lemma DirectionCount(d: Direction, rows: int, columns: int)
    requires rows >= 3 && columns >= 3
    ensures |DirectionWindows(d, rows, columns)| == (MajorHigh(d, rows, columns) - MajorLow(d)) * MinorCount(d, rows, columns)
  {
    BlockLength(d, MajorLow(d), MajorHigh(d, rows, columns), MinorCount(d, rows, columns));
  }

  /** The window count R(C-3) + C(R-3) + 2(R-3)(C-3). */
  lemma WindowCount(rows: int, columns: int)
    requires rows >= 3 && columns >= 3
    ensures |Windows(rows, columns)| == rows * (columns - 3) + columns * (rows - 3) + 2 * (rows - 3) * (columns - 3)
  {
    var h := |DirectionWindows(Horizontal, rows, columns)|;
    var v := |DirectionWindows(Vertical, rows, columns)|;
    var dd := |DirectionWindows(DiagonalDown, rows, columns)|;
    var du := |DirectionWindows(DiagonalUp, rows, columns)|;
    assert h == rows * (columns - 3) by { DirectionCount(Horizontal, rows, columns); }
    assert v == columns * (rows - 3) by { DirectionCount(Vertical, rows, columns); }
    assert dd == (rows - 3) * (columns - 3) by { DirectionCount(DiagonalDown, rows, columns); }
    assert du == (rows - 3) * (columns - 3) by { DirectionCount(DiagonalUp, rows, columns); }
    Twice(rows - 3, columns - 3);
  }

  lemma Twice(x: int, y: int)
    ensures 2 * x * y == x * y + x * y
  {
  }
}
