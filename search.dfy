/**
 * The depth-limited search of `minimax` (connect_four.py), as pure functions:
 * `MinimaxValue` is plain minimax over the same move order and terminal tests,
 * `AlphaBeta` is the pruned search exactly as connect_four.py runs it (value,
 * chosen column and number of nodes visited). The lemmas prove the pruned
 * search sound against plain minimax and characterise the column it picks
 * from the root window (-inf, +inf).
 */
module Search {
  import opened Wrappers
  import opened Scores
  import opened Grids
  import opened Lines
  import opened Evaluation

  /** The piece the side to move drops: AI when maximising, PLAYER when minimising. */
  function Mover(maximizing: bool): Piece {
    if maximizing then AI else Player
  }

  /** The initial `value` of minimax's loop: -inf when maximising, +inf when minimising. */
  function WorstFor(maximizing: bool): Score {
    if maximizing then NegInf else PosInf
  }

  /** `a` is strictly better than `b` for the side to move. */
  predicate Better(maximizing: bool, a: Score, b: Score) {
    if maximizing then b.Lt(a) else a.Lt(b)
  }

  /** A node where minimax returns without searching: a win for either side, no valid move, or depth 0. */
  ghost predicate Terminal(g: Grid, depth: nat)
    requires Rect(g)
  {
    HasFour(g, AI) || HasFour(g, Player) || ValidMoves(g) == [] || depth == 0
  }

  /** The value of a terminal node, tested in connect_four.py's order. */
  ghost function LeafValue(g: Grid, depth: nat): Score
    requires Rect(g) && Terminal(g, depth)
  {
    if HasFour(g, AI) then PosInf
    else if HasFour(g, Player) then NegInf
    else if ValidMoves(g) == [] then Fin(0)
    else Fin(PositionScore(g))
  }

  /** Plain minimax: the value of a node searched to `depth` plies without pruning. */
  ghost function MinimaxValue(g: Grid, depth: nat, maximizing: bool): Score
    requires Rect(g)
    decreases depth, 1, 0
  {
    if Terminal(g, depth) then LeafValue(g, depth)
    else BestOf(g, depth - 1, ValidMoves(g), maximizing)
  }

  /** The minimax value of the position after the side to move drops in `col`. */
  ghost function ChildValue(g: Grid, d: nat, col: int, maximizing: bool): Score
    requires Rect(g) && ValidMove(g, col)
    decreases d + 1, 0, 0
  {
    MinimaxValue(Drop(g, col, Mover(maximizing)), d, !maximizing)
  }

  /** The best child value over `moves` for the side to move (the worst value when `moves` is empty). */
  ghost function BestOf(g: Grid, d: nat, moves: seq<int>, maximizing: bool): Score
    requires Rect(g) && AllValidMoves(g, moves)
    decreases d + 1, 0, |moves|
  {
    if moves == [] then WorstFor(maximizing)
    else
      var rest := BestOf(g, d, moves[..|moves| - 1], maximizing);
      var last := ChildValue(g, d, moves[|moves| - 1], maximizing);
      if maximizing then Max(rest, last) else Min(rest, last)
  }

  /** The result of one call of minimax: the value, the column (`None` at a terminal node) and the nodes it visited. */
  datatype SearchResult = SearchResult(value: Score, column: Option<int>, nodes: nat)

  /** The variables of minimax's loop over the valid moves, and the nodes visited so far in this call. */
  datatype LoopState = LoopState(alpha: Score, beta: Score, value: Score, column: int, nodes: nat)

  /** Before the first move: the worst value, the first valid column, and this node counted. */
  function StartState(alpha: Score, beta: Score, maximizing: bool, first: int): LoopState {
    LoopState(alpha, beta, WorstFor(maximizing), first, 1)
  }

  /**
   * One iteration after the search of column `col` returned `child`: value and column change only
   * on a strict improvement; then alpha rises (maximising) or beta falls (minimising) to the value.
   * So the loop's value never gets worse for the side to move and is at least as good as every
   * child seen, its column is the one whose score it keeps, the window only narrows, and every
   * child's nodes are counted.
   */
  function Advance(st: LoopState, col: int, child: SearchResult, maximizing: bool): (st': LoopState)
    ensures (st'.value, st'.column) == (st.value, st.column) || (st'.value, st'.column) == (child.value, col)
    ensures st'.nodes == st.nodes + child.nodes
    ensures maximizing ==> && st.value.Le(st'.value) && child.value.Le(st'.value)
                           && st.alpha.Le(st'.alpha) && st'.value.Le(st'.alpha) && st'.beta == st.beta
    ensures !maximizing ==> && st'.value.Le(st.value) && st'.value.Le(child.value)
                            && st'.beta.Le(st.beta) && st'.beta.Le(st'.value) && st'.alpha == st.alpha
  {
    var improves := Better(maximizing, child.value, st.value);
    var value := if improves then child.value else st.value;
    var column := if improves then col else st.column;
    if maximizing then LoopState(Max(st.alpha, value), st.beta, value, column, st.nodes + child.nodes)
    else LoopState(st.alpha, Min(st.beta, value), value, column, st.nodes + child.nodes)
  }

  /** The test `beta <= alpha` that ends the loop early. */
  predicate Cutoff(st: LoopState) {
    st.beta.Le(st.alpha)
  }

  /** What minimax returns when its loop ends. */
  function Finish(st: LoopState): SearchResult {
    SearchResult(st.value, Some(st.column), st.nodes)
  }

  /** minimax(depth, alpha, beta, maximizing) on board `g`, with alpha-beta pruning. */
  ghost function AlphaBeta(g: Grid, depth: nat, alpha: Score, beta: Score, maximizing: bool): SearchResult
    requires Rect(g)
    decreases depth, 1, 0
  {
    if Terminal(g, depth) then SearchResult(LeafValue(g, depth), None, 1)
    else
      var moves := ValidMoves(g);
      Scan(g, depth - 1, moves, 0, StartState(alpha, beta, maximizing, moves[0]), maximizing)
  }

  /** The recursive call of minimax's loop: search the position the side to move makes by dropping in `col`. */
  ghost function ChildSearch(g: Grid, d: nat, col: int, alpha: Score, beta: Score, maximizing: bool): SearchResult
    requires Rect(g) && ValidMove(g, col)
    decreases d + 1, 0, 0
  {
    AlphaBeta(Drop(g, col, Mover(maximizing)), d, alpha, beta, !maximizing)
  }

  /** The loop of minimax from index `i` of `moves` on, in state `st`. */
  ghost function Scan(g: Grid, d: nat, moves: seq<int>, i: nat, st: LoopState, maximizing: bool): SearchResult
    requires Rect(g) && AllValidMoves(g, moves) && i <= |moves|
    decreases d + 1, 0, |moves| - i
  {
    if i == |moves| then Finish(st)
    else
      var st' := Advance(st, moves[i], ChildSearch(g, d, moves[i], st.alpha, st.beta, maximizing), maximizing);
      if Cutoff(st') then Finish(st') else Scan(g, d, moves, i + 1, st', maximizing)
  }

  /** One step of `Scan`: the state after the column at index `i`, and what is left to do from it. */
  lemma ScanStep(g: Grid, d: nat, moves: seq<int>, i: nat, st: LoopState, maximizing: bool) returns (st': LoopState)
    requires Rect(g) && AllValidMoves(g, moves) && i < |moves|
    ensures st' == Advance(st, moves[i], ChildSearch(g, d, moves[i], st.alpha, st.beta, maximizing), maximizing)
    ensures Scan(g, d, moves, i, st, maximizing)
      == if Cutoff(st') then Finish(st') else Scan(g, d, moves, i + 1, st', maximizing)
  {
    st' := Advance(st, moves[i], ChildSearch(g, d, moves[i], st.alpha, st.beta, maximizing), maximizing);
  }

  /**
   * The loop always ends with a column: one of the moves, or the column it started from, so a valid
   * move whenever that one is; and it never loses a node already counted.
   */
  lemma {:induction false} ScanColumn(g: Grid, d: nat, moves: seq<int>, i: nat, st: LoopState, maximizing: bool)
    requires Rect(g) && AllValidMoves(g, moves) && i <= |moves| && ValidMove(g, st.column)
    ensures var r := Scan(g, d, moves, i, st, maximizing);
      r.column.Some? && ValidMove(g, r.column.value) && r.nodes >= st.nodes
    decreases |moves| - i
  {
    if i < |moves| {
      var st' := Advance(st, moves[i], ChildSearch(g, d, moves[i], st.alpha, st.beta, maximizing), maximizing);
      if !Cutoff(st') {
        ScanColumn(g, d, moves, i + 1, st', maximizing);
      }
    }
  }

  /**
   * minimax returns no column exactly at a terminal node, and otherwise a valid column; every call
   * counts at least its own node.
   */
  lemma AlphaBetaColumn(g: Grid, depth: nat, alpha: Score, beta: Score, maximizing: bool)
    requires Rect(g)
    ensures var r := AlphaBeta(g, depth, alpha, beta, maximizing);
      && r.nodes >= 1
      && (r.column.None? <==> Terminal(g, depth))
      && (r.column.Some? ==> ValidMove(g, r.column.value))
  {
    if !Terminal(g, depth) {
      var moves := ValidMoves(g);
      ScanColumn(g, depth - 1, moves, 0, StartState(alpha, beta, maximizing, moves[0]), maximizing);
    }
  }

  /** Every child value is bounded by the best of them. */
  lemma {:induction false} BestOfBound(g: Grid, d: nat, moves: seq<int>, maximizing: bool, k: int)
    requires Rect(g) && AllValidMoves(g, moves) && 0 <= k < |moves|
    ensures var best := BestOf(g, d, moves, maximizing);
      var child := ChildValue(g, d, moves[k], maximizing);
      if maximizing then child.Le(best) else best.Le(child)
    decreases |moves|
  {
    if k < |moves| - 1 {
      var prefix := moves[..|moves| - 1];
      assert prefix[k] == moves[k];
      BestOfBound(g, d, prefix, maximizing, k);
    }
  }

  lemma PrefixStep(g: Grid, d: nat, moves: seq<int>, i: nat, maximizing: bool)
    requires Rect(g) && AllValidMoves(g, moves) && i < |moves|
    ensures var m := ChildValue(g, d, moves[i], maximizing);
      var before := BestOf(g, d, moves[..i], maximizing);
      BestOf(g, d, moves[..i + 1], maximizing) == if maximizing then Max(before, m) else Min(before, m)
  {
    assert moves[..i + 1][..i] == moves[..i];
  }

  /** The guarantee of fail-soft alpha-beta: `v` is the pruned value, `m` the exact one. */
  ghost predicate FailSoft(v: Score, m: Score, alpha: Score, beta: Score) {
    && (v.Le(alpha) ==> m.Le(v))
    && (beta.Le(v) ==> v.Le(m))
    && (alpha.Lt(v) && v.Lt(beta) ==> m == v)
  }

  /** What holds of the loop state before index `i`, for the window (alpha0, beta0) of the call. */
  ghost predicate ScanInvariant(g: Grid, d: nat, moves: seq<int>, i: nat, st: LoopState, maximizing: bool,
                                alpha0: Score, beta0: Score)
    requires Rect(g) && AllValidMoves(g, moves) && i <= |moves|
  {
    var best := BestOf(g, d, moves[..i], maximizing);
    if maximizing then
      && st.alpha == Max(alpha0, st.value) && st.beta == beta0 && st.alpha.Lt(st.beta)
      && best.Le(st.value) && (alpha0.Lt(st.value) ==> best == st.value)
    else
      && st.beta == Min(beta0, st.value) && st.alpha == alpha0 && st.alpha.Lt(st.beta)
      && st.value.Le(best) && (st.value.Lt(beta0) ==> best == st.value)
  }

  /**
   * One step of the maximising loop, on scores alone: `value` and `best` are the loop's value and the
   * exact best before the step, `cv` and `m` the child's pruned and exact values, `all` the exact best
   * over every move.
   */
  lemma MaxStep(alpha0: Score, beta0: Score, value: Score, best: Score, cv: Score, m: Score, all: Score)
    requires Max(alpha0, value).Lt(beta0)
    requires best.Le(value) && (alpha0.Lt(value) ==> best == value)
    requires FailSoft(cv, m, Max(alpha0, value), beta0)
    requires m.Le(all)
    ensures var value' := if value.Lt(cv) then cv else value;
      var alpha' := Max(Max(alpha0, value), value');
      var best' := Max(best, m);
      && (beta0.Le(alpha') ==> FailSoft(value', all, alpha0, beta0))
      && (!beta0.Le(alpha') ==>
            alpha' == Max(alpha0, value') && alpha'.Lt(beta0)
            && best'.Le(value') && (alpha0.Lt(value') ==> best' == value'))
  {
  }

  /** One step of the minimising loop, the mirror image of `MaxStep`. */
  lemma MinStep(alpha0: Score, beta0: Score, value: Score, best: Score, cv: Score, m: Score, all: Score)
    requires alpha0.Lt(Min(beta0, value))
    requires value.Le(best) && (value.Lt(beta0) ==> best == value)
    requires FailSoft(cv, m, alpha0, Min(beta0, value))
    requires all.Le(m)
    ensures var value' := if cv.Lt(value) then cv else value;
      var beta' := Min(Min(beta0, value), value');
      var best' := Min(best, m);
      && (beta'.Le(alpha0) ==> FailSoft(value', all, alpha0, beta0))
      && (!beta'.Le(alpha0) ==>
            beta' == Min(beta0, value') && alpha0.Lt(beta')
            && value'.Le(best') && (value'.Lt(beta0) ==> best' == value'))
  {
  }

  /** Pruned search is sound: alpha-beta's value is fail-soft with respect to plain minimax. */
  lemma {:induction false} AlphaBetaSound(g: Grid, depth: nat, alpha: Score, beta: Score, maximizing: bool)
    requires Rect(g) && alpha.Lt(beta)
    ensures FailSoft(AlphaBeta(g, depth, alpha, beta, maximizing).value, MinimaxValue(g, depth, maximizing), alpha, beta)
    decreases depth, 1, 0, 0
  {
    if !Terminal(g, depth) {
      var moves := ValidMoves(g);
      assert moves[..0] == [];
      ScanSound(g, depth - 1, moves, 0, StartState(alpha, beta, maximizing, moves[0]), maximizing, alpha, beta);
    }
  }

  /**
   * One iteration of the loop keeps `ScanInvariant`, or it is a cutoff and the value it returns is
   * already fail-soft for the whole list of moves.
   */
  lemma {:induction false} ScanStepSound(g: Grid, d: nat, moves: seq<int>, i: nat, st: LoopState, maximizing: bool,
                                         alpha0: Score, beta0: Score)
    requires Rect(g) && AllValidMoves(g, moves) && i < |moves|
    requires alpha0.Lt(beta0)
    requires ScanInvariant(g, d, moves, i, st, maximizing, alpha0, beta0)
    ensures var st' := Advance(st, moves[i], ChildSearch(g, d, moves[i], st.alpha, st.beta, maximizing), maximizing);
      && (Cutoff(st') ==> FailSoft(st'.value, BestOf(g, d, moves, maximizing), alpha0, beta0))
      && (!Cutoff(st') ==> ScanInvariant(g, d, moves, i + 1, st', maximizing, alpha0, beta0))
    decreases d + 1, 0, |moves| - i, 0
  {
    var col := moves[i];
    var next := Drop(g, col, Mover(maximizing));
    var child := ChildSearch(g, d, col, st.alpha, st.beta, maximizing);
    assert child == AlphaBeta(next, d, st.alpha, st.beta, !maximizing);
    AlphaBetaSound(next, d, st.alpha, st.beta, !maximizing);
    PrefixStep(g, d, moves, i, maximizing);
    BestOfBound(g, d, moves, maximizing, i);
    var m := ChildValue(g, d, col, maximizing);
    var best := BestOf(g, d, moves[..i], maximizing);
    var all := BestOf(g, d, moves, maximizing);
    assert FailSoft(child.value, m, st.alpha, st.beta);
    if maximizing {
      MaxStep(alpha0, beta0, st.value, best, child.value, m, all);
    } else {
      MinStep(alpha0, beta0, st.value, best, child.value, m, all);
    }
  }

  lemma {:induction false} ScanSound(g: Grid, d: nat, moves: seq<int>, i: nat, st: LoopState, maximizing: bool,
                                     alpha0: Score, beta0: Score)
    requires Rect(g) && AllValidMoves(g, moves) && i <= |moves|
    requires alpha0.Lt(beta0)
    requires ScanInvariant(g, d, moves, i, st, maximizing, alpha0, beta0)
    ensures FailSoft(Scan(g, d, moves, i, st, maximizing).value, BestOf(g, d, moves, maximizing), alpha0, beta0)
    decreases d + 1, 0, |moves| - i, 1
  {
    if i == |moves| {
      assert moves[..i] == moves;
    } else {
      ScanStepSound(g, d, moves, i, st, maximizing, alpha0, beta0);
      var st' := Advance(st, moves[i], ChildSearch(g, d, moves[i], st.alpha, st.beta, maximizing), maximizing);
      if !Cutoff(st') {
        ScanSound(g, d, moves, i + 1, st', maximizing, alpha0, beta0);
      }
    }
  }

  /** `a` is no better than `b` for the side to move. */
  predicate NoBetter(maximizing: bool, a: Score, b: Score) {
    if maximizing then a.Le(b) else b.Le(a)
  }

  /** Chaining "no better" with "strictly better". */
  lemma BetterAfterNoBetter(maximizing: bool, x: Score, y: Score, z: Score, w: Score)
    requires NoBetter(maximizing, x, y) && NoBetter(maximizing, y, z) && Better(maximizing, w, z)
    ensures Better(maximizing, w, x)
  {
  }

  /**
   * One step of the root loop, on scores alone. The root window is (-inf, +inf), so the child's
   * window is (value, +inf) when maximising and (-inf, value) when minimising; `best` is the exact
   * best before the step, `m` the child's exact value and `all` the exact best over every move.
   */
  lemma RootScores(maximizing: bool, st: LoopState, col: int, child: SearchResult, best: Score, m: Score, all: Score)
    requires if maximizing then st.alpha == Max(NegInf, st.value) && st.beta == PosInf
             else st.beta == Min(PosInf, st.value) && st.alpha == NegInf
    requires st.alpha.Lt(st.beta)
    requires NoBetter(maximizing, best, st.value) && (st.value != WorstFor(maximizing) ==> best == st.value)
    requires FailSoft(child.value, m, st.alpha, st.beta)
    requires NoBetter(maximizing, m, all)
    ensures var best' := if maximizing then Max(best, m) else Min(best, m);
      && (Better(maximizing, child.value, st.value) ==>
            m == child.value && best' == m && Better(maximizing, m, st.value))
      && (!Better(maximizing, child.value, st.value) ==> best' == best && !Cutoff(Advance(st, col, child, maximizing)))
      && (Cutoff(Advance(st, col, child, maximizing)) ==> all == m)
  {
  }

  /** Only the worst score is no better than the worst score. */
  lemma NoBetterThanWorst(maximizing: bool, x: Score)
    requires NoBetter(maximizing, x, WorstFor(maximizing))
    ensures x == WorstFor(maximizing)
  {
  }

  /**
   * The column the root search returns, as an index `k` into `moves`: its child value is the best
   * over all moves, and every earlier move is strictly worse.
   */
  ghost predicate FirstBestIndex(g: Grid, d: nat, moves: seq<int>, maximizing: bool, col: int, k: int)
    requires Rect(g) && AllValidMoves(g, moves)
  {
    var best := BestOf(g, d, moves, maximizing);
    && 0 <= k < |moves| && moves[k] == col
    && ChildValue(g, d, moves[k], maximizing) == best
    && forall j :: 0 <= j < k ==> Better(maximizing, best, ChildValue(g, d, moves[j], maximizing))
  }

  /** The column of the root loop before index `i` is `moves[k]`, the first of the best so far. */
  ghost predicate RootInvariant(g: Grid, d: nat, moves: seq<int>, i: nat, st: LoopState, maximizing: bool, k: int)
    requires Rect(g) && AllValidMoves(g, moves) && i <= |moves|
  {
    var best := BestOf(g, d, moves[..i], maximizing);
    && 0 <= k < |moves| && moves[k] == st.column && (k < i || k == 0)
    && (forall j :: 0 <= j < k ==> Better(maximizing, best, ChildValue(g, d, moves[j], maximizing)))
    && (i >= 1 ==> ChildValue(g, d, moves[k], maximizing) == best)
  }

  lemma {:induction false} RootStep(g: Grid, d: nat, moves: seq<int>, i: nat, st: LoopState, maximizing: bool, k: int)
    returns (k': int)
    requires Rect(g) && AllValidMoves(g, moves) && i < |moves|
    requires ScanInvariant(g, d, moves, i, st, maximizing, NegInf, PosInf)
    requires RootInvariant(g, d, moves, i, st, maximizing, k)
    ensures var st' := Advance(st, moves[i], ChildSearch(g, d, moves[i], st.alpha, st.beta, maximizing), maximizing);
      && (Cutoff(st') ==> FirstBestIndex(g, d, moves, maximizing, st'.column, k'))
      && (!Cutoff(st') ==> RootInvariant(g, d, moves, i + 1, st', maximizing, k'))
  {
    var col := moves[i];
    var next := Drop(g, col, Mover(maximizing));
    var child := ChildSearch(g, d, col, st.alpha, st.beta, maximizing);
    assert child == AlphaBeta(next, d, st.alpha, st.beta, !maximizing);
    AlphaBetaSound(next, d, st.alpha, st.beta, !maximizing);
    PrefixStep(g, d, moves, i, maximizing);
    BestOfBound(g, d, moves, maximizing, i);
    var m := ChildValue(g, d, col, maximizing);
    var best := BestOf(g, d, moves[..i], maximizing);
    var best' := BestOf(g, d, moves[..i + 1], maximizing);
    var all := BestOf(g, d, moves, maximizing);
    RootScores(maximizing, st, col, child, best, m, all);
    var st' := Advance(st, col, child, maximizing);
    if Better(maximizing, child.value, st.value) {
      k' := i;
      forall j | 0 <= j < i
        ensures Better(maximizing, best', ChildValue(g, d, moves[j], maximizing))
      {
        BestOfBound(g, d, moves[..i], maximizing, j);
        assert moves[..i][j] == moves[j];
        BetterAfterNoBetter(maximizing, ChildValue(g, d, moves[j], maximizing), best, st.value, best');
      }
    } else {
      k' := k;
      if i == 0 {
        BestOfBound(g, d, moves[..1], maximizing, 0);
        assert moves[..1][0] == moves[0];
        assert moves[..0] == [];
        NoBetterThanWorst(maximizing, ChildValue(g, d, moves[0], maximizing));
      }
    }
  }

  lemma {:induction false} RootScan(g: Grid, d: nat, moves: seq<int>, i: nat, st: LoopState, maximizing: bool, k: int)
    returns (k': int)
    requires Rect(g) && AllValidMoves(g, moves) && i <= |moves|
    requires ScanInvariant(g, d, moves, i, st, maximizing, NegInf, PosInf)
    requires RootInvariant(g, d, moves, i, st, maximizing, k)
    ensures var r := Scan(g, d, moves, i, st, maximizing);
      r.column.Some? && FirstBestIndex(g, d, moves, maximizing, r.column.value, k')
    decreases |moves| - i
  {
    if i == |moves| {
      assert moves[..i] == moves;
      k' := k;
    } else {
      ScanStepSound(g, d, moves, i, st, maximizing, NegInf, PosInf);
      var kNext := RootStep(g, d, moves, i, st, maximizing, k);
      var st' := Advance(st, moves[i], ChildSearch(g, d, moves[i], st.alpha, st.beta, maximizing), maximizing);
      if Cutoff(st') {
        k' := kNext;
      } else {
        k' := RootScan(g, d, moves, i + 1, st', maximizing, kNext);
      }
    }
  }

  /**
   * `col` is the first valid column, in ascending order, whose move reaches the minimax value of `g`:
   * every valid column to its left is strictly worse for the side to move.
   */
  ghost predicate FirstBest(g: Grid, depth: nat, maximizing: bool, col: int)
    requires Rect(g) && depth >= 1
  {
    var best := MinimaxValue(g, depth, maximizing);
    && ValidMove(g, col)
    && ChildValue(g, depth - 1, col, maximizing) == best
    && forall c :: 0 <= c < col && ValidMove(g, c) ==> Better(maximizing, best, ChildValue(g, depth - 1, c, maximizing))
  }

  /** In the full window (-inf, +inf), a fail-soft value is the exact value. */
  lemma FullWindowExact(v: Score, m: Score)
    requires FailSoft(v, m, NegInf, PosInf)
    ensures v == m
  {
  }

  /** Moves are in ascending column order, so "earlier in `moves`" is "to the left". */
  lemma IndexToColumn(g: Grid, d: nat, maximizing: bool, col: int, k: int)
    requires Rect(g) && FirstBestIndex(g, d, ValidMoves(g), maximizing, col, k)
    ensures var best := BestOf(g, d, ValidMoves(g), maximizing);
      && ValidMove(g, col)
      && ChildValue(g, d, col, maximizing) == best
      && forall c :: 0 <= c < col && ValidMove(g, c) ==> Better(maximizing, best, ChildValue(g, d, c, maximizing))
  {
    var moves := ValidMoves(g);
    ValidMovesSpec(g);
    forall c | 0 <= c < col && ValidMove(g, c)
      ensures Better(maximizing, BestOf(g, d, moves, maximizing), ChildValue(g, d, c, maximizing))
    {
      assert c in moves;
      var j :| 0 <= j < |moves| && moves[j] == c;
      assert j < k;
    }
  }

  /**
   * The call minimax(depth, -inf, +inf, maximizing) of get_ai_move and suggest_move on a non-terminal
   * board returns exactly the unpruned minimax value, and the first column that reaches it.
   */
  lemma RootSearch(g: Grid, depth: nat, maximizing: bool)
    requires Rect(g) && !Terminal(g, depth)
    ensures var r := AlphaBeta(g, depth, NegInf, PosInf, maximizing);
      && r.value == MinimaxValue(g, depth, maximizing)
      && r.column.Some? && FirstBest(g, depth, maximizing, r.column.value)
  {
    var r := AlphaBeta(g, depth, NegInf, PosInf, maximizing);
    assert r.value == MinimaxValue(g, depth, maximizing) by {
      AlphaBetaSound(g, depth, NegInf, PosInf, maximizing);
      FullWindowExact(r.value, MinimaxValue(g, depth, maximizing));
    }
    assert r.column.Some? && FirstBest(g, depth, maximizing, r.column.value) by {
      var moves := ValidMoves(g);
      var st := StartState(NegInf, PosInf, maximizing, moves[0]);
      assert moves[..0] == [];
      var k := RootScan(g, depth - 1, moves, 0, st, maximizing, 0);
      assert r == Scan(g, depth - 1, moves, 0, st, maximizing);
      assert MinimaxValue(g, depth, maximizing) == BestOf(g, depth - 1, moves, maximizing);
      IndexToColumn(g, depth - 1, maximizing, r.column.value, k);
    }
  }
}
