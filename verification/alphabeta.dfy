/**
 * AlphaBetaApplier.java: depth-limited minimax with alpha-beta pruning.
 * The bot (BLUE) maximises, the human (RED) minimises, blank cells are
 * tried in row-major order, and the board array is changed in place and
 * restored.  The root tries every blank cell for BLUE and keeps the best
 * value, ties going to the smaller linear index x*N+y.  The root's worker
 * threads are modelled as one sequential pass in row-major order, and
 * the watchdog timer as the flag `stoppedByTLE`.
 */
module AlphaBeta {
  import opened Boards
  import Calculator

  function Max(a: int, b: int): int {
    if a >= b then a else b
  }

  function Min(a: int, b: int): int {
    if a <= b then a else b
  }

  /** `v` cut to the window [lo, hi]: what an alpha-beta result is good for. */
  function Clamp(v: int, lo: int, hi: int): (r: int)
    requires lo <= hi
    ensures lo <= r <= hi
    ensures lo <= v <= hi ==> r == v
    ensures v <= lo ==> r == lo
    ensures hi <= v ==> r == hi
  {
    if v < lo then lo else if v > hi then hi else v
  }

  /** The value `best` starts from: Integer.MIN_VALUE for max, Integer.MAX_VALUE for min. */
  function Initial(isMax: bool): int {
    if isMax then IntMin else IntMax
  }

  /** The stone the player to move places: BLUE for max (the bot), RED for min. */
  function StoneOf(isMax: bool): MyColor {
    if isMax then Blue else Red
  }

  /**
   * Plain minimax with the source's move order and depth limit, no pruning:
   * the static score at the depth limit, then WIN / LOSS for a decided
   * board, then the best over all blank cells.
   */
  ghost function Minimax(b: Board, n: int, depth: int, limit: int, isMax: bool): int
    requires IsBoard(b, n)
    decreases limit - depth, 1, 0, 0
  {
    if depth >= limit then Calculator.BoardScoreOf(b, n)
    else
      var winner := Calculator.WinnerOf(b, n);
      if winner == Some(Blue) then Calculator.WIN
      else if winner == Some(Red) then Calculator.LOSS
      else Moves(b, n, depth, limit, isMax, 0, 0, Initial(isMax))
  }

  /** The fold over the blank cells from (x, y) on, in row-major order, combining with max or min. */
  ghost function Moves(b: Board, n: int, depth: int, limit: int, isMax: bool, x: int, y: int, acc: int): int
    requires IsBoard(b, n) && depth < limit
    requires 0 <= x <= n && 0 <= y <= n
    decreases limit - depth, 0, n - x, n - y
  {
    if x == n then acc
    else if y == n then Moves(b, n, depth, limit, isMax, x + 1, 0, acc)
    else if b[x][y] != Blank then Moves(b, n, depth, limit, isMax, x, y + 1, acc)
    else
      var v := Minimax(Place(b, x, y, StoneOf(isMax)), n, depth + 1, limit, !isMax);
      Moves(b, n, depth, limit, isMax, x, y + 1, if isMax then Max(acc, v) else Min(acc, v))
  }

  /** Every minimax value is a Java int: a static score, WIN, LOSS, or a bound Initial. */
  lemma {:induction false} MinimaxRange(b: Board, n: int, depth: int, limit: int, isMax: bool)
    requires IsBoard(b, n)
    ensures IntMin <= Minimax(b, n, depth, limit, isMax) <= IntMax
    decreases limit - depth, 1, 0, 0
  {
    if depth >= limit {
      Calculator.BoardScoreRange(b, n);
    } else if Calculator.WinnerOf(b, n) != Some(Blue) && Calculator.WinnerOf(b, n) != Some(Red) {
      MovesRange(b, n, depth, limit, isMax, 0, 0, Initial(isMax));
    }
  }

  lemma {:induction false} MovesRange(b: Board, n: int, depth: int, limit: int, isMax: bool, x: int, y: int, acc: int)
    requires IsBoard(b, n) && depth < limit
    requires 0 <= x <= n && 0 <= y <= n
    requires IntMin <= acc <= IntMax
    ensures IntMin <= Moves(b, n, depth, limit, isMax, x, y, acc) <= IntMax
    decreases limit - depth, 0, n - x, n - y
  {
    if x == n {
    } else if y == n {
      MovesRange(b, n, depth, limit, isMax, x + 1, 0, acc);
    } else if b[x][y] != Blank {
      MovesRange(b, n, depth, limit, isMax, x, y + 1, acc);
    } else {
      var v := Minimax(Place(b, x, y, StoneOf(isMax)), n, depth + 1, limit, !isMax);
      MinimaxRange(Place(b, x, y, StoneOf(isMax)), n, depth + 1, limit, !isMax);
      MovesRange(b, n, depth, limit, isMax, x, y + 1, if isMax then Max(acc, v) else Min(acc, v));
    }
  }

  /** The rest of a max fold never falls below what it has, a min fold never rises above it. */
  lemma {:induction false} MovesMonotone(b: Board, n: int, depth: int, limit: int, isMax: bool, x: int, y: int, acc: int)
    requires IsBoard(b, n) && depth < limit
    requires 0 <= x <= n && 0 <= y <= n
    ensures isMax ==> acc <= Moves(b, n, depth, limit, isMax, x, y, acc)
    ensures !isMax ==> Moves(b, n, depth, limit, isMax, x, y, acc) <= acc
    decreases n - x, n - y
  {
    if x == n {
    } else if y == n {
      MovesMonotone(b, n, depth, limit, isMax, x + 1, 0, acc);
    } else if b[x][y] != Blank {
      MovesMonotone(b, n, depth, limit, isMax, x, y + 1, acc);
    } else {
      var v := Minimax(Place(b, x, y, StoneOf(isMax)), n, depth + 1, limit, !isMax);
      MovesMonotone(b, n, depth, limit, isMax, x, y + 1, if isMax then Max(acc, v) else Min(acc, v));
    }
  }

  /** No cell of the n-by-n board is blank. */
  ghost predicate NoBlank(b: Board, n: int)
    requires IsBoard(b, n)
  {
    forall i, j :: 0 <= i < n && 0 <= j < n ==> b[i][j] != Blank
  }

  /** A fold over cells none of which is blank leaves the accumulator as it is. */
  lemma {:induction false} MovesNoBlank(b: Board, n: int, depth: int, limit: int, isMax: bool, x: int, y: int, acc: int)
    requires IsBoard(b, n) && depth < limit
    requires 0 <= x <= n && 0 <= y <= n
    requires NoBlank(b, n)
    ensures Moves(b, n, depth, limit, isMax, x, y, acc) == acc
    decreases n - x, n - y
  {
    if x == n {
    } else if y == n {
      MovesNoBlank(b, n, depth, limit, isMax, x + 1, 0, acc);
    } else {
      MovesNoBlank(b, n, depth, limit, isMax, x, y + 1, acc);
    }
  }

  /**
   * The three ways a node is decided before any move is tried: the static
   * score at the depth limit (before any winner test), WIN when BLUE has
   * won, LOSS when RED has; and a full board without a winner is worth the
   * starting bound, Integer.MIN_VALUE for max and Integer.MAX_VALUE for min.
   */
  lemma MinimaxLeaves(b: Board, n: int, depth: int, limit: int, isMax: bool)
    requires IsBoard(b, n) && 0 < n && n != Calculator.NO_WIN
    ensures depth >= limit ==> Minimax(b, n, depth, limit, isMax) == Calculator.BoardScoreOf(b, n)
    ensures depth < limit && Calculator.RedWins(b, n) ==> Minimax(b, n, depth, limit, isMax) == Calculator.LOSS
    ensures depth < limit && !Calculator.RedWins(b, n) && Calculator.BlueWins(b, n) ==>
      Minimax(b, n, depth, limit, isMax) == Calculator.WIN
    ensures depth < limit && !Calculator.RedWins(b, n) && !Calculator.BlueWins(b, n) && NoBlank(b, n) ==>
      Minimax(b, n, depth, limit, isMax) == Initial(isMax)
  {
    Calculator.WinnerMeaning(b, n);
    if depth < limit && !Calculator.RedWins(b, n) && !Calculator.BlueWins(b, n) && NoBlank(b, n) {
      MovesNoBlank(b, n, depth, limit, isMax, 0, 0, Initial(isMax));
    }
  }

  /** One max step keeps the pruned and the exact running best equal inside the window. */
  lemma MaxStep(alpha: int, beta: int, best: int, acc: int, res: int, m: int)
    requires alpha < beta && Max(alpha, best) < beta
    requires Clamp(best, alpha, beta) == Clamp(acc, alpha, beta)
    requires Clamp(res, Max(alpha, best), beta) == Clamp(m, Max(alpha, best), beta)
    ensures Clamp(Max(best, res), alpha, beta) == Clamp(Max(acc, m), alpha, beta)
  {
  }

  /** One min step keeps the pruned and the exact running best equal inside the window. */
  lemma MinStep(alpha: int, beta: int, best: int, acc: int, res: int, m: int)
    requires alpha < beta && alpha < Min(beta, best)
    requires Clamp(best, alpha, beta) == Clamp(acc, alpha, beta)
    requires Clamp(res, alpha, Min(beta, best)) == Clamp(m, alpha, Min(beta, best))
    ensures Clamp(Min(best, res), alpha, beta) == Clamp(Min(acc, m), alpha, beta)
  {
  }

  /** Undoing a move on a cell that was blank gives the board back. */
  lemma PlaceUndo(b: Board, x: int, y: int, c: MyColor)
    requires 0 <= x < |b| && 0 <= y < |b[x]| && b[x][y] == Blank
    ensures Place(Place(b, x, y, c), x, y, Blank) == b
  {
    assert Place(b, x, y, c)[x][y := Blank] == b[x];
  }

  /** predictDepthLimit's rule on the empty-cell count and N*N. */
  function DepthLimit(empty: int, nN: int): (limit: int)
    requires 0 <= empty && 0 < nN
    ensures 0 <= limit <= empty
    ensures empty / 6 <= limit
  {
    var emptyPercent := (100 * empty) / nN;
    if emptyPercent > 70 then empty / 6
    else if emptyPercent > 50 then empty / 4
    else if emptyPercent > 30 then empty / 2
    else empty
  }

  /** The value the root gives the blank cell (x, y): BLUE placed there, then RED to move at depth 0. */
  ghost function RootValue(b: Board, n: int, limit: int, x: int, y: int): int
    requires IsBoard(b, n) && 0 <= x < n && 0 <= y < n
  {
    Minimax(Place(b, x, y, Blue), n, 0, limit, false)
  }

  function Linear(p: Pos, n: int): int {
    p.0 * n + p.1
  }

  /**
   * The best-move update of submitToThread: a greater value wins; an equal
   * value wins when a cell is already chosen and (x, y) comes earlier in
   * row-major order.
   */
  function Update(n: int, bestVal: int, cell: Option<Pos>, x: int, y: int, moveVal: int): (r: (int, Option<Pos>))
    ensures r.0 == Max(bestVal, moveVal)
    ensures r.1 == cell || r.1 == Some((x, y))
  {
    if moveVal > bestVal then (moveVal, Some((x, y)))
    else if moveVal == bestVal && cell.Some? && Linear((x, y), n) < Linear(cell.value, n) then (bestVal, Some((x, y)))
    else (bestVal, cell)
  }

  /** The root pass from (x, y) on, in row-major order, over the blank cells. */
  ghost function RootFold(b: Board, n: int, limit: int, x: int, y: int, bestVal: int, cell: Option<Pos>): (int, Option<Pos>)
    requires IsBoard(b, n) && 0 <= x <= n && 0 <= y <= n
    decreases n - x, n - y
  {
    if x == n then (bestVal, cell)
    else if y == n then RootFold(b, n, limit, x + 1, 0, bestVal, cell)
    else if b[x][y] != Blank then RootFold(b, n, limit, x, y + 1, bestVal, cell)
    else
      var (v, c) := Update(n, bestVal, cell, x, y, RootValue(b, n, limit, x, y));
      RootFold(b, n, limit, x, y + 1, v, c)
  }

  /** The cell the root chooses when not stopped. */
  ghost function RootChoice(b: Board, n: int, limit: int): Option<Pos>
    requires IsBoard(b, n) && 0 <= n
  {
    RootFold(b, n, limit, 0, 0, IntMin, None).1
  }

  /** Cell (i, j) comes before (x, y) in row-major order. */
  predicate Before(i: int, j: int, x: int, y: int) {
    i < x || (i == x && j < y)
  }

  /**
   * What the root pass knows after the cells before (x, y): with no cell
   * chosen, every blank cell so far is worth Integer.MIN_VALUE; with one
   * chosen, it is blank, worth bestVal > Integer.MIN_VALUE, and no blank cell
   * so far is worth more or is worth as much with a smaller linear index.
   */
  ghost predicate RootSoFar(b: Board, n: int, limit: int, x: int, y: int, bestVal: int, cell: Option<Pos>)
    requires IsBoard(b, n)
  {
    && (cell.None? ==>
          && bestVal == IntMin
          && forall i, j :: 0 <= i < n && 0 <= j < n && Before(i, j, x, y) && b[i][j] == Blank ==>
               RootValue(b, n, limit, i, j) <= IntMin)
    && (cell.Some? ==>
          && InBounds(cell.value, n) && Before(cell.value.0, cell.value.1, x, y)
          && b[cell.value.0][cell.value.1] == Blank
          && bestVal == RootValue(b, n, limit, cell.value.0, cell.value.1) && IntMin < bestVal
          && forall i, j :: 0 <= i < n && 0 <= j < n && Before(i, j, x, y) && b[i][j] == Blank ==>
               RootValue(b, n, limit, i, j) <= bestVal
               && (RootValue(b, n, limit, i, j) == bestVal ==> Linear(cell.value, n) <= Linear((i, j), n)))
  }

  /** A non-blank cell, or the end of a row, adds nothing to what the root pass knows. */
  lemma RootSkip(b: Board, n: int, limit: int, x: int, y: int, bestVal: int, cell: Option<Pos>)
    requires IsBoard(b, n) && 0 <= x < n && 0 <= y <= n
    requires RootSoFar(b, n, limit, x, y, bestVal, cell)
    requires y == n || b[x][y] != Blank
    ensures y == n ==> RootSoFar(b, n, limit, x + 1, 0, bestVal, cell)
    ensures y < n ==> RootSoFar(b, n, limit, x, y + 1, bestVal, cell)
  {
  }

  /** The update at a blank cell keeps what the root pass knows. */
  lemma RootStep(b: Board, n: int, limit: int, x: int, y: int, bestVal: int, cell: Option<Pos>)
    requires IsBoard(b, n) && 0 <= x < n && 0 <= y < n && b[x][y] == Blank
    requires RootSoFar(b, n, limit, x, y, bestVal, cell)
    ensures
      var r := Update(n, bestVal, cell, x, y, RootValue(b, n, limit, x, y));
      RootSoFar(b, n, limit, x, y + 1, r.0, r.1)
  {
    var v := RootValue(b, n, limit, x, y);
    MinimaxRange(Place(b, x, y, Blue), n, 0, limit, false);
    var r := Update(n, bestVal, cell, x, y, v);
    forall i, j | 0 <= i < n && 0 <= j < n && Before(i, j, x, y + 1) && b[i][j] == Blank
      ensures RootValue(b, n, limit, i, j) <= r.0
      ensures r.1.None? ==> RootValue(b, n, limit, i, j) <= IntMin
      ensures r.1.Some? && RootValue(b, n, limit, i, j) == r.0 ==> Linear(r.1.value, n) <= Linear((i, j), n)
    {
      if (i, j) != (x, y) {
        assert Before(i, j, x, y);
      }
    }
  }

  lemma {:induction false} RootFoldKeeps(b: Board, n: int, limit: int, x: int, y: int, bestVal: int, cell: Option<Pos>,
                                         r: (int, Option<Pos>))
    requires IsBoard(b, n) && 0 <= x <= n && 0 <= y <= n
    requires x == n ==> y == 0
    requires RootSoFar(b, n, limit, x, y, bestVal, cell)
    requires r == RootFold(b, n, limit, x, y, bestVal, cell)
    ensures RootSoFar(b, n, limit, n, 0, r.0, r.1)
    decreases n - x, n - y
  {
    if x == n {
      assert r == (bestVal, cell);
    } else if y == n {
      RootSkip(b, n, limit, x, y, bestVal, cell);
      RootFoldKeeps(b, n, limit, x + 1, 0, bestVal, cell, r);
    } else if b[x][y] != Blank {
      RootSkip(b, n, limit, x, y, bestVal, cell);
      RootFoldKeeps(b, n, limit, x, y + 1, bestVal, cell, r);
    } else {
      RootStep(b, n, limit, x, y, bestVal, cell);
      var u := Update(n, bestVal, cell, x, y, RootValue(b, n, limit, x, y));
      RootFoldKeeps(b, n, limit, x, y + 1, u.0, u.1, r);
    }
  }

  /**
   * The root's choice: a blank cell of greatest value, the one with the
   * smallest linear index among equals; no cell only when every blank cell
   * is worth Integer.MIN_VALUE (in particular when there is no blank cell).
   */
  lemma RootChoiceIsFirstBest(b: Board, n: int, limit: int)
    requires IsBoard(b, n) && 0 <= n
    ensures RootChoice(b, n, limit).Some? ==>
      var p := RootChoice(b, n, limit).value;
      && InBounds(p, n) && b[p.0][p.1] == Blank
      && IntMin < RootValue(b, n, limit, p.0, p.1)
      && forall i, j :: 0 <= i < n && 0 <= j < n && b[i][j] == Blank ==>
           RootValue(b, n, limit, i, j) <= RootValue(b, n, limit, p.0, p.1)
           && (RootValue(b, n, limit, i, j) == RootValue(b, n, limit, p.0, p.1) ==> Linear(p, n) <= Linear((i, j), n))
    ensures RootChoice(b, n, limit).None? ==>
      forall i, j :: 0 <= i < n && 0 <= j < n && b[i][j] == Blank ==> RootValue(b, n, limit, i, j) == IntMin
  {
    RootFoldKeeps(b, n, limit, 0, 0, IntMin, None, RootFold(b, n, limit, 0, 0, IntMin, None));
    forall i, j | 0 <= i < n && 0 <= j < n && b[i][j] == Blank
      ensures IntMin <= RootValue(b, n, limit, i, j)
    {
      MinimaxRange(Place(b, i, j, Blue), n, 0, limit, false);
    }
  }

  /** A progress report 100*count/N_N with 0 <= count <= N_N lies in [0, 100]. */
  lemma ProgressBound(count: int, nN: int)
    requires 0 <= count <= nN && 0 < nN
    ensures 0 <= JavaDiv(100 * count, nN) <= 100
  {
    var q, r := (100 * count) / nN, (100 * count) % nN;
    assert 100 * count == q * nN + r && 0 <= r < nN;
    if q < 0 {
      MulNonneg(-q - 1, nN);
      assert false;
    }
    if q > 100 {
      MulNonneg(q - 101, nN);
      assert false;
    }
  }

  class AlphaBetaApplier {
    var n: int
    var nN: int
    var depthLimit: int
    /** Set by the watchdog timer; a flag fixed for the duration of one search here. */
    var stoppedByTLE: bool
    /** botProgressInt */
    var botProgress: int
    /** The values passed to the listener's onProgress, oldest first. */
    var progress: seq<int>

    /** The state getInstance hands out: progress 0 and not stopped. */
    constructor ()
      ensures botProgress == 0 && !stoppedByTLE && progress == []
    {
      n := 0;
      nN := 0;
      depthLimit := 0;
      stoppedByTLE := false;
      botProgress := 0;
      progress := [];
    }

    /** The watchdog firing: the search is to give up. */
    method TimeLimitExceeded()
      modifies this`stoppedByTLE
      ensures stoppedByTLE
    {
      stoppedByTLE := true;
    }

    /** predictDepthLimit: counts the blank cells, then picks the depth by the empty percentage. */
    method PredictDepthLimit(field: array2<MyColor>) returns (limit: int)
      requires 0 < nN
      ensures limit == DepthLimit(CountBlank(Snapshot(field)), nN)
      ensures 0 <= limit <= CountBlank(Snapshot(field))
    {
      ghost var b := Snapshot(field);
      var emptyCount := 0;
      for x := 0 to field.Length0
        invariant emptyCount == BlanksInRows(b, x)
      {
        for y := 0 to field.Length1
          invariant emptyCount == BlanksInRows(b, x) + BlanksInRow(b[x], y)
        {
          if field[x, y] == Blank {
            emptyCount := emptyCount + 1;
          }
        }
      }
      var emptyPercent := (100 * emptyCount) / nN;
      if emptyPercent > 70 {
        return emptyCount / 6;
      }
      if emptyPercent > 50 {
        return emptyCount / 4;
      }
      if emptyPercent > 30 {
        return emptyCount / 2;
      }
      return emptyCount;
    }

    /**
     * submitToThread: one root cell.  A copy of the board gets BLUE on (x, y)
     * and is searched with the full window at depth 0 for RED; unless
     * stopped, the best move is updated and one unit of progress reported.
     */
    method SubmitToThread(fieldItOnly: array2<MyColor>, x: int, y: int, bestVal: int, cell: Option<Pos>)
      returns (bestVal': int, cell': Option<Pos>)
      requires fieldItOnly.Length0 == n && fieldItOnly.Length1 == n
      requires 0 <= x < n && 0 <= y < n && 0 < nN
      modifies this`botProgress, this`progress
      ensures stoppedByTLE ==> bestVal' == bestVal && cell' == cell
      ensures stoppedByTLE ==> botProgress == old(botProgress) && progress == old(progress)
      ensures !stoppedByTLE ==>
        (bestVal', cell') == Update(n, bestVal, cell, x, y, Minimax(Place(Snapshot(fieldItOnly), x, y, Blue), n, 0, depthLimit, false))
      ensures !stoppedByTLE ==>
        botProgress == old(botProgress) + 1 && progress == old(progress) + [JavaDiv(100 * botProgress, nN)]
    {
      ghost var b := Snapshot(fieldItOnly);
      var size := n;
      var field := new MyColor[size, size]((i, j) requires 0 <= i < size && 0 <= j < size reads fieldItOnly => fieldItOnly[i, j]);
      assert Holds(field, b);
      Put(field, x, y, Blue, b);
      var moveVal := ApplyAlphaBeta(field, Place(b, x, y, Blue), 0, false, IntMin, IntMax);
      field[x, y] := Blank;
      if stoppedByTLE {
        return bestVal, cell;
      }
      var r := Update(n, bestVal, cell, x, y, moveVal);
      bestVal', cell' := r.0, r.1;
      ReportProgress();
    }

    /** One more unit of progress, reported as the integer percentage 100*count/N_N. */
    method ReportProgress()
      requires 0 < nN
      modifies this`botProgress, this`progress
      ensures botProgress == old(botProgress) + 1
      ensures progress == old(progress) + [JavaDiv(100 * botProgress, nN)]
    {
      botProgress := botProgress + 1;
      progress := progress + [JavaDiv(100 * botProgress, nN)];
    }

    /** Progress made since the counter stood at bp0 and the reports were p0. */
    ghost predicate ProgressSince(bp0: int, p0: seq<int>, done: int)
      reads this
    {
      && 0 <= botProgress - bp0 <= done
      && |p0| <= |progress| && progress[..|p0|] == p0
      && (bp0 == 0 ==> forall i :: |p0| <= i < |progress| ==> 0 <= progress[i] <= 100)
    }

    /** The body of predict's loops for cell (x, y). */
    method PredictCell(fieldItOnly: array2<MyColor>, x: int, y: int, bestVal: int, cell: Option<Pos>, ghost bp0: int, ghost p0: seq<int>)
      returns (bestVal': int, cell': Option<Pos>)
      requires fieldItOnly.Length0 == n && fieldItOnly.Length1 == n
      requires 0 <= x < n && 0 <= y < n && nN == n * n
      requires ProgressSince(bp0, p0, x * n + y)
      modifies this`botProgress, this`progress
      ensures ProgressSince(bp0, p0, x * n + y + 1)
      ensures !stoppedByTLE ==> botProgress == old(botProgress) + 1
      ensures stoppedByTLE ==> cell' == cell
      ensures !stoppedByTLE && fieldItOnly[x, y] != Blank ==> bestVal' == bestVal && cell' == cell
      ensures !stoppedByTLE && fieldItOnly[x, y] == Blank ==>
        (bestVal', cell') == Update(n, bestVal, cell, x, y, RootValue(Snapshot(fieldItOnly), n, depthLimit, x, y))
    {
      IndexInRange(x, y, n);
      if bp0 == 0 {
        ProgressBound(botProgress + 1, nN);
      }
      if fieldItOnly[x, y] != Blank {
        ReportProgress();
        return bestVal, cell;
      }
      bestVal', cell' := SubmitToThread(fieldItOnly, x, y, bestVal, cell);
    }

    /** predict's inner loop over row x. */
    method PredictRow(fieldItOnly: array2<MyColor>, x: int, bestVal: int, cell: Option<Pos>, ghost bp0: int, ghost p0: seq<int>)
      returns (bestVal': int, cell': Option<Pos>)
      requires fieldItOnly.Length0 == n && fieldItOnly.Length1 == n
      requires 0 <= x < n && nN == n * n
      requires ProgressSince(bp0, p0, x * n)
      requires stoppedByTLE ==> cell == None
      modifies this`botProgress, this`progress
      ensures ProgressSince(bp0, p0, (x + 1) * n)
      ensures !stoppedByTLE ==> botProgress == old(botProgress) + n
      ensures stoppedByTLE ==> cell' == None
      ensures !stoppedByTLE ==>
        RootFold(Snapshot(fieldItOnly), n, depthLimit, x, 0, bestVal, cell)
        == RootFold(Snapshot(fieldItOnly), n, depthLimit, x + 1, 0, bestVal', cell')
    {
      ghost var b := Snapshot(fieldItOnly);
      bestVal', cell' := bestVal, cell;
      for y := 0 to n
        invariant ProgressSince(bp0, p0, x * n + y)
        invariant !stoppedByTLE ==> botProgress == old(botProgress) + y
        invariant stoppedByTLE ==> cell' == None
        invariant !stoppedByTLE ==>
          RootFold(b, n, depthLimit, x, 0, bestVal, cell) == RootFold(b, n, depthLimit, x, y, bestVal', cell')
      {
        bestVal', cell' := PredictCell(fieldItOnly, x, y, bestVal', cell', bp0, p0);
      }
      assert (x + 1) * n == x * n + n;
    }

    /**
     * predict, as one sequential pass over the cells in row-major order:
     * a non-blank cell only reports progress, a blank one is searched.  The
     * chosen cell is the root's first best cell, none once stopped; the board
     * argument is left as it was; every progress report lies in [0, 100]
     * when the counter starts from 0, as getInstance leaves it.
     */
    method Predict(fieldItOnly: array2<MyColor>, n: int) returns (cellToPlace: Option<Pos>)
      requires 0 < n && fieldItOnly.Length0 == n && fieldItOnly.Length1 == n
      modifies this
      ensures this.n == n && nN == n * n
      ensures depthLimit == DepthLimit(CountBlank(Snapshot(fieldItOnly)), n * n)
      ensures stoppedByTLE == old(stoppedByTLE)
      ensures stoppedByTLE ==> cellToPlace == None
      ensures !stoppedByTLE ==> cellToPlace == RootChoice(Snapshot(fieldItOnly), n, depthLimit)
      ensures !stoppedByTLE ==> botProgress == old(botProgress) + n * n
      ensures |old(progress)| <= |progress| && progress[..|old(progress)|] == old(progress)
      ensures old(botProgress) == 0 ==> forall i :: |old(progress)| <= i < |progress| ==> 0 <= progress[i] <= 100
    {
      this.n := n;
      nN := n * n;
      depthLimit := PredictDepthLimit(fieldItOnly);
      ghost var b := Snapshot(fieldItOnly);
      ghost var bp0, p0 := botProgress, progress;
      var bestVal := IntMin;
      cellToPlace := None;
      for x := 0 to n
        invariant this.n == n && nN == n * n && stoppedByTLE == old(stoppedByTLE)
        invariant depthLimit == DepthLimit(CountBlank(b), n * n)
        invariant ProgressSince(bp0, p0, x * n)
        invariant !stoppedByTLE ==> botProgress == bp0 + x * n
        invariant stoppedByTLE ==> cellToPlace == None
        invariant !stoppedByTLE ==>
          RootFold(b, n, depthLimit, 0, 0, IntMin, None) == RootFold(b, n, depthLimit, x, 0, bestVal, cellToPlace)
      {
        bestVal, cellToPlace := PredictRow(fieldItOnly, x, bestVal, cellToPlace, bp0, p0);
        assert (x + 1) * n == x * n + n;
      }
      if stoppedByTLE {
        cellToPlace := None;
      }
    }

    /**
     * applyAlphaBeta: the board is the same on return as on entry, the
     * result is 0 once stopped, and otherwise it agrees with plain minimax
     * inside the window [alpha, beta]; with the full int window it IS the
     * minimax value.
     */
    method ApplyAlphaBeta(field: array2<MyColor>, ghost b: Board, depth: int, isMax: bool, alpha: int, beta: int)
      returns (v: int)
      requires field.Length0 == n && field.Length1 == n
      requires Holds(field, b)
      requires IntMin <= alpha < beta <= IntMax
      modifies field
      decreases depthLimit - depth
      ensures Holds(field, b)
      ensures stoppedByTLE ==> v == 0
      ensures !stoppedByTLE ==> IntMin <= v <= IntMax
      ensures !stoppedByTLE ==> Clamp(v, alpha, beta) == Clamp(Minimax(b, n, depth, depthLimit, isMax), alpha, beta)
      ensures !stoppedByTLE && alpha == IntMin && beta == IntMax ==> v == Minimax(b, n, depth, depthLimit, isMax)
    {
      MinimaxRange(b, n, depth, depthLimit, isMax);
      if stoppedByTLE {
        return 0;
      }
      SnapshotOfHolds(field, b);
      if depth >= depthLimit {
        v := Calculator.GetBoardScore(field, n);
        return;
      }
      var winner := Calculator.GetGameWinner(field, n);
      if winner == Some(Blue) {
        return Calculator.WIN;
      }
      if winner == Some(Red) {
        return Calculator.LOSS;
      }
      v := SearchMoves(field, b, depth, isMax, alpha, beta);
    }

    /** The move loop of applyAlphaBeta, on a board without a winner above the depth limit. */
    method SearchMoves(field: array2<MyColor>, ghost b: Board, depth: int, isMax: bool, alpha0: int, beta0: int)
      returns (best: int)
      requires field.Length0 == n && field.Length1 == n
      requires Holds(field, b)
      requires IntMin <= alpha0 < beta0 <= IntMax && depth < depthLimit
      requires !stoppedByTLE
      modifies field
      decreases depthLimit - depth, 1
      ensures Holds(field, b)
      ensures IntMin <= best <= IntMax
      ensures Clamp(best, alpha0, beta0) == Clamp(Moves(b, n, depth, depthLimit, isMax, 0, 0, Initial(isMax)), alpha0, beta0)
    {
      var alpha, beta := alpha0, beta0;
      best := Initial(isMax);
      ghost var acc := best;
      ghost var total := Moves(b, n, depth, depthLimit, isMax, 0, 0, acc);
      label mainLoop:
      for x := 0 to n
        invariant Holds(field, b)
        invariant total == Moves(b, n, depth, depthLimit, isMax, x, 0, acc)
        invariant IntMin <= best <= IntMax && IntMin <= acc <= IntMax
        invariant alpha < beta
        invariant isMax ==> alpha == Max(alpha0, best) && beta == beta0
        invariant !isMax ==> beta == Min(beta0, best) && alpha == alpha0
        invariant Clamp(best, alpha0, beta0) == Clamp(acc, alpha0, beta0)
      {
        for y := 0 to n
          invariant Holds(field, b)
          invariant total == Moves(b, n, depth, depthLimit, isMax, x, y, acc)
          invariant IntMin <= best <= IntMax && IntMin <= acc <= IntMax
          invariant alpha < beta
          invariant isMax ==> alpha == Max(alpha0, best) && beta == beta0
          invariant !isMax ==> beta == Min(beta0, best) && alpha == alpha0
          invariant Clamp(best, alpha0, beta0) == Clamp(acc, alpha0, beta0)
        {
          if field[x, y] != Blank {
            continue;
          }
          alpha, beta, best, acc := PlayCell(field, b, depth, isMax, x, y, alpha0, beta0, alpha, beta, best, acc);
          if beta <= alpha {
            MovesMonotone(b, n, depth, depthLimit, isMax, x, y + 1, acc);
            break mainLoop;
          }
        }
      }
    }

    /**
     * One move of the loop of applyAlphaBeta on a blank cell: play the
     * stone of the side to move, search the child, undo the move, and
     * narrow the window.  `acc` follows the exact minimax fold alongside.
     */
    method PlayCell(field: array2<MyColor>, ghost b: Board, depth: int, isMax: bool, x: int, y: int,
                    alpha0: int, beta0: int, alpha: int, beta: int, best: int, ghost acc: int)
      returns (alpha': int, beta': int, best': int, ghost acc': int)
      requires field.Length0 == n && field.Length1 == n && Holds(field, b)
      requires IntMin <= alpha0 < beta0 <= IntMax && depth < depthLimit && !stoppedByTLE
      requires 0 <= x < n && 0 <= y < n && b[x][y] == Blank
      requires IntMin <= best <= IntMax && IntMin <= acc <= IntMax && alpha < beta
      requires isMax ==> alpha == Max(alpha0, best) && beta == beta0
      requires !isMax ==> beta == Min(beta0, best) && alpha == alpha0
      requires Clamp(best, alpha0, beta0) == Clamp(acc, alpha0, beta0)
      modifies field
      decreases depthLimit - depth, 0
      ensures Holds(field, b)
      ensures var m := Minimax(Place(b, x, y, StoneOf(isMax)), n, depth + 1, depthLimit, !isMax);
        acc' == if isMax then Max(acc, m) else Min(acc, m)
      ensures IntMin <= best' <= IntMax && IntMin <= acc' <= IntMax
      ensures isMax ==> alpha' == Max(alpha0, best') && beta' == beta0
      ensures !isMax ==> beta' == Min(beta0, best') && alpha' == alpha0
      ensures Clamp(best', alpha0, beta0) == Clamp(acc', alpha0, beta0)
    {
      ghost var child := Place(b, x, y, StoneOf(isMax));
      ghost var m := Minimax(child, n, depth + 1, depthLimit, !isMax);
      MinimaxRange(child, n, depth + 1, depthLimit, !isMax);
      if isMax {
        Put(field, x, y, Blue, b);
        var res := ApplyAlphaBeta(field, child, depth + 1, false, alpha, beta);
        MaxStep(alpha0, beta0, best, acc, res, m);
        best' := Max(best, res);
        acc' := Max(acc, m);
        alpha', beta' := Max(alpha, best'), beta;
        Put(field, x, y, Blank, child);
        PlaceUndo(b, x, y, Blue);
      } else {
        Put(field, x, y, Red, b);
        var res := ApplyAlphaBeta(field, child, depth + 1, true, alpha, beta);
        MinStep(alpha0, beta0, best, acc, res, m);
        best' := Min(best, res);
        acc' := Min(acc, m);
        alpha', beta' := alpha, Min(beta, best');
        Put(field, x, y, Blank, child);
        PlaceUndo(b, x, y, Red);
      }
    }
  }
}
