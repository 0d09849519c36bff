/**
 * The turn and state slice of GameBoard: the grid of CellState objects,
 * whose turn it is, which algorithm the bot uses, and the running average
 * of the bot's thinking time.  Drawing, touch geometry, animation, sound
 * and the worker thread are not part of this model.
 */
module Game {
  import opened Boards
  import opened Cells
  import opened Fuzzy

  /** The other algorithm. */
  function Toggled(algo: PredictionAlgo): (r: PredictionAlgo)
    ensures r != algo
  {
    if algo == AlphaBetaPruning then GeneticAlgo else AlphaBetaPruning
  }

  lemma ToggledTwice(algo: PredictionAlgo)
    ensures Toggled(Toggled(algo)) == algo
  {
  }

  /**
   * The new average thinking time: the elapsed milliseconds `dif` (a Java
   * long) are cut to whole seconds, cast to int, added to the previous
   * average and halved, all in Java's truncating 32-bit arithmetic.  While
   * nothing overflows it is the integer mean of the two, between them.
   */
  function TimeAverage(prev: int, dif: int): (r: int)
    requires IntMin <= prev <= IntMax
    ensures IntMin / 2 <= r <= IntMax / 2
    ensures 0 <= prev && 0 <= dif && dif / 1000 <= IntMax - prev ==>
              r == (prev + dif / 1000) / 2 && (if prev <= dif / 1000 then prev <= r <= dif / 1000 else dif / 1000 <= r <= prev)
  {
    var secs := WrapInt(JavaDiv(dif, 1000));
    JavaDiv(WrapInt(prev + secs), 2)
  }

  /** A bot move as long as the average leaves the average where it was. */
  lemma TimeAverageSettles(prev: int)
    requires 0 <= prev <= IntMax / 2
    ensures TimeAverage(prev, 1000 * prev) == prev
  {
    assert (1000 * prev) / 1000 == prev;
  }

  class GameBoard {
    /** N: the board is n by n. */
    const n: nat
    /** states[x][y] is the CellState with coordinates (x, y). */
    const states: array2<CellState?>
    /** selectedBoardFromGenetic: the genetic engine's chosen arrangement, for display. */
    const selected: array2<Option<CellVal>>

    var redTurn: bool
    var isTheFirstMove: bool
    var predictionAlgo: PredictionAlgo
    var fixedPredictionAlgo: Option<PredictionAlgo>
    /** The average thinking time of the bot, in seconds. */
    var prevTimeTaken: int

    /** Every slot of the grid holds the cell of its own coordinates. */
    ghost predicate Valid()
      reads this, states
    {
      && states.Length0 == n && states.Length1 == n
      && selected.Length0 == n && selected.Length1 == n
      && (forall i, j :: 0 <= i < n && 0 <= j < n ==>
            states[i, j] != null && states[i, j].x == i && states[i, j].y == j)
      && IntMin <= prevTimeTaken <= IntMax
    }

    ghost function CellObjects(): set<CellState?>
      reads states
    {
      set i, j | 0 <= i < states.Length0 && 0 <= j < states.Length1 :: states[i, j]
    }

    /** The board value getCurrentBoard copies out: entry (x, y) is the cell states[y][x]. */
    ghost function CurrentBoard(): (b: Board)
      requires Valid()
      reads this, states, CellObjects()
      ensures IsBoard(b, n)
      ensures forall x, y :: 0 <= x < n && 0 <= y < n ==> b[x][y] == states[y, x].myColor
    {
      seq(n, x requires 0 <= x < n && Valid() reads this, states, CellObjects() =>
        seq(n, y requires 0 <= y < n && Valid() reads this, states, CellObjects() => states[y, x].myColor))
    }

    /** drawBoard followed by initStates: a fresh n-by-n grid of blank cells. */
    constructor (n: nat)
      ensures this.n == n && Valid()
      ensures forall i, j :: 0 <= i < n && 0 <= j < n ==> states[i, j].myColor == Blank && states[i, j].score == ""
      ensures forall i, j :: 0 <= i < n && 0 <= j < n ==> selected[i, j] == None
      ensures redTurn && isTheFirstMove && predictionAlgo == AlphaBetaPruning
      ensures fixedPredictionAlgo == None && prevTimeTaken == 30
    {
      var grid := new CellState?[n, n]((i, j) => null);
      for x := 0 to n
        invariant forall i, j :: 0 <= i < x && 0 <= j < n ==>
                    grid[i, j] != null && grid[i, j].x == i && grid[i, j].y == j
                    && grid[i, j].myColor == Blank && grid[i, j].score == ""
      {
        for y := 0 to n
          invariant forall i, j :: 0 <= i < x && 0 <= j < n ==>
                      grid[i, j] != null && grid[i, j].x == i && grid[i, j].y == j
                      && grid[i, j].myColor == Blank && grid[i, j].score == ""
          invariant forall j :: 0 <= j < y ==>
                      grid[x, j] != null && grid[x, j].x == x && grid[x, j].y == j
                      && grid[x, j].myColor == Blank && grid[x, j].score == ""
        {
          grid[x, y] := new CellState(x, y);
        }
      }
      this.n := n;
      states := grid;
      selected := new Option<CellVal>[n, n]((i, j) => None);
      redTurn := true;
      isTheFirstMove := true;
      predictionAlgo := AlphaBetaPruning;
      fixedPredictionAlgo := None;
      prevTimeTaken := 30;
    }

    /** getCurrentBoard: a new array holding the transposed grid of colours. */
    method GetCurrentBoard() returns (field: array2<MyColor>)
      requires Valid()
      ensures fresh(field) && field.Length0 == n && field.Length1 == n
      ensures Snapshot(field) == CurrentBoard()
    {
      field := new MyColor[n, n]((i, j) => Blank);
      for x := 0 to n
        invariant forall i, j :: 0 <= i < x && 0 <= j < n ==> field[i, j] == states[j, i].myColor
      {
        for y := 0 to n
          invariant forall i, j :: 0 <= i < x && 0 <= j < n ==> field[i, j] == states[j, i].myColor
          invariant forall j :: 0 <= j < y ==> field[x, j] == states[j, x].myColor
        {
          field[x, y] := states[y, x].GetMyColor();
        }
      }
      SnapshotOfHolds(field, CurrentBoard());
    }

    /** countEmptyCell: the number of blank cells on the board. */
    method CountEmptyCell() returns (count: int)
      requires Valid()
      ensures count == CountBlank(CurrentBoard())
      ensures 0 <= count <= n * n
    {
      ghost var b := CurrentBoard();
      count := 0;
      for x := 0 to n
        invariant count == BlanksInRows(b, x)
      {
        for y := 0 to n
          invariant count == BlanksInRows(b, x) + BlanksInRow(b[x], y)
        {
          if states[y, x].IsBlank() {
            count := count + 1;
          }
        }
      }
      CountBlankBound(b, n);
    }

    /**
     * continueProcessing: on the human's (red) turn a blank cell becomes red
     * and the turn passes to the bot; on the bot's turn, or on a taken cell,
     * nothing changes.  The messages shown to the user are not modelled.
     */
    method ContinueProcessing(clickedCell: CellState)
      requires Valid() && clickedCell in CellObjects()
      modifies this`redTurn, this`isTheFirstMove, clickedCell`myColor
      ensures Valid()
      ensures isTheFirstMove == old(isTheFirstMove)
      ensures !old(redTurn) || old(clickedCell.myColor) != Blank ==>
                redTurn == old(redTurn) && CurrentBoard() == old(CurrentBoard())
      ensures old(redTurn) && old(clickedCell.myColor) == Blank ==>
                !redTurn && CurrentBoard() == Place(old(CurrentBoard()), clickedCell.y, clickedCell.x, Red)
    {
      ghost var b := CurrentBoard();
      if !redTurn {
        return;
      }
      if !clickedCell.IsBlank() {
        if isTheFirstMove && !redTurn {
          // The source's first-move swap rule needs the bot's turn, which
          // was ruled out above: the branch is never taken.
          assert false;
        }
        return;
      }
      clickedCell.SetMyColor(if redTurn then Red else Blue);
      redTurn := !redTurn;
      if redTurn {
        // The turn has just passed to the bot: never taken either.
        assert false;
      }
      assert states[clickedCell.x, clickedCell.y] == clickedCell;
      BoardAfterMove(b, clickedCell);
    }

    /** The board after the one cell `cell` turned red. */
    lemma BoardAfterMove(b: Board, cell: CellState)
      requires Valid() && cell in CellObjects() && cell.myColor == Red
      requires IsBoard(b, n) && b[cell.y][cell.x] == Blank
      requires forall x, y :: 0 <= x < n && 0 <= y < n && states[y, x] != cell ==> b[x][y] == states[y, x].myColor
      ensures CurrentBoard() == Place(b, cell.y, cell.x, Red)
    {
      var now, after := CurrentBoard(), Place(b, cell.y, cell.x, Red);
      forall x | 0 <= x < n ensures now[x] == after[x] {
        forall y | 0 <= y < n ensures now[x][y] == after[x][y] {
          if (x, y) == (cell.y, cell.x) {
            assert states[y, x] == cell;
          } else {
            assert states[y, x] != cell;
          }
        }
      }
    }

    /** restart: every cell blank with no score, no genetic overlay, red to move first. */
    method Restart()
      requires Valid()
      modifies this`redTurn, this`isTheFirstMove, selected, CellObjects()
      ensures Valid()
      ensures redTurn && isTheFirstMove
      ensures forall i, j :: 0 <= i < n && 0 <= j < n ==> states[i, j].myColor == Blank && states[i, j].score == ""
      ensures forall i, j :: 0 <= i < n && 0 <= j < n ==> selected[i, j] == None
      ensures CountBlank(CurrentBoard()) == n * n
    {
      redTurn := true;
      isTheFirstMove := true;
      for i := 0 to n
        invariant redTurn && isTheFirstMove
        invariant forall k, l :: 0 <= k < i && 0 <= l < n ==> states[k, l].myColor == Blank && states[k, l].score == ""
      {
        for j := 0 to n
          invariant redTurn && isTheFirstMove
          invariant forall k, l :: 0 <= k < i && 0 <= l < n ==> states[k, l].myColor == Blank && states[k, l].score == ""
          invariant forall l :: 0 <= l < j ==> states[i, l].myColor == Blank && states[i, l].score == ""
        {
          states[i, j].Reset();
        }
      }
      for i := 0 to n
        invariant redTurn && isTheFirstMove
        invariant forall k, l :: 0 <= k < n && 0 <= l < n ==> states[k, l].myColor == Blank && states[k, l].score == ""
        invariant forall k, l :: 0 <= k < i && 0 <= l < n ==> selected[k, l] == None
      {
        for j := 0 to n
          invariant redTurn && isTheFirstMove
          invariant forall k, l :: 0 <= k < n && 0 <= l < n ==> states[k, l].myColor == Blank && states[k, l].score == ""
          invariant forall k, l :: 0 <= k < i && 0 <= l < n ==> selected[k, l] == None
          invariant forall l :: 0 <= l < j ==> selected[i, l] == None
        {
          selected[i, j] := None;
        }
      }
      var b := CurrentBoard();
      assert forall x, y :: 0 <= x < n && 0 <= y < n ==> b[x][y] == states[y, x].myColor;
      AllBlankCount(b, n);
    }

    /** swapPredictionAlgo: switches algorithm, unless the human asks for it while the bot is thinking. */
    method SwapPredictionAlgo(requestedByBot: bool)
      modifies this`predictionAlgo
      ensures !redTurn && !requestedByBot ==> predictionAlgo == old(predictionAlgo)
      ensures redTurn || requestedByBot ==> predictionAlgo == Toggled(old(predictionAlgo))
    {
      if !redTurn && !requestedByBot {
        return;
      }
      predictionAlgo := if predictionAlgo == AlphaBetaPruning then GeneticAlgo else AlphaBetaPruning;
    }

    /** fixPredictionAlgo: pins the algorithm the bot uses from now on. */
    method FixPredictionAlgo(algo: PredictionAlgo)
      modifies this`fixedPredictionAlgo, this`predictionAlgo
      ensures fixedPredictionAlgo == Some(algo) && predictionAlgo == algo
    {
      fixedPredictionAlgo := Some(algo);
      predictionAlgo := algo;
    }

    /**
     * The choice at the start of startPredicting: a requested algorithm is
     * used as it is; otherwise the fuzzy selector is asked, and a pinned
     * algorithm overrides its answer.
     */
    method ChooseAlgorithm(reqAlgo: Option<PredictionAlgo>) returns (algo: PredictionAlgo)
      requires Valid()
      modifies this`predictionAlgo
      ensures predictionAlgo == algo
      ensures reqAlgo.Some? ==> algo == reqAlgo.value
      ensures reqAlgo.None? && fixedPredictionAlgo.Some? ==> algo == fixedPredictionAlgo.value
      ensures reqAlgo.None? && fixedPredictionAlgo.None? ==> algo == AlphaBetaPruning
    {
      algo := if reqAlgo.Some? then reqAlgo.value else AlphaBetaPruning;
      if reqAlgo.None? {
        var emptyCells := CountEmptyCell();
        var fuzzyChoice, _ := PredictAlgo(n * n, emptyCells, prevTimeTaken);
        algo := fuzzyChoice;
        if fixedPredictionAlgo.Some? {
          algo := fixedPredictionAlgo.value;
        }
      }
      predictionAlgo := algo;
    }

    /** The running average of the bot's thinking time after a move that took `dif` milliseconds. */
    method RecordTimeTaken(dif: int)
      requires Valid()
      modifies this`prevTimeTaken
      ensures Valid()
      ensures prevTimeTaken == TimeAverage(old(prevTimeTaken), dif)
    {
      prevTimeTaken := JavaDiv(WrapInt(prevTimeTaken + WrapInt(JavaDiv(dif, 1000))), 2);
    }
  }

  /** The row prefix of a blank row has only blanks. */
  lemma {:induction false} AllBlankRow(row: seq<MyColor>, k: int)
    requires 0 <= k <= |row|
    requires forall y :: 0 <= y < |row| ==> row[y] == Blank
    ensures BlanksInRow(row, k) == k
  {
    if k > 0 {
      AllBlankRow(row, k - 1);
    }
  }

  lemma {:induction false} AllBlankRows(b: Board, n: int, k: int)
    requires IsBoard(b, n) && 0 <= k <= n
    requires forall x, y :: 0 <= x < n && 0 <= y < n ==> b[x][y] == Blank
    ensures BlanksInRows(b, k) == k * n
  {
    if k > 0 {
      AllBlankRows(b, n, k - 1);
      AllBlankRow(b[k - 1], n);
      assert (k - 1) * n + n == k * n;
    }
  }

  /** A board of blanks only counts n*n empty cells, the value the fuzzy selector starts from. */
  lemma AllBlankCount(b: Board, n: int)
    requires IsBoard(b, n) && 0 <= n
    requires forall x, y :: 0 <= x < n && 0 <= y < n ==> b[x][y] == Blank
    ensures CountBlank(b) == n * n
  {
    AllBlankRows(b, n, n);
  }

  lemma {:induction false} PlaceRow(row: seq<MyColor>, y: int, c: MyColor, k: int)
    requires 0 <= y < |row| && 0 <= k <= |row| && row[y] == Blank && c != Blank
    ensures BlanksInRow(row[y := c], k) == BlanksInRow(row, k) - (if y < k then 1 else 0)
  {
    if k > 0 {
      PlaceRow(row, y, c, k - 1);
    }
  }

  lemma {:induction false} PlaceRows(b: Board, x: int, y: int, c: MyColor, k: int)
    requires 0 <= x < |b| && 0 <= y < |b[x]| && 0 <= k <= |b| && b[x][y] == Blank && c != Blank
    ensures BlanksInRows(Place(b, x, y, c), k) == BlanksInRows(b, k) - (if x < k then 1 else 0)
  {
    if k > 0 {
      PlaceRows(b, x, y, c, k - 1);
      var r := Place(b, x, y, c);
      if k - 1 == x {
        PlaceRow(b[x], y, c, |b[x]|);
        assert r[x] == b[x][y := c];
      } else {
        assert r[k - 1] == b[k - 1];
      }
    }
  }

  /** Each move on a blank cell leaves one empty cell fewer for countEmptyCell. */
  lemma MoveTakesOneBlank(b: Board, x: int, y: int, c: MyColor)
    requires 0 <= x < |b| && 0 <= y < |b[x]| && b[x][y] == Blank && c != Blank
    ensures CountBlank(Place(b, x, y, c)) == CountBlank(b) - 1
  {
    PlaceRows(b, x, y, c, |b|);
  }
}
