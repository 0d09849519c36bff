/**
 * Shared vocabulary of the Hex engine: the three cell colours, board
 * coordinates, boards as values, and the link between the engine's
 * two-dimensional arrays and those values.
 */
module Boards {

  /** The source's nullable references (a missing winner, a missing move). */
  datatype Option<T> = None | Some(value: T)

  /** CellState.MyColor: RED is the human, BLUE the bot. */
  datatype MyColor = Red | Blue | Blank {
    /** The enum's `id` field. */
    function Id(): (id: int)
      ensures 0 <= id <= 2
      ensures id == 0 <==> this == Blank
    {
      match this
      case Red => 1
      case Blue => 2
      case Blank => 0
    }
  }

  /** A cell coordinate (x, y): x indexes the outer array, y the inner one. */
  type Pos = (int, int)

  /** A board as a value: `b[x][y]` is the colour of cell (x, y). */
  type Board = seq<seq<MyColor>>

  /** Java's Integer.MIN_VALUE and Integer.MAX_VALUE. */
  const IntMin: int := -0x8000_0000
  const IntMax: int := 0x7FFF_FFFF

  ghost predicate IsBoard(b: Board, n: int) {
    |b| == n && forall x :: 0 <= x < n ==> |b[x]| == n
  }

  predicate InBounds(p: Pos, n: int) {
    0 <= p.0 < n && 0 <= p.1 < n
  }

  /** The value held by an n-by-n array of colours. */
  function Snapshot(field: array2<MyColor>): (b: Board)
    reads field
    ensures IsBoard(b, field.Length0) && field.Length1 == field.Length0 ==> IsBoard(b, field.Length1)
    ensures |b| == field.Length0
    ensures forall x :: 0 <= x < field.Length0 ==> |b[x]| == field.Length1
    ensures forall x, y :: 0 <= x < field.Length0 && 0 <= y < field.Length1 ==> b[x][y] == field[x, y]
  {
    seq(field.Length0, x requires 0 <= x < field.Length0 reads field =>
      seq(field.Length1, y requires 0 <= y < field.Length1 reads field => field[x, y]))
  }

  /** `field` holds the n-by-n board `b`, cell by cell. */
  ghost predicate Holds(field: array2<MyColor>, b: Board)
    reads field
  {
    && |b| == field.Length0
    && (forall x :: 0 <= x < field.Length0 ==> |b[x]| == field.Length1)
    && forall x, y :: 0 <= x < field.Length0 && 0 <= y < field.Length1 ==> field[x, y] == b[x][y]
  }

  lemma SnapshotOfHolds(field: array2<MyColor>, b: Board)
    requires Holds(field, b)
    ensures Snapshot(field) == b
  {
    var s := Snapshot(field);
    assert |s| == |b|;
    forall x | 0 <= x < |b| ensures s[x] == b[x] {
      assert |s[x]| == |b[x]|;
    }
  }

  /** `b` with the stone `c` placed on (x, y). */
  function Place(b: Board, x: int, y: int, c: MyColor): (r: Board)
    requires 0 <= x < |b| && 0 <= y < |b[x]|
    ensures |r| == |b| && forall i :: 0 <= i < |b| ==> |r[i]| == |b[i]|
    ensures r[x][y] == c
    ensures forall i, j :: 0 <= i < |b| && 0 <= j < |b[i]| && (i, j) != (x, y) ==> r[i][j] == b[i][j]
  {
    b[x := b[x][y := c]]
  }

  /** The assignment `field[x][y] = c` seen on board values. */
  method Put(field: array2<MyColor>, x: int, y: int, c: MyColor, ghost b: Board)
    requires Holds(field, b)
    requires 0 <= x < field.Length0 && 0 <= y < field.Length1
    modifies field
    ensures Holds(field, Place(b, x, y, c))
  {
    field[x, y] := c;
  }

  /** Number of blank cells of the row prefix `row[..k]`. */
  function BlanksInRow(row: seq<MyColor>, k: int): (c: nat)
    requires 0 <= k <= |row|
    ensures c <= k
  {
    if k == 0 then 0 else BlanksInRow(row, k - 1) + (if row[k - 1] == Blank then 1 else 0)
  }

  /** Number of blank cells of rows `b[..k]`. */
  function BlanksInRows(b: Board, k: int): (c: nat)
    requires 0 <= k <= |b|
  {
    if k == 0 then 0 else BlanksInRows(b, k - 1) + BlanksInRow(b[k - 1], |b[k - 1]|)
  }

  /** The number of blank cells of a board. */
  function CountBlank(b: Board): nat {
    BlanksInRows(b, |b|)
  }

  lemma {:induction false} CountBlankBound(b: Board, n: int)
    requires IsBoard(b, n)
    ensures CountBlank(b) <= n * n
  {
    BlanksInRowsBound(b, n, n);
  }

  lemma {:induction false} BlanksInRowsBound(b: Board, n: int, k: int)
    requires IsBoard(b, n) && 0 <= k <= n
    ensures BlanksInRows(b, k) <= k * n
  {
    if k > 0 {
      BlanksInRowsBound(b, n, k - 1);
      assert (k - 1) * n + n == k * n;
    }
  }

  /** A cell's linear index x*n+y gives back x and y. */
  lemma IndexDivMod(x: int, y: int, n: int)
    requires 0 <= x && 0 <= y < n
    ensures (x * n + y) / n == x && (x * n + y) % n == y
  {
    var k := x * n + y;
    var q, r := k / n, k % n;
    assert k == q * n + r && 0 <= r < n;
    if q > x {
      MulNonneg(q - x - 1, n);
      assert false;
    } else if q < x {
      MulNonneg(x - q - 1, n);
      assert false;
    }
  }

  lemma MulNonneg(a: int, b: int)
    requires 0 <= a && 0 <= b
    ensures 0 <= a * b
  {
  }

  /** The linear index of a cell lies on the n*n board. */
  lemma IndexInRange(x: int, y: int, n: int)
    requires 0 <= x < n && 0 <= y < n
    ensures 0 <= x * n + y < n * n
  {
    assert x * n <= (n - 1) * n == n * n - n;
  }

  /** Division of Java's int type: truncates toward zero. */
  function JavaDiv(a: int, b: int): (q: int)
    requires b != 0
  {
    if a >= 0 || a % b == 0 then a / b
    else a / b + (if b > 0 then 1 else -1)
  }
}
