/**
 * Cell.java and CellState.java: a board cell with fixed coordinates and a
 * colour that can be changed in place.  CellState extends Cell in the
 * source; Dafny classes do not inherit, so CellState repeats the three
 * fields it inherits.
 */
module Cells {
  import opened Boards

  /** The value of a Cell at one moment: its coordinates and its colour. */
  datatype CellVal = CellVal(x: int, y: int, myColor: MyColor)

  function Coord(c: CellVal): Pos {
    (c.x, c.y)
  }

  /** Cell.equals on values: coordinates only, the colour is ignored. */
  predicate SameCell(a: CellVal, b: CellVal) {
    a.x == b.x && a.y == b.y
  }

  const TwoTo31: int := 0x8000_0000
  const TwoTo32: int := 0x1_0000_0000

  /** A mathematical integer reduced to Java's 32-bit int range with wrap-around. */
  function WrapInt(v: int): (r: int)
    ensures -TwoTo31 <= r < TwoTo31
    ensures (r - v) % TwoTo32 == 0
  {
    (v + TwoTo31) % TwoTo32 - TwoTo31
  }

  /** Objects.hash(x, y) = 31 * (31 * 1 + x) + y, in 32-bit arithmetic. */
  function HashOf(x: int, y: int): int {
    WrapInt(31 * WrapInt(31 + x) + y)
  }

  class Cell {
    const x: int
    const y: int
    var myColor: MyColor

    constructor (x: int, y: int, myColor: MyColor)
      ensures this.x == x && this.y == y && this.myColor == myColor
    {
      this.x := x;
      this.y := y;
      this.myColor := myColor;
    }

    /** The copy constructor Cell(Cell cell). */
    constructor Copy(cell: Cell)
      ensures x == cell.x && y == cell.y && myColor == cell.myColor
    {
      x := cell.x;
      y := cell.y;
      myColor := cell.myColor;
    }

    function Value(): (v: CellVal)
      reads this
      ensures Coord(v) == (x, y) && v.myColor == myColor
    {
      CellVal(x, y, myColor)
    }

    predicate IsRed()
      reads this
    {
      myColor == Red
    }

    /** Only the colour changes; x and y are constants. */
    method SetMyColor(color: MyColor)
      modifies this`myColor
      ensures myColor == color
    {
      myColor := color;
    }

    function HashCode(): (h: int)
      ensures -TwoTo31 <= h < TwoTo31
    {
      HashOf(x, y)
    }

    /** Cell.equals: the same object, or another Cell with the same coordinates. */
    predicate Equals(other: Cell?) {
      if this == other then true
      else if other == null then false
      else x == other.x && y == other.y
    }
  }

  lemma IsRedMeansRed(c: Cell)
    ensures c.IsRed() <==> c.myColor == Red
  {
  }

  lemma {:induction false} EqualsIgnoresColour(a: Cell, b: Cell)
    ensures a.Equals(b) <==> SameCell(a.Value(), b.Value())
  {
  }

  lemma EqualsIsReflexiveAndSymmetric(a: Cell, b: Cell)
    ensures a.Equals(a)
    ensures a.Equals(b) <==> b.Equals(a)
  {
  }

  lemma EqualCellsHashEqually(a: Cell, b: Cell)
    requires a.Equals(b)
    ensures a.HashCode() == b.HashCode()
  {
  }

  /** CellState: a board cell that also carries a score label for display. */
  class CellState {
    const x: int
    const y: int
    var myColor: MyColor
    var score: string

    /** A new cell is blank with an empty score; its hexagon geometry is not modelled. */
    constructor (x: int, y: int)
      ensures this.x == x && this.y == y
      ensures myColor == Blank && score == ""
    {
      this.x := x;
      this.y := y;
      myColor := Blank;
      score := "";
    }

    method Reset()
      modifies this
      ensures myColor == Blank && score == ""
    {
      myColor := Blank;
      score := "";
    }

    method SetMyColor(color: MyColor)
      modifies this`myColor
      ensures myColor == color
    {
      myColor := color;
    }

    predicate IsBlank()
      reads this
    {
      myColor == Blank
    }

    function GetMyColor(): MyColor
      reads this
    {
      myColor
    }
  }

  lemma CellStateAccessors(c: CellState)
    ensures c.IsBlank() <==> c.GetMyColor() == Blank
    ensures c.GetMyColor() == c.myColor
  {
  }
}
