/**
 * Helper.convertBoardToString: a board written out row by row, one letter
 * per cell, 'R' for red, 'B' for blue and 'L' for a blank cell.
 */
module Helper {
  import opened Boards

  function CharOf(c: MyColor): (ch: char)
    ensures ch == 'R' <==> c == Red
    ensures ch == 'B' <==> c == Blue
    ensures ch == 'L' <==> c == Blank
  {
    match c
    case Red => 'R'
    case Blue => 'B'
    case Blank => 'L'
  }

  /** The letters of the first k cells of a row. */
  function RowString(row: seq<MyColor>, k: int): string
    requires 0 <= k <= |row|
  {
    if k == 0 then [] else RowString(row, k - 1) + [CharOf(row[k - 1])]
  }

  /** The letters of the first k rows of a board, n cells of each. */
  function BoardString(b: Board, n: int, k: int): string
    requires 0 <= k <= |b| && 0 <= n
    requires forall x :: 0 <= x < |b| ==> n <= |b[x]|
  {
    if k == 0 then [] else BoardString(b, n, k - 1) + RowString(b[k - 1], n)
  }

  /** The string of the n-by-n board b. */
  function Encode(b: Board, n: nat): string
    requires IsBoard(b, n)
  {
    BoardString(b, n, n)
  }

  lemma {:induction false} RowStringIndex(row: seq<MyColor>, k: int)
    requires 0 <= k <= |row|
    ensures |RowString(row, k)| == k
    ensures forall y :: 0 <= y < k ==> RowString(row, k)[y] == CharOf(row[y])
  {
    if k > 0 {
      RowStringIndex(row, k - 1);
    }
  }

  lemma {:induction false} BoardStringLength(b: Board, n: int, k: int)
    requires 0 <= k <= |b| && 0 <= n
    requires forall x :: 0 <= x < |b| ==> n <= |b[x]|
    ensures |BoardString(b, n, k)| == k * n
  {
    if k > 0 {
      BoardStringLength(b, n, k - 1);
      RowStringIndex(b[k - 1], n);
      assert (k - 1) * n + n == k * n;
    }
  }

  /** The letter of cell (x, y) sits at x*n+y once row x is written. */
  lemma {:induction false} BoardStringAt(b: Board, n: int, k: int, x: int, y: int)
    requires 0 <= k <= |b| && 0 <= n
    requires forall x :: 0 <= x < |b| ==> n <= |b[x]|
    requires 0 <= x < k && 0 <= y < n
    ensures 0 <= x * n + y < |BoardString(b, n, k)|
    ensures BoardString(b, n, k)[x * n + y] == CharOf(b[x][y])
  {
    BoardStringLength(b, n, k - 1);
    BoardStringLength(b, n, k);
    RowStringIndex(b[k - 1], n);
    var pre := BoardString(b, n, k - 1);
    EarlierRow(x, y, n, k);
    if x < k - 1 {
      BoardStringAt(b, n, k - 1, x, y);
      assert BoardString(b, n, k)[x * n + y] == pre[x * n + y];
    } else {
      assert x * n + y == |pre| + y;
    }
  }

  /** A cell of row x < m lies before the first cell of row m. */
  lemma EarlierRow(x: int, y: int, n: int, m: int)
    requires 0 <= x < m && 0 <= y < n
    ensures x * n + y < m * n
  {
    MulNonneg(m - x - 1, n);
    assert m * n - (x * n + n) == (m - x - 1) * n;
  }

  /**
   * The string holds n*n letters, and the letter at x*n+y, where x is the
   * outer index, names the colour of cell (x, y).
   */
  lemma EncodeAt(b: Board, n: nat, x: int, y: int)
    requires IsBoard(b, n) && 0 <= x < n && 0 <= y < n
    ensures |Encode(b, n)| == n * n
    ensures 0 <= x * n + y < n * n && Encode(b, n)[x * n + y] == CharOf(b[x][y])
  {
    BoardStringLength(b, n, n);
    BoardStringAt(b, n, n, x, y);
  }

  function ColorOf(ch: char): MyColor {
    if ch == 'R' then Red else if ch == 'B' then Blue else Blank
  }

  /** Reads an n-by-n board back from its string. */
  function Decode(s: string, n: nat): (b: Board)
    requires |s| == n * n
    ensures IsBoard(b, n)
  {
    seq(n, x requires 0 <= x < n =>
      seq(n, y requires 0 <= y < n =>
        assert 0 <= x * n + y < n * n by { IndexInRange(x, y, n); }
        ColorOf(s[x * n + y])))
  }

  /** Decoding the string gives back the board. */
  lemma DecodeEncode(b: Board, n: nat)
    requires IsBoard(b, n)
    ensures |Encode(b, n)| == n * n && Decode(Encode(b, n), n) == b
  {
    BoardStringLength(b, n, n);
    var e := Encode(b, n);
    var d := Decode(e, n);
    forall x | 0 <= x < n ensures d[x] == b[x] {
      forall y | 0 <= y < n ensures d[x][y] == b[x][y] {
        EncodeAt(b, n, x, y);
        assert d[x][y] == ColorOf(e[x * n + y]);
        assert ColorOf(CharOf(b[x][y])) == b[x][y];
      }
    }
  }

  /** Distinct boards give distinct strings. */
  lemma EncodeInjective(a: Board, b: Board, n: nat)
    requires IsBoard(a, n) && IsBoard(b, n)
    requires Encode(a, n) == Encode(b, n)
    ensures a == b
  {
    DecodeEncode(a, n);
    DecodeEncode(b, n);
  }

  /** convertBoardToString: the nested loops append one letter per cell; the board is only read. */
  method ConvertBoardToString(board: array2<MyColor>, n: nat) returns (s: string)
    requires board.Length0 == n && board.Length1 == n
    ensures s == Encode(Snapshot(board), n)
  {
    ghost var b := Snapshot(board);
    s := [];
    for x := 0 to n
      invariant s == BoardString(b, n, x)
    {
      ghost var before := s;
      for y := 0 to n
        invariant s == before + RowString(b[x], y)
      {
        var ch := if board[x, y] == Red then 'R' else if board[x, y] == Blue then 'B' else 'L';
        s := s + [ch];
      }
    }
  }
}
