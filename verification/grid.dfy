/** The Suguru board: a rectangular grid of cells, each carrying the colour of
    the block it belongs to and a digit, where 0 means the cell is empty. */
module Grid {

  datatype Option<T> = None | Some(value: T)

  /** One cell: the block colour and the current digit (0 = empty). */
  datatype Cell<B> = Cell(color: B, digit: nat)

  /** Rows of cells, addressed row-major by (row, column), both zero-based. */
  type Board<B> = seq<seq<Cell<B>>>

  datatype Pos = Pos(row: nat, col: nat)

  /** Every row is as long as the first one. The board without rows is
      rectangular too: the scans below never look at its first row. */
  predicate Rectangular<B>(b: Board<B>) {
    forall i :: 0 <= i < |b| ==> |b[i]| == |b[0]|
  }

  /** The number of columns, read off the first row as the solver does. */
  function Width<B>(b: Board<B>): nat {
    if |b| == 0 then 0 else |b[0]|
  }

  predicate InBounds<B>(b: Board<B>, i: int, j: int) {
    0 <= i < |b| && 0 <= j < |b[i]|
  }

  predicate ValidPos<B>(b: Board<B>, p: Pos) {
    InBounds(b, p.row, p.col)
  }

  function At<B>(b: Board<B>, p: Pos): Cell<B>
    requires ValidPos(b, p)
  {
    b[p.row][p.col]
  }

  /** Cell (i, j) comes strictly before p in row-major order. */
  predicate Before(i: int, j: int, p: Pos) {
    i < p.row || (i == p.row && j < p.col)
  }

  /** The two boards have the same shape and the same colour in every cell. */
  ghost predicate SameColors<B>(b: Board<B>, b': Board<B>) {
    && |b'| == |b|
    && (forall i :: 0 <= i < |b| ==> |b'[i]| == |b[i]|)
    && (forall i, j :: InBounds(b, i, j) ==> b'[i][j].color == b[i][j].color)
  }

  /** No cell is empty. */
  ghost predicate Full<B>(b: Board<B>) {
    forall i, j :: InBounds(b, i, j) ==> b[i][j].digit != 0
  }

  /** Writes digit d into the cell at p: `board[r][c][1] = d`. */
  function SetDigit<B>(b: Board<B>, p: Pos, d: nat): (b': Board<B>)
    requires ValidPos(b, p)
    ensures SameColors(b, b')
    ensures Rectangular(b) ==> Rectangular(b')
    ensures At(b', p).digit == d
    ensures forall i, j :: InBounds(b, i, j) && (i != p.row || j != p.col) ==> b'[i][j] == b[i][j]
  {
    b[p.row := b[p.row][p.col := Cell(b[p.row][p.col].color, d)]]
  }

  /** Writing back the digit a cell already held gives the same board; in
      particular resetting a tentatively filled cell to 0 undoes the write. */
  lemma SetDigitRestores<B>(b: Board<B>, p: Pos, d: nat)
    requires ValidPos(b, p)
    ensures SetDigit(SetDigit(b, p, d), p, At(b, p).digit) == b
  {
    var b2 := SetDigit(SetDigit(b, p, d), p, At(b, p).digit);
    assert b2[p.row] == b[p.row];
  }

  /** Number of empty cells in a row. */
  function RowZeros<B>(row: seq<Cell<B>>): nat {
    if |row| == 0 then 0
    else RowZeros(row[..|row| - 1]) + (if row[|row| - 1].digit == 0 then 1 else 0)
  }

  /** Number of empty cells on the board: the solver's termination measure. */
  function ZeroCount<B>(b: Board<B>): nat {
    if |b| == 0 then 0 else ZeroCount(b[..|b| - 1]) + RowZeros(b[|b| - 1])
  }

  lemma {:induction false} RowZerosFill<B>(row: seq<Cell<B>>, j: nat, c: Cell<B>)
    requires j < |row| && row[j].digit == 0 && c.digit != 0
    ensures RowZeros(row[j := c]) + 1 == RowZeros(row)
    decreases |row|
  {
    var n := |row| - 1;
    assert row[j := c][..n] == if j < n then row[..n][j := c] else row[..n];
    if j < n {
      RowZerosFill(row[..n], j, c);
    }
  }

  /** Filling an empty cell with a nonzero digit removes exactly one empty cell. */
  lemma {:induction false} ZeroCountFill<B>(b: Board<B>, p: Pos, d: nat)
    requires ValidPos(b, p) && At(b, p).digit == 0 && d != 0
    ensures ZeroCount(SetDigit(b, p, d)) + 1 == ZeroCount(b)
    decreases |b|
  {
    var n := |b| - 1;
    var b' := SetDigit(b, p, d);
    if p.row < n {
      assert b'[..n] == SetDigit(b[..n], p, d);
      ZeroCountFill(b[..n], p, d);
    } else {
      assert b'[..n] == b[..n];
      RowZerosFill(b[n], p.col, Cell(b[n][p.col].color, d));
    }
  }
}
