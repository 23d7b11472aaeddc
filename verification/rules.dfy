/** The Suguru rules: blocks are the sets of cells sharing a colour, a block
    of n cells takes the digits 1..n, and no digit repeats within a block or
    between two cells that touch, diagonals included. */
module Rules {
  import opened Grid

  /** Moore adjacency: row and column each within one, and not the same cell. */
  predicate Adjacent(i: int, j: int, k: int, l: int) {
    -1 <= i - k <= 1 && -1 <= j - l <= 1 && (i != k || j != l)
  }

  /** The cells of block x, as positions. */
  ghost function Block<B>(b: Board<B>, x: B): set<Pos> {
    set i, j | 0 <= i < |b| && 0 <= j < |b[i]| && b[i][j].color == x :: Pos(i, j)
  }

  /** Number of cells of colour x among the first m cells of a row. */
  function RowCount<B(==)>(row: seq<Cell<B>>, x: B, m: nat): nat
    requires m <= |row|
  {
    if m == 0 then 0 else RowCount(row, x, m - 1) + (if row[m - 1].color == x then 1 else 0)
  }

  /** Number of cells of colour x in the first n rows. */
  function RowsCount<B(==)>(b: Board<B>, x: B, n: nat): nat
    requires n <= |b|
  {
    if n == 0 then 0 else RowsCount(b, x, n - 1) + RowCount(b[n - 1], x, |b[n - 1]|)
  }

  /** `block_size_for_color`: the sum, over every cell of every row, of one
      for each cell whose colour is x. */
  function BlockSize<B(==)>(b: Board<B>, x: B): nat {
    RowsCount(b, x, |b|)
  }

  /** Distinct cells (i, j) and (k, l) share a block or touch, and hold the
      same nonzero digit. */
  ghost predicate Clash<B>(b: Board<B>, i: int, j: int, k: int, l: int) {
    && InBounds(b, i, j) && InBounds(b, k, l) && (i != k || j != l)
    && (b[i][j].color == b[k][l].color || Adjacent(i, j, k, l))
    && b[i][j].digit != 0 && b[i][j].digit == b[k][l].digit
  }

  /** The invariant the solver keeps: two distinct nonzero cells that share a
      block or touch hold different digits. */
  ghost predicate Consistent<B>(b: Board<B>) {
    forall i, j, k, l :: !Clash(b, i, j, k, l)
  }

  /** Cell (i, j) of b' keeps b's clue there, or, where b is empty, holds at
      most the size of the cell's block. */
  ghost predicate FillsCell<B>(b: Board<B>, b': Board<B>, i: int, j: int) {
    InBounds(b, i, j) ==>
      && InBounds(b', i, j)
      && (b[i][j].digit != 0 ==> b'[i][j].digit == b[i][j].digit)
      && (b[i][j].digit == 0 ==> b'[i][j].digit <= BlockSize(b, b[i][j].color))
  }

  /** b' arises from b by writing into empty cells only, and only digits
      between 1 and the size of the cell's block; colours never change. */
  ghost predicate Fills<B>(b: Board<B>, b': Board<B>) {
    SameColors(b, b') && forall i, j :: FillsCell(b, b', i, j)
  }

  /** s solves the puzzle b: it keeps b's clues, whatever they are, fills
      every empty cell of b with a digit from 1 to its block size, and no two
      distinct cells that share a block or touch hold the same digit. */
  ghost predicate Solution<B>(b: Board<B>, s: Board<B>) {
    Fills(b, s) && Full(s) && Consistent(s)
  }

  ghost predicate Solvable<B(!new)>(b: Board<B>) {
    exists s :: Solution(b, s)
  }

  lemma {:induction false} RowCountCard<B>(row: seq<Cell<B>>, i: nat, x: B, m: nat)
    requires m <= |row|
    ensures |set j | 0 <= j < m && row[j].color == x :: Pos(i, j)| == RowCount(row, x, m)
    decreases m
  {
    var s := set j | 0 <= j < m && row[j].color == x :: Pos(i, j);
    if m > 0 {
      var s' := set j | 0 <= j < m - 1 && row[j].color == x :: Pos(i, j);
      RowCountCard(row, i, x, m - 1);
      if row[m - 1].color == x {
        assert s == s' + {Pos(i, m - 1)};
        assert Pos(i, m - 1) !in s';
      } else {
        assert s == s';
      }
    } else {
      assert s == {};
    }
  }

  /** The cells of colour x in the first n rows. */
  ghost function RowsBlock<B>(b: Board<B>, x: B, n: nat): set<Pos>
    requires n <= |b|
  {
    set i, j | 0 <= i < n && 0 <= j < |b[i]| && b[i][j].color == x :: Pos(i, j)
  }

  lemma {:induction false} RowsCountCard<B>(b: Board<B>, x: B, n: nat)
    requires n <= |b|
    ensures RowsCount(b, x, n) == |RowsBlock(b, x, n)|
    decreases n
  {
    if n == 0 {
      assert RowsBlock(b, x, n) == {};
    } else {
      var r := n - 1;
      var rowSet := set j | 0 <= j < |b[r]| && b[r][j].color == x :: Pos(r, j);
      RowsCountCard(b, x, r);
      RowCountCard(b[r], r, x, |b[r]|);
      assert RowsBlock(b, x, n) == RowsBlock(b, x, r) + rowSet;
      assert RowsBlock(b, x, r) * rowSet == {} by {
        forall q | q in rowSet ensures q !in RowsBlock(b, x, r) { }
      }
    }
  }

  /** The recursive count of `block_size_for_color` is the number of cells in
      the block. */
  lemma BlockSizeIsCardinality<B>(b: Board<B>, x: B)
    ensures BlockSize(b, x) == |Block(b, x)|
  {
    RowsCountCard(b, x, |b|);
    assert Block(b, x) == RowsBlock(b, x, |b|);
  }

  /** The block size depends on the colours alone, never on the digits. */
  lemma BlockSizeColorsOnly<B>(b: Board<B>, b': Board<B>, x: B)
    requires SameColors(b, b')
    ensures BlockSize(b', x) == BlockSize(b, x)
  {
    RowsCountColorsOnly(b, b', x, |b|);
  }

  lemma {:induction false} RowsCountColorsOnly<B>(b: Board<B>, b': Board<B>, x: B, n: nat)
    requires SameColors(b, b') && n <= |b|
    ensures RowsCount(b', x, n) == RowsCount(b, x, n)
    decreases n
  {
    if n > 0 {
      RowsCountColorsOnly(b, b', x, n - 1);
      RowCountColorsOnly(b[n - 1], b'[n - 1], x, |b[n - 1]|);
    }
  }

  lemma {:induction false} RowCountColorsOnly<B>(row: seq<Cell<B>>, row': seq<Cell<B>>, x: B, m: nat)
    requires |row'| == |row| && m <= |row|
    requires forall j :: 0 <= j < |row| ==> row'[j].color == row[j].color
    ensures RowCount(row', x, m) == RowCount(row, x, m)
    decreases m
  {
    if m > 0 {
      RowCountColorsOnly(row, row', x, m - 1);
    }
  }

  /** Every cell on the board lies in a block of at least one cell. */
  lemma BlockSizePositive<B>(b: Board<B>, p: Pos)
    requires ValidPos(b, p)
    ensures BlockSize(b, At(b, p).color) >= 1
  {
    BlockSizeIsCardinality(b, At(b, p).color);
    assert p in Block(b, At(b, p).color);
  }

  /** Fills composes: a fill of a fill of b is a fill of b. */
  lemma FillsTransitive<B>(b: Board<B>, b1: Board<B>, b2: Board<B>)
    requires Fills(b, b1) && Fills(b1, b2)
    ensures Fills(b, b2)
  {
    forall i, j ensures FillsCell(b, b2, i, j) {
      assert FillsCell(b, b1, i, j) && FillsCell(b1, b2, i, j);
      if InBounds(b, i, j) {
        BlockSizeColorsOnly(b, b1, b[i][j].color);
      }
    }
  }

  /** Every board fills itself. */
  lemma FillsItself<B>(b: Board<B>)
    ensures Fills(b, b)
  {
  }

  /** Writing a digit from 1 to the size of its block into an empty cell is
      a fill. */
  lemma FillsSetDigit<B>(b: Board<B>, p: Pos, d: nat)
    requires ValidPos(b, p) && At(b, p).digit == 0 && d <= BlockSize(b, At(b, p).color)
    ensures Fills(b, SetDigit(b, p, d))
  {
  }

  /** Every digit lies between 1 and the size of its cell's block. */
  ghost predicate InRange<B>(b: Board<B>) {
    forall i, j :: InBounds(b, i, j) ==> 1 <= b[i][j].digit <= BlockSize(b, b[i][j].color)
  }

  /** The digits held by the cells of P. */
  ghost function Digits<B>(b: Board<B>, P: set<Pos>): set<nat>
    requires forall q :: q in P ==> ValidPos(b, q)
  {
    set q | q in P :: At(b, q).digit
  }

  /** The digits a block of n cells must hold: 1..n. */
  ghost function OneTo(n: nat): (r: set<nat>)
    ensures |r| == n
    ensures forall v :: v in r <==> 1 <= v <= n
  {
    if n == 0 then {} else OneTo(n - 1) + {n}
  }

  /** Cells holding pairwise different digits hold as many digits as cells. */
  lemma {:induction false} DigitsCard<B>(b: Board<B>, P: set<Pos>)
    requires forall q :: q in P ==> ValidPos(b, q)
    requires forall q1, q2 :: q1 in P && q2 in P && q1 != q2 ==> At(b, q1).digit != At(b, q2).digit
    ensures |Digits(b, P)| == |P|
    decreases |P|
  {
    if P == {} {
      assert Digits(b, P) == {};
    } else {
      var q :| q in P;
      var P' := P - {q};
      DigitsCard(b, P');
      assert Digits(b, P) == Digits(b, P') + {At(b, q).digit};
    }
  }

  /** A subset is no larger than its superset, and as large only when equal. */
  lemma {:induction false} SubsetCard(A: set<nat>, C: set<nat>)
    requires A <= C
    ensures |A| <= |C|
    ensures |A| == |C| ==> A == C
    decreases |A|
  {
    if A != {} {
      var v :| v in A;
      SubsetCard(A - {v}, C - {v});
      if |A| == |C| {
        assert A == (A - {v}) + {v} && C == (C - {v}) + {v};
      }
    }
  }

  /** On a full board that keeps the rules and the digit ranges, the digits
      of each block of n cells are exactly 1..n, each in one cell. */
  lemma BlockHoldsOneToSize<B>(s: Board<B>, x: B)
    requires Full(s) && Consistent(s) && InRange(s)
    ensures forall q :: q in Block(s, x) ==> ValidPos(s, q)
    ensures Digits(s, Block(s, x)) == OneTo(BlockSize(s, x))
  {
    var P := Block(s, x);
    var n := BlockSize(s, x);
    BlockSizeIsCardinality(s, x);
    forall q1, q2 | q1 in P && q2 in P && q1 != q2
      ensures At(s, q1).digit != At(s, q2).digit
    {
      assert !Clash(s, q1.row, q1.col, q2.row, q2.col);
    }
    DigitsCard(s, P);
    assert Digits(s, P) <= OneTo(n);
    SubsetCard(Digits(s, P), OneTo(n));
  }
}
