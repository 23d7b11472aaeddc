/** Small boards on which the search's outcome follows from its contracts. */
module Scenarios {
  import opened Grid
  import opened Rules
  import opened Solver

  /** A single empty cell forms a block of size one and is filled with 1. */
  lemma SingleCellGetsOne<B>(x: B)
    ensures Solve([[Cell(x, 0)]]) == (true, [[Cell(x, 1)]])
  {
    var b: Board<B> := [[Cell(x, 0)]];
    var s: Board<B> := [[Cell(x, 1)]];
    assert BlockSize(b, x) == 1 by {
      assert RowCount(b[0], x, 0) == 0 && RowCount(b[0], x, 1) == 1;
      assert RowsCount(b, x, 0) == 0 && RowsCount(b, x, 1) == 1;
    }
    assert Solution(b, s);
    SolveComplete(b, s);
    SolveFills(b);
    var r: Board<B> := Solve(b).1;
    assert FillsCell(b, r, 0, 0);
    assert |r| == 1 && |r[0]| == 1 && r[0][0] == Cell(x, 1);
    assert r[0] == [Cell(x, 1)];
    assert r == [r[0]];
  }

  /** Two columns of two cells, each column its own block, all empty: every
      cell touches the three others, so three of them would need different
      digits from 1..2, and no solution exists. */
  lemma TwoColumnBlocksNoSolution<B>(left: B, right: B, s: Board<B>)
    requires left != right
    ensures !Solution([[Cell(left, 0), Cell(right, 0)], [Cell(left, 0), Cell(right, 0)]], s)
  {
    var b: Board<B> := [[Cell(left, 0), Cell(right, 0)], [Cell(left, 0), Cell(right, 0)]];
    assert BlockSize(b, left) == 2 && BlockSize(b, right) == 2 by {
      PairRowCounts(b[0], left, right);
      assert b[1] == b[0];
      assert RowsCount(b, left, 0) == 0 && RowsCount(b, right, 0) == 0;
      assert RowsCount(b, left, 1) == 1 && RowsCount(b, right, 1) == 1;
    }
    if Fills(b, s) && Full(s) {
      assert FillsCell(b, s, 0, 0) && FillsCell(b, s, 0, 1) && FillsCell(b, s, 1, 1);
      var d00, d01, d11 := s[0][0].digit, s[0][1].digit, s[1][1].digit;
      assert 1 <= d00 <= 2 && 1 <= d01 <= 2 && 1 <= d11 <= 2;
      assert InBounds(s, 0, 0) && InBounds(s, 0, 1) && InBounds(s, 1, 1);
      assert Adjacent(0, 0, 0, 1) && Adjacent(0, 0, 1, 1) && Adjacent(0, 1, 1, 1);
      if d00 == d01 {
        assert Clash(s, 0, 0, 0, 1);
      } else if d00 == d11 {
        assert Clash(s, 0, 0, 1, 1);
      } else {
        assert Clash(s, 0, 1, 1, 1);
      }
    }
  }

  /** On that board the search reports failure and leaves the board as it was. */
  lemma TwoColumnBlocksFail<B>(left: B, right: B)
    requires left != right
    ensures Solve([[Cell(left, 0), Cell(right, 0)], [Cell(left, 0), Cell(right, 0)]])
            == (false, [[Cell(left, 0), Cell(right, 0)], [Cell(left, 0), Cell(right, 0)]])
  {
    var b: Board<B> := [[Cell(left, 0), Cell(right, 0)], [Cell(left, 0), Cell(right, 0)]];
    if Solve(b).0 {
      TwoColumnBlocksNoSolution(left, right, Solve(b).1);
      SolveSound(b);
    }
  }

  lemma PairRowCounts<B>(row: seq<Cell<B>>, left: B, right: B)
    requires left != right && row == [Cell(left, 0), Cell(right, 0)]
    ensures RowCount(row, left, 2) == 1 && RowCount(row, right, 2) == 1
  {
    assert RowCount(row, left, 0) == 0 && RowCount(row, right, 0) == 0;
    assert RowCount(row, left, 1) == 1 && RowCount(row, right, 1) == 0;
  }

  /** Clues are never checked against each other: a full board whose two
      adjacent cells both hold 1 breaks the rules, yet the search reports
      success at once and returns it unchanged. */
  lemma ConflictingCluesAccepted<B>(x: B)
    ensures !Consistent([[Cell(x, 1), Cell(x, 1)]])
    ensures Solve([[Cell(x, 1), Cell(x, 1)]]) == (true, [[Cell(x, 1), Cell(x, 1)]])
  {
    var b: Board<B> := [[Cell(x, 1), Cell(x, 1)]];
    assert Clash(b, 0, 0, 0, 1);
    SolveFull(b);
  }
}
