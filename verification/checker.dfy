/** The solver's three scans: the next empty cell, and the two checks that a
    candidate digit clashes with nothing in its block or its neighbourhood. */
module Checker {
  import opened Grid
  import opened Rules

  /** Row-major scan for an empty cell starting at (i, j): the loops of
      `find_empty_cell`, the column loop bounded by the first row's length. */
  function FindEmptyFrom<B>(b: Board<B>, i: nat, j: nat): (r: Option<Pos>)
    requires Rectangular(b) && i <= |b| && j <= Width(b)
    decreases |b| - i, Width(b) - j
    ensures r.Some? ==> ValidPos(b, r.value) && At(b, r.value).digit == 0
    ensures r.Some? ==> !Before(r.value.row, r.value.col, Pos(i, j))
    ensures forall k, l :: InBounds(b, k, l) && !Before(k, l, Pos(i, j)) && (r.Some? ==> Before(k, l, r.value))
              ==> b[k][l].digit != 0
  {
    if i == |b| then None
    else if j == Width(b) then FindEmptyFrom(b, i + 1, 0)
    else if b[i][j].digit == 0 then Some(Pos(i, j))
    else FindEmptyFrom(b, i, j + 1)
  }

  /** `find_empty_cell`: the first empty cell in row-major order, or None
      exactly when the board is full. */
  function FindEmptyCell<B>(b: Board<B>): (r: Option<Pos>)
    requires Rectangular(b)
    ensures r.Some? ==> ValidPos(b, r.value) && At(b, r.value).digit == 0
    ensures r.Some? ==> forall k, l :: InBounds(b, k, l) && Before(k, l, r.value) ==> b[k][l].digit != 0
    ensures r.None? <==> Full(b)
  {
    FindEmptyFrom(b, 0, 0)
  }

  /** Cell (k, l) is another cell of p's block and holds num. */
  predicate BlockHit<B(==)>(b: Board<B>, num: nat, p: Pos, k: int, l: int) {
    && ValidPos(b, p) && InBounds(b, k, l) && (k != p.row || l != p.col)
    && b[k][l].color == At(b, p).color && b[k][l].digit == num
  }

  /** Cell (k, l) touches p and holds num. */
  predicate NeighborHit<B>(b: Board<B>, num: nat, p: Pos, k: int, l: int) {
    InBounds(b, k, l) && Adjacent(k, l, p.row, p.col) && b[k][l].digit == num
  }

  /** Row-major scan from (i, j) for a cell other than p, of p's colour,
      holding num: the loops of `is_valid_in_block`. */
  function BlockFreeFrom<B(==)>(b: Board<B>, num: nat, p: Pos, i: nat, j: nat): (ok: bool)
    requires Rectangular(b) && ValidPos(b, p) && i <= |b| && j <= Width(b)
    decreases |b| - i, Width(b) - j
    ensures ok <==> forall k, l :: BlockHit(b, num, p, k, l) ==> Before(k, l, Pos(i, j))
  {
    if i == |b| then true
    else if j == Width(b) then BlockFreeFrom(b, num, p, i + 1, 0)
    else if (i != p.row || j != p.col) && b[i][j].color == At(b, p).color && b[i][j].digit == num then
      assert BlockHit(b, num, p, i, j);
      false
    else BlockFreeFrom(b, num, p, i, j + 1)
  }

  /** `is_valid_in_block`: false exactly when some other cell of p's block
      holds num; the digit at p itself is not looked at. */
  function IsValidInBlock<B(==)>(b: Board<B>, num: nat, p: Pos): (ok: bool)
    requires Rectangular(b) && ValidPos(b, p)
    ensures !ok <==> exists k, l :: BlockHit(b, num, p, k, l)
  {
    BlockFreeFrom(b, num, p, 0, 0)
  }

  /** Scan of the 3x3 window around p from offset (r, c) onwards, skipping
      cells off the board and p itself: the loops of `is_valid_in_neighbors`. */
  function NeighborsFreeFrom<B>(b: Board<B>, num: nat, p: Pos, r: int, c: int): (ok: bool)
    requires Rectangular(b) && ValidPos(b, p)
    requires p.row - 1 <= r <= p.row + 2 && p.col - 1 <= c <= p.col + 2
    decreases p.row + 2 - r, p.col + 2 - c
    ensures ok <==> forall k, l :: NeighborHit(b, num, p, k, l) ==> k < r || (k == r && l < c)
  {
    if r == p.row + 2 then true
    else if c == p.col + 2 then NeighborsFreeFrom(b, num, p, r + 1, p.col - 1)
    else if 0 <= r < |b| && 0 <= c < Width(b) && (r != p.row || c != p.col) && b[r][c].digit == num then
      assert NeighborHit(b, num, p, r, c);
      false
    else NeighborsFreeFrom(b, num, p, r, c + 1)
  }

  /** `is_valid_in_neighbors`: false exactly when one of the up to eight
      cells touching p holds num. */
  function IsValidInNeighbors<B>(b: Board<B>, num: nat, p: Pos): (ok: bool)
    requires Rectangular(b) && ValidPos(b, p)
    ensures !ok <==> exists k, l :: NeighborHit(b, num, p, k, l)
  {
    NeighborsFreeFrom(b, num, p, p.row - 1, p.col - 1)
  }

  /** `is_valid`: num clashes with no cell that shares p's block or touches p. */
  function IsValid<B(==)>(b: Board<B>, num: nat, p: Pos): (ok: bool)
    requires Rectangular(b) && ValidPos(b, p)
    ensures ok <==> forall k, l :: !BlockHit(b, num, p, k, l) && !NeighborHit(b, num, p, k, l)
  {
    IsValidInBlock(b, num, p) && IsValidInNeighbors(b, num, p)
  }

  /** On a consistent board, writing a nonzero num at p keeps the board
      consistent exactly when `is_valid` accepts it there. */
  lemma ValidIffAssignKeepsConsistent<B>(b: Board<B>, num: nat, p: Pos)
    requires Rectangular(b) && ValidPos(b, p) && Consistent(b) && num != 0
    ensures IsValid(b, num, p) <==> Consistent(SetDigit(b, p, num))
  {
    var b': Board<B> := SetDigit(b, p, num);
    if IsValid(b, num, p) {
      forall i: int, j: int, k: int, l: int ensures !Clash(b', i, j, k, l) {
        if InBounds(b', i, j) && InBounds(b', k, l) && (i != k || j != l) {
          if i == p.row && j == p.col {
            assert b'[k][l] == b[k][l];
            assert !BlockHit(b, num, p, k, l) && !NeighborHit(b, num, p, k, l);
          } else if k == p.row && l == p.col {
            assert b'[i][j] == b[i][j];
            assert Adjacent(i, j, k, l) ==> Adjacent(i, j, p.row, p.col);
            assert !BlockHit(b, num, p, i, j) && !NeighborHit(b, num, p, i, j);
          } else {
            assert b'[i][j] == b[i][j] && b'[k][l] == b[k][l];
            assert !Clash(b, i, j, k, l);
          }
        }
      }
    } else {
      var k: int, l: int :| BlockHit(b, num, p, k, l) || NeighborHit(b, num, p, k, l);
      assert b'[k][l] == b[k][l];
      assert Adjacent(k, l, p.row, p.col) ==> Adjacent(p.row, p.col, k, l);
      assert Clash(b', p.row, p.col, k, l);
    }
  }
}
