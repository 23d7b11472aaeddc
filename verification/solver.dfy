/** The backtracking search of `solve`: take the first empty cell, try the
    digits 1..(size of its block) in increasing order, keep the first one the
    checks accept whose recursive search succeeds, and reset the cell to 0
    after every failed attempt. */
module Solver {
  import opened Grid
  import opened Rules
  import opened Checker

  /** `solve`: the success flag and the board as the search leaves it; a
      failed search hands the board back exactly as it found it. */
  function Solve<B(==)>(b: Board<B>): (res: (bool, Board<B>))
    requires Rectangular(b)
    decreases ZeroCount(b), 2, 0
    ensures !res.0 ==> res.1 == b
  {
    match FindEmptyCell(b)
    case None => (true, b)
    case Some(p) => TryCandidates(b, p, 1, BlockSize(b, At(b, p).color))
  }

  /** The candidate loop of `solve` from candidate num on, for the empty
      cell p whose block has size cells. */
  function TryCandidates<B(==)>(b: Board<B>, p: Pos, num: nat, size: nat): (res: (bool, Board<B>))
    requires Rectangular(b) && ValidPos(b, p) && At(b, p).digit == 0
    requires size == BlockSize(b, At(b, p).color) && 1 <= num <= size + 1
    decreases ZeroCount(b), 1, size + 1 - num
    ensures !res.0 ==> res.1 == b
  {
    if num > size then (false, b)
    else
      var attempt := Attempt(b, p, num);
      if attempt.0 then attempt else TryCandidates(attempt.1, p, num + 1, size)
  }

  /** One turn of the candidate loop: if `is_valid` accepts num at p, write
      it, search on, and on failure reset the cell to 0. */
  function Attempt<B(==)>(b: Board<B>, p: Pos, num: nat): (res: (bool, Board<B>))
    requires Rectangular(b) && ValidPos(b, p) && At(b, p).digit == 0 && num >= 1
    decreases ZeroCount(b), 0, 0
    ensures !res.0 ==> res.1 == b
  {
    if IsValid(b, num, p) then
      var b1 := SetDigit(b, p, num);
      ZeroCountFill(b, p, num);
      var attempt := Solve(b1);
      if attempt.0 then attempt
      else
        SetDigitRestores(b, p, num);
        (false, SetDigit(attempt.1, p, 0))
    else (false, b)
  }

  /** Candidate v succeeds at p: its turn of the candidate loop reports
      success. */
  predicate Works<B(==)>(b: Board<B>, p: Pos, v: nat)
    requires Rectangular(b) && ValidPos(b, p) && At(b, p).digit == 0 && v >= 1
  {
    Attempt(b, p, v).0
  }

  /** A turn works exactly when `is_valid` accepts the candidate and the
      search with it written at p succeeds; it then yields that search's
      result. */
  lemma AttemptResult<B>(b: Board<B>, p: Pos, v: nat)
    requires Rectangular(b) && ValidPos(b, p) && At(b, p).digit == 0 && v >= 1
    ensures Works(b, p, v) <==> IsValid(b, v, p) && Solve(SetDigit(b, p, v)).0
    ensures Works(b, p, v) ==> Attempt(b, p, v) == Solve(SetDigit(b, p, v))
  {
  }

  /** A successful candidate loop returns the search of the smallest
      candidate v from num on that works. */
  lemma {:induction false} TryCandidatesFirst<B>(b: Board<B>, p: Pos, num: nat, size: nat)
    returns (v: nat)
    requires Rectangular(b) && ValidPos(b, p) && At(b, p).digit == 0
    requires size == BlockSize(b, At(b, p).color) && 1 <= num <= size + 1
    requires TryCandidates(b, p, num, size).0
    ensures num <= v <= size && Works(b, p, v)
    ensures TryCandidates(b, p, num, size) == Attempt(b, p, v)
    ensures forall u :: num <= u < v ==> !Works(b, p, u)
    decreases size + 1 - num
  {
    v := num;
    if !Works(b, p, num) {
      v := TryCandidatesFirst(b, p, num + 1, size);
    }
  }

  /** The candidate loop fails only when no candidate from num to size works:
      a working candidate u makes it succeed. */
  lemma {:induction false} TryCandidatesReaches<B>(b: Board<B>, p: Pos, num: nat, size: nat, u: nat)
    requires Rectangular(b) && ValidPos(b, p) && At(b, p).digit == 0
    requires size == BlockSize(b, At(b, p).color) && 1 <= num <= u <= size
    requires Works(b, p, u)
    ensures TryCandidates(b, p, num, size).0
    decreases u - num
  {
    if num < u && !Works(b, p, num) {
      TryCandidatesReaches(b, p, num + 1, size, u);
    }
  }

  /** A full board is solved at once, untouched. */
  lemma SolveFull<B>(b: Board<B>)
    requires Rectangular(b) && Full(b)
    ensures Solve(b) == (true, b)
  {
  }

  /** The search only writes digits into empty cells, each at most the size
      of its block, and reports success only with every cell filled. */
  lemma {:induction false} SolveFills<B>(b: Board<B>)
    requires Rectangular(b)
    ensures Rectangular(Solve(b).1) && Fills(b, Solve(b).1)
    ensures Solve(b).0 ==> Full(Solve(b).1)
    decreases ZeroCount(b)
  {
    var s: Board<B> := Solve(b).1;
    if Solve(b).0 {
      match FindEmptyCell(b)
      case None =>
        FillsItself(b);
      case Some(p) =>
        var size := BlockSize(b, At(b, p).color);
        var v := TryCandidatesFirst(b, p, 1, size);
        AttemptResult(b, p, v);
        var b1 := SetDigit(b, p, v);
        ZeroCountFill(b, p, v);
        SolveFills(b1);
        FillsSetDigit(b, p, v);
        FillsTransitive(b, b1, s);
    } else {
      FillsItself(b);
    }
  }

  /** A search started on a consistent board leaves a consistent board,
      whether it succeeds or fails. */
  lemma {:induction false} SolveKeepsConsistent<B>(b: Board<B>)
    requires Rectangular(b) && Consistent(b)
    ensures Consistent(Solve(b).1)
    decreases ZeroCount(b)
  {
    match FindEmptyCell(b)
    case None =>
    case Some(p) =>
      var size := BlockSize(b, At(b, p).color);
      if TryCandidates(b, p, 1, size).0 {
        var v := TryCandidatesFirst(b, p, 1, size);
        AttemptResult(b, p, v);
        ZeroCountFill(b, p, v);
        ValidIffAssignKeepsConsistent(b, v, p);
        SolveKeepsConsistent(SetDigit(b, p, v));
      }
  }

  /** Clues that respect the rules give a true solution when the search
      succeeds. */
  lemma SolveSound<B>(b: Board<B>)
    requires Rectangular(b) && Consistent(b) && Solve(b).0
    ensures Solution(b, Solve(b).1)
  {
    SolveFills(b);
    SolveKeepsConsistent(b);
  }

  /** With s's digit at p, `is_valid` accepts p on any board that s solves. */
  lemma SolutionDigitIsValid<B>(b: Board<B>, s: Board<B>, p: Pos)
    requires Rectangular(b) && Solution(b, s) && ValidPos(b, p) && At(b, p).digit == 0
    ensures IsValid(b, At(s, p).digit, p)
  {
    var d := At(s, p).digit;
    forall k, l ensures !BlockHit(b, d, p, k, l) && !NeighborHit(b, d, p, k, l) {
      if InBounds(b, k, l) && (k != p.row || l != p.col) && b[k][l].digit != 0 {
        assert FillsCell(b, s, k, l);
        assert Adjacent(k, l, p.row, p.col) ==> Adjacent(p.row, p.col, k, l);
        assert !Clash(s, p.row, p.col, k, l);
      }
    }
  }

  /** Writing s's digit into an empty cell of b leaves a board s still solves. */
  lemma SolutionAfterStep<B>(b: Board<B>, s: Board<B>, p: Pos)
    requires Rectangular(b) && Solution(b, s) && ValidPos(b, p) && At(b, p).digit == 0
    requires At(s, p).digit <= BlockSize(b, At(b, p).color)
    ensures Solution(SetDigit(b, p, At(s, p).digit), s)
  {
    var b1 := SetDigit(b, p, At(s, p).digit);
    forall i, j ensures FillsCell(b1, s, i, j) {
      assert FillsCell(b, s, i, j);
      if InBounds(b, i, j) {
        BlockSizeColorsOnly(b, b1, b[i][j].color);
      }
    }
  }

  /** The search is complete: whenever some solution extends b, `solve`
      reports success. */
  lemma {:induction false} SolveComplete<B>(b: Board<B>, s: Board<B>)
    requires Rectangular(b) && Solution(b, s)
    ensures Solve(b).0
    decreases ZeroCount(b)
  {
    match FindEmptyCell(b)
    case None =>
    case Some(p) =>
      var size := BlockSize(b, At(b, p).color);
      var d := At(s, p).digit;
      assert FillsCell(b, s, p.row, p.col);
      SolutionDigitIsValid(b, s, p);
      SolutionAfterStep(b, s, p);
      ZeroCountFill(b, p, d);
      SolveComplete(SetDigit(b, p, d), s);
      AttemptResult(b, p, d);
      TryCandidatesReaches(b, p, 1, size, d);
  }

  /** On a board whose clues respect the rules, `solve` succeeds exactly when
      the puzzle has a solution, and then returns one. */
  lemma SolveCorrect<B(!new)>(b: Board<B>)
    requires Rectangular(b) && Consistent(b)
    ensures Solve(b).0 <==> Solvable(b)
    ensures Solve(b).0 ==> Solution(b, Solve(b).1)
  {
    if Solve(b).0 {
      SolveSound(b);
    } else if Solvable(b) {
      var s :| Solution(b, s);
      SolveComplete(b, s);
    }
  }

  /** If moreover every clue fits its block, each block of n cells of the
      solved board holds the digits 1..n, each exactly once. */
  lemma SolvedBlocksHoldOneToSize<B>(b: Board<B>, x: B)
    requires Rectangular(b) && Consistent(b) && Solve(b).0
    requires forall i, j :: InBounds(b, i, j) ==> b[i][j].digit <= BlockSize(b, b[i][j].color)
    ensures forall q :: q in Block(Solve(b).1, x) ==> ValidPos(Solve(b).1, q)
    ensures Digits(Solve(b).1, Block(Solve(b).1, x)) == OneTo(BlockSize(b, x))
  {
    var s: Board<B> := Solve(b).1;
    SolveSound(b);
    forall i, j | InBounds(s, i, j)
      ensures 1 <= s[i][j].digit <= BlockSize(s, s[i][j].color)
    {
      assert FillsCell(b, s, i, j);
      BlockSizeColorsOnly(b, s, b[i][j].color);
    }
    BlockSizeColorsOnly(b, s, x);
    BlockHoldsOneToSize(s, x);
  }
}
