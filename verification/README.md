# Suguru backtracking solver, modelled in Dafny

A Suguru board is a rectangular grid. Every cell carries the colour of the
block it belongs to and a digit, where 0 means empty and any other digit is a
clue or a placed value. A block of n cells must hold the digits 1..n, and no
two cells that share a block or touch, diagonals included, may hold the same
digit. `solve` fills the board by depth-first backtracking:

- take the first empty cell in row-major order;
- try the digits 1..(size of its block) in increasing order;
- place each digit that `is_valid` accepts and recurse;
- reset the cell to 0 when the recursion fails.

This project models that solver core (`Suguru.py`, lines 111-174) as pure
functions over immutable boards and proves what the search does:

- the scans compute exactly the quantified conditions they stand for;
- on a board that already keeps the rules, the checks accept a nonzero digit
  exactly when placing it keeps the board within the rules;
- a failed search leaves the board as it found it;
- on boards whose clues respect the rules, the search is sound and complete;
- when the clues keep the rules and each clue is at most the size of its
  block, every block of n cells of the solved board holds 1..n exactly once.

Files, one module each:

- `grid.dfy` (`Grid`): cells, boards, positions, writing a digit, the count of empty cells.
- `rules.dfy` (`Rules`): blocks, block sizes, the rules of the puzzle, and what a solution is.
- `checker.dfy` (`Checker`): `find_empty_cell`, `is_valid_in_block`, `is_valid_in_neighbors` and `is_valid`.
- `solver.dfy` (`Solver`): `solve` and its correctness.
- `scenarios.dfy` (`Scenarios`): small boards whose outcome follows from the contracts.

Board contents are values, so `board[r][c][1] = num` becomes
`SetDigit(b, p, num)`. `solve`'s in-place mutation becomes a pair:

- the success flag;
- the board as the search leaves it.

The block colour is a type parameter `B` compared with `==`. It stands for the
hex colour string that `Suguru.py` compares.

Two consequences of the code are worth stating:

- `solve` never checks clues against one another. A full board is reported
  solved whatever it holds (`Scenarios.ConflictingCluesAccepted`), and
  elsewhere a conflicting clue only removes candidates. Soundness and
  completeness are therefore stated for clues that keep the rules.
- The empty 2x2 board made of two column blocks has no solution, because all
  four cells touch one another and only 1 and 2 are available
  (`Scenarios.TwoColumnBlocksFail`).

## Model

| member | source | states |
|---|---|---|
| Grid.SetDigit | Suguru.py:170 | writing a digit changes that one cell's digit, keeps every colour and the shape, and leaves every other cell as it was |
| Grid.SetDigitRestores | Suguru.py:173 | resetting the cell to the digit it held before undoes the write, so the board after a failed attempt equals the board before it |
| Grid.ZeroCountFill | Suguru.py:170-171 | placing a nonzero digit in an empty cell leaves exactly one empty cell fewer, so the recursion terminates |
| Rules.BlockSizeIsCardinality | Suguru.py:120-122 | the per-cell count of `block_size_for_color` equals the number of positions of that colour |
| Rules.BlockSizeColorsOnly | Suguru.py:120-122 | the block size depends on the colours alone, so placing and resetting digits never changes the candidate range |
| Rules.BlockSizePositive | Suguru.py:120-122 | the block of any cell on the board has at least one cell, so the candidate range of an empty cell is never empty |
| Rules.FillsTransitive | Suguru.py:168-171 | a fill of a fill of a board is a fill of it: placements made deeper in the recursion compose |
| Rules.FillsSetDigit | Suguru.py:168-170 | placing a candidate from 1..block size into an empty cell is a fill |
| Rules.FillsItself | Suguru.py:162-164 | the board returned unchanged is a fill of itself |
| Rules.BlockHoldsOneToSize | Suguru.py:159-160 | on a full board that keeps the rules and the candidate ranges, each block of n cells holds exactly the digits 1..n |
| Checker.FindEmptyFrom | Suguru.py:113-117 | the row-major scan from (i, j) returns an empty cell at or after (i, j), and every cell it passed over is filled |
| Checker.FindEmptyCell | Suguru.py:111-117 | the result is the first empty cell in row-major order, and None exactly when the board is full |
| Checker.BlockFreeFrom | Suguru.py:129-133 | the scan from (i, j) succeeds exactly when every other cell of the block holding num lies before (i, j) |
| Checker.IsValidInBlock | Suguru.py:125-133 | false exactly when some cell other than pos, of pos's colour, holds num |
| Checker.NeighborsFreeFrom | Suguru.py:142-148 | the window scan from offset (r, c) succeeds exactly when every on-board neighbour holding num comes before (r, c) |
| Checker.IsValidInNeighbors | Suguru.py:136-148 | false exactly when one of the up to eight on-board cells touching pos holds num |
| Checker.IsValid | Suguru.py:151-153 | true exactly when no other cell of pos's block and no neighbour of pos holds num |
| Checker.ValidIffAssignKeepsConsistent | Suguru.py:169-170 | on a consistent board, `is_valid` accepts a nonzero num exactly when writing it keeps the board consistent |
| Solver.Solve | Suguru.py:156-174 | a failed search returns the board exactly as it received it |
| Solver.TryCandidates | Suguru.py:167-174 | a candidate loop that runs out of candidates leaves the board unchanged |
| Solver.Attempt | Suguru.py:169-173 | a failed turn (rejected candidate, or recursion failed and cell reset to 0) hands back the board unchanged |
| Solver.TryCandidatesFirst | Suguru.py:168-172 | a successful loop returns the result of the smallest candidate whose turn succeeds; every smaller candidate fails |
| Solver.TryCandidatesReaches | Suguru.py:168-174 | if any candidate in the remaining range succeeds, the loop does not return False |
| Solver.SolveFull | Suguru.py:162-164 | a board without empty cells is reported solved and returned unchanged |
| Solver.SolveFills | Suguru.py:156-174 | the search keeps colours and clues, writes only digits up to the block size into empty cells, and on success leaves no cell empty |
| Solver.SolveKeepsConsistent | Suguru.py:168-173 | a search started on a consistent board leaves a consistent board, whether it succeeds or fails |
| Solver.SolveSound | Suguru.py:156-174 | with consistent clues, success returns a solution of the puzzle |
| Solver.SolutionDigitIsValid | Suguru.py:169 | a solution's digit for an empty cell passes `is_valid` on the unsolved board |
| Solver.SolutionAfterStep | Suguru.py:170 | writing a solution's digit into an empty cell leaves a board that solution still solves |
| Solver.SolveComplete | Suguru.py:156-174 | whenever some solution extends the board, `solve` reports success |
| Solver.SolveCorrect | Suguru.py:156-174 | with consistent clues, `solve` succeeds exactly when a solution exists, and then returns one |
| Solver.SolvedBlocksHoldOneToSize | Suguru.py:158-160 | with consistent clues within their block sizes, every block of n cells of the solved board holds 1..n exactly once |
| Scenarios.SingleCellGetsOne | Suguru.py:167-172 | a one-cell board is solved by writing 1 into it |
| Scenarios.TwoColumnBlocksNoSolution | Suguru.py:143-148 | the empty 2x2 board made of two column blocks has no solution |
| Scenarios.TwoColumnBlocksFail | Suguru.py:168-174 | on that board `solve` reports failure and returns the board unchanged |
| Scenarios.ConflictingCluesAccepted | Suguru.py:162-164 | a full board whose two adjacent clues are equal breaks the rules, yet `solve` reports success and returns it unchanged |

## Left out

- OCR of the clue digits (`Suguru.py`:15-59) is left out: it calls image libraries and an OCR engine.
- Colour sampling (62-71) and `image_to_board` (76-106) are left out: they read pixels from an image.
- Drawing the solved board (`draw_board`, 179-234) is left out: it is image output only.
- The command-line entry point (239-252) is left out: it is file and console I/O.
- Non-rectangular boards are excluded by the precondition `Rectangular`. On such boards `Suguru.py` indexes rows by the first row's length and may raise an index error.
- Colours are an arbitrary type with equality, not hex strings. Only their equality is ever used.
- Mutation and aliasing of the board lists are not modelled. Boards are values, so the checks cannot change the board, and `solve`'s result board stands for the board after the in-place search.
- The interpreter's recursion limit is not modelled: `solve` recurses once per empty cell, so a board with more empty cells than that limit raises RecursionError in `Suguru.py`, while the model recurses without bound.
- Solver.Solve: its own contract states only that failure leaves the board unchanged. What success and failure mean is stated by Solver.SolveFills, Solver.SolveSound, Solver.SolveComplete and Solver.SolveCorrect.
- Solver.SolveCorrect: stated only for boards whose clues are consistent with one another, because `solve` never checks clues against one another.
