# Sudoku solver core, modelled in Dafny

This project models the constraint-satisfaction core of a Sudoku generator and
solver (`solver.py`). A board is an m×m grid of integers, with m = n*n for a box
size n of 2, 3 or 4, and 0 marking an empty cell. The core has these parts:

- the validity check `valid`: does `num` at `pos` clash with another cell in
  the same row, column or n×n box;
- two scans: `find_empty` (the first empty cell in row-major order) and
  `count_squares` (the number of filled cells);
- two depth-first backtracking searches that write into the board in place.
  `solve` tries the candidates 1..m in ascending order. `make_board` tries them
  in a freshly shuffled order at every call;
- `generate_board`. It looks up n and the target number of filled cells for a
  (size, difficulty) label pair. It fills a blank board with `make_board`, then
  clears random cells while more than the target remain filled.

Layout:

- `Grid.dfy` (module `SudokuGrid`) is the pure specification over
  `Grid = seq<seq<int>>`. It defines the box origin, the peer relation, the
  clash predicate that `valid` decides, complete / consistent / solved boards,
  and the fill count. It also holds the lemmas about placing and clearing
  cells.
- `Solver.dfy` (module `Solver`) holds the board operations on an
  `array2<int>`. Each one is specified through `Cells(bo)`, the array's contents
  as a `Grid`. `MakeBoard` is the search with a caller-supplied candidate order.
  `Solve` is the same search with the ascending order 1..m at every cell.
- `Generator.dfy` (module `Generator`) holds the label tables, the carving
  pass on a value (`CarveCell`) and over a sequence of picks (`Carve`), the
  same pass on the array (`CarveStep`), the `while` loop of `generate_board`
  as its own method (`CarveDown`), and `GenerateBoard`.
- `Units.dfy` (module `SudokuUnits`) proves that on a solved board every row,
  column and box holds each value 1..m. Consistency already gives "at most
  once"; a pigeonhole count gives "at least once".

The module globals `n` and `m` of `solver.py` are passed explicitly.
Randomness is supplied by the caller:

- `order(k)` is the k-th shuffle of `[1..m]`, required to be a permutation of
  it. `MakeBoard` takes the index of its first draw and returns the index after
  its last draw, so every recursive call uses a fresh shuffle.
- `picks` is the sequence of random cells drawn by the carving loop, each
  inside the board.

The size and difficulty labels are the datatype `Level` = `Easy | Medium | Hard`.

solver.py:15 shuffles inside `make_board`, once at every call that finds an
empty cell, and that is what `MakeBoard` does. The return value of
`make_board` is discarded at solver.py:136, and the model discards it too.
`GenerateBoard` therefore promises a board carved from a solved board, or from
the blank board if the search failed.

## Model

| member | source | states |
|---|---|---|
| `SudokuGrid.BoxStart` | solver.py:64-69 | The box scanned for row (or column) p starts at p//n*n, a multiple of n, contains p, and its n rows (columns) stay inside the m = n*n board. |
| `SudokuGrid.BoxSpan` | solver.py:64-69 | A row i lies in the scanned range [p//n*n, p//n*n + n) exactly when i//n == p//n, so the box loop covers exactly the cells of p's box. |
| `Solver.Valid` | solver.py:49-72 | Returns false exactly when some other cell in pos's row, column or n×n box holds num (both directions; num may be any integer, including 0). |
| `SudokuGrid.SelfExcluded` | solver.py:53-72 | Whatever the cell at pos holds, the check gives the same answer: the cell never counts against itself. |
| `SudokuGrid.FourByFourScenario` | solver.py:49-72 | A concrete 4×4 board is solved. Its top-left 1 passes the check, and after a second 1 is written into row 0 that cell fails it. |
| `Solver.FindEmpty` | solver.py:91-98 | Returns None exactly when no cell is 0. Otherwise it returns (i, j) inside the board with bo[i][j] == 0, and every cell before (i, j) in row-major order is non-zero. |
| `Solver.CountSquares` | solver.py:101-110 | Returns the number of non-zero cells. That count is at most m*m, and equals m*m exactly when the board is full. |
| `SudokuGrid.FilledBound` | solver.py:101-110 | The fill count of a board of equal-length rows is at most rows × width, with equality exactly when no cell is 0. |
| `SudokuGrid.FilledSet` | solver.py:19-24 | Writing a value into one cell changes the fill count by that cell alone: filling an empty cell adds one, clearing a filled cell removes one. |
| `SudokuGrid.PlaceKeepsConsistent` | solver.py:17-19 | Placing a candidate that passed the check into an empty cell keeps a consistent board consistent. |
| `SudokuGrid.ClearKeepsConsistent` | solver.py:140-141 | Clearing any cell keeps a consistent board consistent. |
| `SudokuGrid.ExtendCompletion` | solver.py:17-24 | One search step is sound. If v passed the check at the empty cell, and the board with v placed there was completed, the completion also completes the board from before the placement. |
| `SudokuGrid.CompletionIsSolved` | solver.py:29-46 | A completion of a consistent board with values in 0..m is a solved board: full, values in 1..m, every cell passing the check with its own value. |
| `Solver.Ascending` | solver.py:37 | The candidate list of `solve` has m elements, and element k is k + 1. |
| `Solver.MakeBoard` | solver.py:5-26 | For any supplied candidate shuffles: on True the board is full, keeps every cell filled on entry, and each formerly empty cell holds a value in 1..m that passes the check. On False the board is exactly the entry board. A full board returns True without drawing a shuffle, and every other call draws one. Termination is shown by the number of empty cells. |
| `Solver.Solve` | solver.py:29-46 | Same guarantees with the ascending order. When the entry board was consistent with values in 0..m, a True result is a solved board. A full board returns True and is left unchanged. |
| `Generator.BoxSize` | solver.py:122-132 | The size label selects n between 2 and 4 (2, 3, 4 for Easy, Medium, Hard). |
| `Generator.Target` | solver.py:118-130 | Looks the difficulty up in the table for the size. The target is positive and below the m*m cells of the board. |
| `Generator.TargetOrdering` | solver.py:118-120 | In every table a harder difficulty keeps strictly fewer cells, and at each difficulty a larger board keeps more cells. |
| `Generator.MediumMedium` | solver.py:119-127 | ("Medium", "Medium") gives n = 3 and a target of 30 filled cells. |
| `Generator.CarveCell` | solver.py:140-141 | One carving pass on the board's value. Only cell (x, y) may change, and it ends up 0 exactly when it was already 0 or its value passes the check there. So at most one cell is cleared: the fill count drops by 0 or 1. The result is carved from the input, and a consistent board stays consistent. |
| `Generator.Carve` | solver.py:137-141 | The carving passes over a sequence of picks, in order. The result is carved from the starting board and has the same m×m shape. It is never fuller, and consistency is preserved. |
| `Generator.CarveStep` | solver.py:138-141 | The array update performs `CarveCell` in place: the picked cell is cleared exactly when its current value passes the check there, and nothing else changes. |
| `Generator.CarveDown` | solver.py:137-141 | The carving loop. The array ends as `Carve` of its entry contents over the first `used` picks. Every shorter prefix of the picks left more than the target filled, so the loop stops at the first count at or below the target, or when the picks run out. If the entry board had at least the target filled, at least the target stays filled. |
| `Generator.GenerateBoard` | solver.py:113-143 | Returns a fresh m×m board and n = BoxSize(size). The board is `Carve` of the search's board over the picks used, and the search's board is solved, or blank if the search failed. The result is consistent, with values in 0..m. Carving stops at the first prefix of the picks that leaves at most the target filled. When the search solved the board and carving stopped before the picks ran out, exactly the target number of cells stays filled. |
| `SudokuUnits.SolvedRow` | solver.py:5-26 | Every row of a solved board holds every value 1..m. |
| `SudokuUnits.SolvedColumn` | solver.py:5-26 | Every column of a solved board holds every value 1..m. |
| `SudokuUnits.SolvedBox` | solver.py:5-26 | Every n×n box of a solved board holds every value 1..m. |

## Left out

- `print_board` (solver.py:75-88) and all of GUI.py: console and pygame output, event handling, images, pixel arithmetic and timing.
- The random number generator itself (`random.shuffle`, `random.randint`). Its results are inputs: the shuffles `order(k)` and the carving `picks`. Uniformity of the shuffles is not modelled.
- Solver.Solve: "every cell passes the check" is promised only when the filled cells on entry were already consistent. solver.py:31-33 returns True for any full board, including one with clashing givens. Unconditionally it promises that every cell that was empty on entry passes the check.
- Generator.GenerateBoard: the carving loop runs over a finite supplied sequence of picks, so "at most the target is filled" holds unless the picks ran out first. The Python loop draws until the target is reached, which ends only with probability 1.
- Completeness of `solve` and `make_board` (finding a solution whenever one exists) is not proved. In particular the model does not show that filling the blank board always succeeds.
- Uniqueness of the puzzle's solution. The docstring at solver.py:114 mentions it, but no code checks it.
- Unknown size or difficulty labels (an unbound variable or a `KeyError` in Python) are excluded by the `Level` type.
