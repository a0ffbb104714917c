# newdoku core in Dafny

A model of the Sudoku grid and backtracking solver of `src/lib.rs` in the
newdoku crate, with its behaviour proved.

A grid (`Sudoku`) is 81 cells in row-major order; cell `(x, y)` is at index
`y * 9 + x`. A cell is empty (`None`), a given (`Original(d)`) or a digit placed
by the search (`Edited(d)`). Cell equality compares digits and ignores the tag.

The operations are:

- `from_str` parses text into a grid.
- `try_insert` clones the cells, rejects a digit already present in the row,
  column or 3x3 block of the target, and writes `Edited(num)` into the clone.
- `is_full` tells whether any cell is still empty.
- `solution` searches depth first: it branches on the first empty cell and
  tries the digits 1 to 9 in ascending order.
- `PartialEq for Sudoku` compares two grids cell by cell.

The files follow the structure of the source:

- `cells.dfy` (module `Cells`): `SudokuNum` and its tag-blind equality.
- `grid.dfy` (module `Grid`): the grid, `from_str`, `is_full`, the count of empty
  cells, and grid equality.
- `insertion.dfy` (module `Insertion`): `try_insert`, the `rel_center` closure and
  the block scan.
- `solver.dfy` (module `Solver`): `solution`.

Each loop of the source is modelled twice:
- as a method with a loop of its own: `IsFull`, `Equals`, `TryInsert` with
  `ScanBlock`, and `Solution`;
- as a function on values that states what the loop computes: `Full`,
  `Equivalent`, `Insert`, `BlockHit` and `Solve`.

Each method is proved equal to its function, and the properties of the source
are proved about the functions. `Sudoku` is `Copy` in the source, so a grid is
a value here. `TryInsert` copies it into an `array` and writes the one cell in
place, as the source does.

In these details the model follows the code:

- `try_insert` accepts `num == 0`, because its guard is `num <= 9`.
- Out-of-range arguments to `try_insert` are `assert!` panics in the code. They
  are preconditions here rather than error values.
- Parsing turns the character `'0'` into the given `Original(0)`. A grid with a 0
  in it therefore counts as full wherever the 0 stands.
- A text that does not yield exactly 81 cells makes `from_str` panic on `unwrap`.
  `FromStr` returns `None` for it.

## Model

| member | source | states |
|---|---|---|
| Cells.NumEqIgnoresTag | src/lib.rs:24-37 | `Original(n)` and `Edited(m)` are equal, in any combination of tags, exactly when `n == m` |
| Cells.NumEq | src/lib.rs:24-37 | `SudokuNum::eq` holds between identical values, and on two values with the same tag it coincides with structural equality |
| Cells.CellEq | src/lib.rs:92 | the equality `Option<SudokuNum>` derives holds between identical cells, never between an empty and a filled cell, and coincides with structural equality on filled cells with the same tag |
| Cells.CellEqIsEquivalence | src/lib.rs:24-37 | the tag-blind equality on optional cells is reflexive, symmetric and transitive |
| Cells.HoldsIff | src/lib.rs:92 | the duplicate test `x == Some(Original(num)) \| x == Some(Edited(num))` holds exactly when the cell is filled with digit `num` under either tag |
| Grid.LocOf | src/lib.rs:155-158 | the row-major index `i * 9 + j` of the scan belongs to location `(j, i)`, which is on the board |
| Grid.DropNewlines | src/lib.rs:69 | the filter leaves no line feed and never lengthens the text |
| Grid.DropNewlinesLength | src/lib.rs:69 | the filter removes exactly as many characters as the text holds line feeds |
| Grid.ParseCell | src/lib.rs:70-76 | a character parses to `Some(Original(d))` exactly when it is an ASCII decimal digit `d`, and to `None` otherwise |
| Grid.FromStr | src/lib.rs:65-80 | parsing succeeds exactly when the text holds 81 characters other than line feeds, and cell `k` is the parse of the `k`-th of them |
| Grid.Collect | src/lib.rs:77-79 | the conversion into the fixed 81-cell array succeeds exactly when there are 81 cells, and keeps them in order |
| Grid.DropNewlinesConcat | src/lib.rs:69 | filtering distributes over concatenation |
| Grid.DropNewlinesIdentity | src/lib.rs:69 | a text without line feeds passes the filter unchanged |
| Grid.FromStrIgnoresNewline | src/lib.rs:56-80 | removing a line feed anywhere in the text does not change the parsed grid, nor whether parsing succeeds |
| Grid.FromStrGivensOnly | src/lib.rs:70-76 | every filled cell of a parsed grid is a given `Original(d)` with `d <= 9` |
| Grid.IsFull | src/lib.rs:123-130 | `is_full` returns true exactly when no cell is `None` |
| Grid.EmptyCount | src/lib.rs:123-130 | the number of empty cells is at most the number of cells, and it is zero exactly when no cell is empty |
| Grid.EmptyCountFill | src/lib.rs:119 | writing a value into an empty cell leaves exactly one empty cell fewer |
| Grid.FullIffNoEmpty | src/lib.rs:123-130 | a grid is full exactly when its count of empty cells is zero |
| Grid.Equals | src/lib.rs:182-192 | `Sudoku::eq` returns true exactly when every pair of corresponding cells is equal under the tag-blind cell equality |
| Grid.EquivalentIffErased | src/lib.rs:182-192 | two grids are equal exactly when they have the same digits in the same cells once the tags are erased |
| Grid.EquivalentIsEquivalence | src/lib.rs:182-192 | grid equality is reflexive, symmetric and transitive |
| Insertion.RelCenter | src/lib.rs:102-107 | `rel_center` maps a coordinate to the middle of its 3-block: `origin - origin % 3 + 1`, in the same block, within 1..7 on the board |
| Insertion.InsertError.Message | src/lib.rs:94-114 | every `Err` string of `try_insert` begins with `Duplicate instance already in ` |
| Insertion.MessageInjective | src/lib.rs:94-114 | the three `Err` strings are distinct, so each names one broken rule |
| Insertion.BlockScan | src/lib.rs:109-117 | the nine indices read around the center lie in `[0, 81)`, lie in the block of `loc`, and every cell of that block is one of them |
| Insertion.Insert | src/lib.rs:83-121 | a successful insertion is the input grid with `Some(Edited(num))` written at `loc.1 * 9 + loc.0`; its outcomes are characterised by the lemmas below |
| Insertion.InsertFrom | src/lib.rs:91-121 | from any offset of the shared loop on, a success is the input with `Some(Edited(num))` written at `loc` |
| Insertion.TryInsert | src/lib.rs:83-121 | the method, over a cloned array, returns exactly what `Insert` specifies |
| Insertion.ScanBlock | src/lib.rs:109-117 | the nested loop reports a duplicate exactly when one of the nine scanned cells holds `num` |
| Insertion.InsertOutcome | src/lib.rs:91-117 | the row error is reported exactly when the lowest offending offset hits the row; the column error exactly when it misses the row but hits the column; the block error exactly when no line offends but the block does; success exactly when nothing offends |
| Insertion.InsertFromOutcome | src/lib.rs:91-120 | the same outcome from any offset of the shared loop on, and a success is the input with `Edited(num)` written at `loc` |
| Insertion.InsertOkIff | src/lib.rs:91-117 | insertion succeeds exactly when no cell in the row, column or block of `loc` holds `num` |
| Insertion.InsertOkClear | src/lib.rs:91-117 | after a success, no cell that shares the row, column or block of `loc` holds `num` |
| Insertion.InsertErrConflict | src/lib.rs:91-117 | after an error, some cell that shares the row, column or block of `loc` holds `num` |
| Insertion.InsertFrame | src/lib.rs:89-120 | a success holds `Some(Edited(num))` at `loc.1 * 9 + loc.0` and equals the input at every other index |
| Insertion.InsertShrinks | src/lib.rs:119 | a success at an empty cell leaves one empty cell fewer |
| Insertion.InsertPreservesValid | src/lib.rs:91-120 | a success on a grid with no repeated digit in any row, column or block gives such a grid again |
| Solver.FirstEmpty | src/lib.rs:155-157 | the row-major scan stops at an empty cell, and every cell before it is filled |
| Solver.Solve | src/lib.rs:147-179 | a full grid is returned as it is, and any returned grid is full |
| Solver.TryDigits | src/lib.rs:158-173 | the digit loop at an empty cell fails once the digits are exhausted, and any grid it returns is full |
| Solver.Solution | src/lib.rs:147-179 | the method returns exactly what `Solve` specifies, returns the grid itself when it is full, and any grid it returns is full and keeps every filled cell of the input |
| Solver.SolveSound | src/lib.rs:150-178 | a returned grid is full, keeps every filled cell of the input with its tag, holds `Edited(d)` with `1 <= d <= 9` in every cell that was empty, and has no repeated digit when the input had none |
| Solver.TryDigitsSound | src/lib.rs:158-172 | the same soundness for the digit loop from any digit on |
| Solver.TryDigitsStep | src/lib.rs:158-171 | one turn of the digit loop returns the recursive result when the digit succeeds and moves to the next digit otherwise |
| Solver.TryDigitsSomeIff | src/lib.rs:158-173 | the digit loop from `d` succeeds exactly when some digit from `d` to 9 leads to a full grid |
| Solver.TryDigitsPicksFirst | src/lib.rs:158-173 | the digit loop returns what the smallest succeeding digit leads to |
| Solver.SolveFirstSuccess | src/lib.rs:150-178 | on a grid that is not full, the search branches only on the first empty cell; it succeeds exactly when some digit there leads to a full grid, and then returns what the smallest such digit leads to |

## Left out

- Terminal output in `solution` is not modelled: hiding and showing the cursor, and printing each step. It is I/O and does not affect the result.
- The `step` pause (`thread::sleep`) and the `step` and `quiet` parameters are not modelled. They only pace and enable that output.
- `impl fmt::Display` for `SudokuNum` and `Sudoku` is left out. It is rendering only.
- `src/main.rs` is not part of this model. It handles arguments, reads files and colours output.
- Digits are unbounded naturals, not `u32`. The only values that arise are 0 to 9, so the width never matters.
- `usize` coordinates are also naturals. The `isize` casts of the block scan are exact on the board, as `Insertion.BlockScan` shows.
- The unreachable `_ => panic!` arm of `rel_center` is not modelled: `origin % 3` is always 0, 1 or 2.
- The trailing `None` after the nested loops of `solution` is unreachable. A grid that is not full has an empty cell, which the loops find. The model marks it as dead code.
- Completeness is not proved, i.e. that every solvable puzzle is solved. `Solver.SolveFirstSuccess` states exactly when the search succeeds, but not that a solution exists.
- The doc test's concrete result is not evaluated: the example puzzle solving to the given answer. Evaluating the search on a concrete 81-character puzzle is beyond what the verifier can unfold. The facts proved for every grid are soundness and the first-success characterisation.
