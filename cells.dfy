/** Cell values of a Sudoku grid: `SudokuNum` and the `Option` around it (src/lib.rs). */
module Cells {

  datatype Option<T> = None | Some(value: T)

  /** A digit in a cell: given in the puzzle (`Original`) or placed by the search (`Edited`). */
  datatype SudokuNum = Original(nat) | Edited(nat)

  /** One of the 81 cells of a grid; `None` is an empty cell. */
  type Cell = Option<SudokuNum>

  /** The digit a cell value carries, whatever its tag. */
  function Digit(v: SudokuNum): nat
  {
    match v
    case Original(x) => x
    case Edited(x) => x
  }

  /** `impl PartialEq for SudokuNum`: compares the digits and ignores the tags. */
  predicate NumEq(a: SudokuNum, b: SudokuNum): (r: bool)
    ensures a == b ==> r
    ensures a.Original? == b.Original? ==> (r <==> a == b)
  {
    Digit(a) == Digit(b)
  }

  /** The equality Rust derives for `Option<SudokuNum>`, built on `NumEq`. */
  predicate CellEq(a: Cell, b: Cell): (r: bool)
    ensures a == b ==> r
    ensures r ==> (a.None? <==> b.None?)
    ensures a.Some? && b.Some? && a.value.Original? == b.value.Original? ==> (r <==> a == b)
  {
    if a.None? then b.None? else b.Some? && NumEq(a.value, b.value)
  }

  /** The duplicate test of `try_insert`: the cell equals `Some(Original(num))` or `Some(Edited(num))`. */
  predicate Holds(c: Cell, num: nat)
  {
    CellEq(c, Some(Original(num))) || CellEq(c, Some(Edited(num)))
  }

  lemma NumEqIgnoresTag(n: nat, m: nat)
    ensures NumEq(Original(n), Edited(m)) <==> n == m
    ensures NumEq(Edited(n), Original(m)) <==> n == m
    ensures NumEq(Original(n), Original(m)) <==> n == m
    ensures NumEq(Edited(n), Edited(m)) <==> n == m
  {
  }

  /** Tag-blind equality is an equivalence relation on cells. */
  lemma CellEqIsEquivalence(a: Cell, b: Cell, c: Cell)
    ensures CellEq(a, a)
    ensures CellEq(a, b) ==> CellEq(b, a)
    ensures CellEq(a, b) && CellEq(b, c) ==> CellEq(a, c)
  {
  }

  /** A cell "holds" `num` exactly when it is filled with `num` under either tag. */
  lemma HoldsIff(c: Cell, num: nat)
    ensures Holds(c, num) <==> c == Some(Original(num)) || c == Some(Edited(num))
    ensures Holds(c, num) <==> c.Some? && Digit(c.value) == num
  {
  }
}
