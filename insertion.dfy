/** `Sudoku::try_insert` of src/lib.rs: insertion checked against the row, column and block rules. */
module Insertion {
  import opened Cells
  import opened Grid

  datatype Result<T, E> = Ok(value: T) | Err(error: E)

  /** The three `Err` strings of `try_insert`. */
  datatype InsertError = RowDuplicate | ColDuplicate | BlockDuplicate
  {
    function Message(): (m: string)
      ensures |m| > 30 && m[..30] == "Duplicate instance already in "
    {
      match this
      case RowDuplicate => "Duplicate instance already in row"
      case ColDuplicate => "Duplicate instance already in col"
      case BlockDuplicate => "Duplicate instance already in block"
    }
  }

  /** The three messages differ, so a caller can tell the rule that was broken from the message alone. */
  lemma MessageInjective(e: InsertError, f: InsertError)
    ensures e.Message() == f.Message() ==> e == f
  {
  }

  // ---------------------------------------------------------------------
  // Rows, columns and blocks

  /** Cell `k` lies in the 3x3 block that contains `loc`. */
  predicate InBlock(loc: Loc, k: nat)
  {
    (k / 9) / 3 == loc.1 / 3 && (k % 9) / 3 == loc.0 / 3
  }

  /** Cell `k` shares the row, the column or the block of `loc` (including `loc` itself). */
  predicate Sees(loc: Loc, k: nat)
  {
    k / 9 == loc.1 || k % 9 == loc.0 || InBlock(loc, k)
  }

  /** Two distinct cells that may not hold the same digit. */
  predicate Peers(k: nat, l: nat)
  {
    k != l &&
    (k / 9 == l / 9 || k % 9 == l % 9 || ((k / 9) / 3 == (l / 9) / 3 && (k % 9) / 3 == (l % 9) / 3))
  }

  /** No row, column or block holds a repeated digit among its filled cells. */
  ghost predicate Valid(s: Sudoku)
  {
    forall k, l | 0 <= k < 81 && 0 <= l < 81 && Peers(k, l) && s.xs[k].Some? ::
      !Holds(s.xs[l], Digit(s.xs[k].value))
  }

  // ---------------------------------------------------------------------
  // The rel_center closure and the block scan

  /** `rel_center`: moves a coordinate to the middle of its 3-block. */
  function RelCenter(origin: nat): (c: nat)
    ensures c == origin - origin % 3 + 1
    ensures c / 3 == origin / 3 && c % 3 == 1
    ensures origin < 9 ==> 1 <= c <= 7
  {
    if origin % 3 == 0 then origin + 1
    else if origin % 3 == 1 then origin
    else origin - 1
  }

  function Center(loc: Loc): Loc
  {
    (RelCenter(loc.0), RelCenter(loc.1))
  }

  /** The index `(center.1 + j) * 9 + center.0 + i` read by the block scan. */
  function ScanIndex(center: Loc, i: int, j: int): int
  {
    (center.1 + j) * 9 + center.0 + i
  }

  /** The nine scanned indices lie on the board and are exactly the cells of the block of `loc`. */
  lemma BlockScan(loc: Loc)
    requires loc.0 < 9 && loc.1 < 9
    ensures forall i, j | -1 <= i <= 1 && -1 <= j <= 1 ::
      0 <= ScanIndex(Center(loc), i, j) < 81 && InBlock(loc, ScanIndex(Center(loc), i, j))
    ensures forall k | 0 <= k < 81 && InBlock(loc, k) ::
      exists i, j | -1 <= i <= 1 && -1 <= j <= 1 :: ScanIndex(Center(loc), i, j) == k
  {
    var c := Center(loc);
    forall i, j | -1 <= i <= 1 && -1 <= j <= 1
      ensures 0 <= ScanIndex(c, i, j) < 81 && InBlock(loc, ScanIndex(c, i, j))
    {
      var k := ScanIndex(c, i, j);
      assert 0 <= c.0 + i < 9 && 0 <= c.1 + j < 9;
      assert k / 9 == c.1 + j && k % 9 == c.0 + i;
    }
    forall k | 0 <= k < 81 && InBlock(loc, k)
      ensures exists i, j | -1 <= i <= 1 && -1 <= j <= 1 :: ScanIndex(c, i, j) == k
    {
      var i: int, j: int := (k % 9) % 3 - 1, (k / 9) % 3 - 1;
      assert k % 9 == c.0 + i && k / 9 == c.1 + j;
      assert ScanIndex(c, i, j) == k;
    }
  }

  // ---------------------------------------------------------------------
  // The specification of try_insert

  /** Row `loc.1` holds `num` at column `x`. */
  predicate RowHit(s: Sudoku, loc: Loc, num: nat, x: nat)
    requires loc.1 < 9 && x < 9
  {
    Holds(s.xs[loc.1 * 9 + x], num)
  }

  /** Column `loc.0` holds `num` at row `x`. */
  predicate ColHit(s: Sudoku, loc: Loc, num: nat, x: nat)
    requires loc.0 < 9 && x < 9
  {
    Holds(s.xs[x * 9 + loc.0], num)
  }

  /** Neither test of the shared row/column loop fires for any offset below `x`. */
  predicate LinesClearBelow(s: Sudoku, loc: Loc, num: nat, x: nat)
    requires loc.0 < 9 && loc.1 < 9 && x <= 9
  {
    forall y | 0 <= y < x :: !RowHit(s, loc, num, y) && !ColHit(s, loc, num, y)
  }

  /** The block scan finds `num` at offset `(i, j)` from the center. */
  predicate ScanHit(s: Sudoku, loc: Loc, num: nat, i: int, j: int)
    requires loc.0 < 9 && loc.1 < 9 && -1 <= i <= 1 && -1 <= j <= 1
  {
    Holds(s.xs[ScanIndex(Center(loc), i, j)], num)
  }

  /** The block loops find `num` in one of the nine scanned cells. */
  predicate BlockHit(s: Sudoku, loc: Loc, num: nat)
    requires loc.0 < 9 && loc.1 < 9
  {
    exists i, j | -1 <= i <= 1 && -1 <= j <= 1 :: ScanHit(s, loc, num, i, j)
  }

  /**
   * What `try_insert` returns: the first row or column error in loop order,
   * then the block error, else the grid with `Edited(num)` at `loc`.
   */
  function Insert(s: Sudoku, loc: Loc, num: nat): (r: Result<Sudoku, InsertError>)
    requires loc.0 < 9 && loc.1 < 9 && num <= 9
    ensures r.Ok? ==> r.value == Sudoku(s.xs[Index(loc) := Some(Edited(num))])
  {
    InsertFrom(s, loc, num, 0)
  }

  /** `try_insert` from offset `x` of the shared row/column loop on. */
  function InsertFrom(s: Sudoku, loc: Loc, num: nat, x: nat): (r: Result<Sudoku, InsertError>)
    requires loc.0 < 9 && loc.1 < 9 && num <= 9 && x <= 9
    ensures r.Ok? ==> r.value == Sudoku(s.xs[Index(loc) := Some(Edited(num))])
    // `s` in the measure keeps the verifier from unrolling all nine steps whenever `x` is a literal
    decreases 9 - x, s
  {
    if x == 9 then
      if BlockHit(s, loc, num) then Err(BlockDuplicate)
      else Ok(Sudoku(s.xs[Index(loc) := Some(Edited(num))]))
    else if RowHit(s, loc, num, x) then Err(RowDuplicate)
    else if ColHit(s, loc, num, x) then Err(ColDuplicate)
    else InsertFrom(s, loc, num, x + 1)
  }

  /**
   * `try_insert`: clones the cell array, runs the shared row/column loop, then
   * the block loop around `rel_center`, each returning at the first duplicate,
   * and finally writes `Edited(num)` into the clone.
   */
  method TryInsert(s: Sudoku, loc: Loc, num: nat) returns (r: Result<Sudoku, InsertError>)
    requires loc.0 < 9 && loc.1 < 9 && num <= 9
    ensures r == Insert(s, loc, num)
  {
    var xs := new Cell[81](k => if 0 <= k < 81 then s.xs[k] else None);
    assert xs[..] == s.xs;
    for x := 0 to 9
      invariant InsertFrom(s, loc, num, x) == Insert(s, loc, num)
    {
      if Holds(xs[loc.1 * 9 + x], num) {
        return Err(RowDuplicate);
      }
      if Holds(xs[x * 9 + loc.0], num) {
        return Err(ColDuplicate);
      }
    }
    var hit := ScanBlock(xs, loc, num);
    if hit {
      return Err(BlockDuplicate);
    }
    xs[loc.1 * 9 + loc.0] := Some(Edited(num));
    assert xs[..] == s.xs[Index(loc) := Some(Edited(num))];
    return Ok(Sudoku(xs[..]));
  }

  /**
   * The nested `i`/`j` loop of `try_insert` over the cloned cells, around the
   * center that `rel_center` gives: true at the first scanned cell holding `num`.
   */
  method ScanBlock(xs: array<Cell>, loc: Loc, num: nat) returns (hit: bool)
    requires xs.Length == 81 && loc.0 < 9 && loc.1 < 9
    ensures hit == BlockHit(Sudoku(xs[..]), loc, num)
  {
    ghost var s := Sudoku(xs[..]);
    var center := (RelCenter(loc.0), RelCenter(loc.1));
    assert center == Center(loc);
    for i := -1 to 2
      invariant forall i', j' | -1 <= i' < i && -1 <= j' <= 1 :: !ScanHit(s, loc, num, i', j')
    {
      for j := -1 to 2
        invariant forall i', j' | -1 <= i' < i && -1 <= j' <= 1 :: !ScanHit(s, loc, num, i', j')
        invariant forall j' | -1 <= j' < j :: !ScanHit(s, loc, num, i, j')
      {
        var x := xs[(center.1 + j) * 9 + center.0 + i];
        if Holds(x, num) {
          assert ScanHit(s, loc, num, i, j);
          return true;
        }
      }
    }
    return false;
  }

  // ---------------------------------------------------------------------
  // Properties of try_insert

  /** The reported error is decided by the lowest offending offset, the row test before the column test. */
  lemma InsertOutcome(s: Sudoku, loc: Loc, num: nat)
    requires loc.0 < 9 && loc.1 < 9 && num <= 9
    ensures Insert(s, loc, num) == Err(RowDuplicate) <==>
      exists x | 0 <= x < 9 :: LinesClearBelow(s, loc, num, x) && RowHit(s, loc, num, x)
    ensures Insert(s, loc, num) == Err(ColDuplicate) <==>
      exists x | 0 <= x < 9 :: LinesClearBelow(s, loc, num, x) && !RowHit(s, loc, num, x) && ColHit(s, loc, num, x)
    ensures Insert(s, loc, num) == Err(BlockDuplicate) <==>
      LinesClearBelow(s, loc, num, 9) && BlockHit(s, loc, num)
    ensures Insert(s, loc, num).Ok? <==>
      LinesClearBelow(s, loc, num, 9) && !BlockHit(s, loc, num)
  {
    InsertFromOutcome(s, loc, num, 0);
  }

  lemma {:induction false} InsertFromOutcome(s: Sudoku, loc: Loc, num: nat, from: nat)
    requires loc.0 < 9 && loc.1 < 9 && num <= 9 && from <= 9
    requires LinesClearBelow(s, loc, num, from)
    decreases 9 - from
    ensures InsertFrom(s, loc, num, from) == Err(RowDuplicate) <==>
      exists x | from <= x < 9 :: LinesClearBelow(s, loc, num, x) && RowHit(s, loc, num, x)
    ensures InsertFrom(s, loc, num, from) == Err(ColDuplicate) <==>
      exists x | from <= x < 9 :: LinesClearBelow(s, loc, num, x) && !RowHit(s, loc, num, x) && ColHit(s, loc, num, x)
    ensures InsertFrom(s, loc, num, from) == Err(BlockDuplicate) <==>
      LinesClearBelow(s, loc, num, 9) && BlockHit(s, loc, num)
    ensures InsertFrom(s, loc, num, from).Ok? <==>
      LinesClearBelow(s, loc, num, 9) && !BlockHit(s, loc, num)
    ensures InsertFrom(s, loc, num, from).Ok? ==>
      InsertFrom(s, loc, num, from).value == Sudoku(s.xs[Index(loc) := Some(Edited(num))])
  {
    if from < 9 {
      if RowHit(s, loc, num, from) || ColHit(s, loc, num, from) {
        assert !LinesClearBelow(s, loc, num, 9) by {
          assert from < 9 && (RowHit(s, loc, num, from) || ColHit(s, loc, num, from));
        }
        forall x | from < x <= 9 ensures !LinesClearBelow(s, loc, num, x) {
          assert from < x;
        }
      } else {
        assert LinesClearBelow(s, loc, num, from + 1);
        InsertFromOutcome(s, loc, num, from + 1);
      }
    }
  }

  /** Insertion succeeds exactly when no cell in the row, column or block of `loc` holds `num`. */
  lemma InsertOkIff(s: Sudoku, loc: Loc, num: nat)
    requires loc.0 < 9 && loc.1 < 9 && num <= 9
    ensures Insert(s, loc, num).Ok? <==> forall k | 0 <= k < 81 && Sees(loc, k) :: !Holds(s.xs[k], num)
  {
    if Insert(s, loc, num).Ok? {
      InsertOkClear(s, loc, num);
    } else {
      InsertErrConflict(s, loc, num);
    }
  }

  lemma InsertOkClear(s: Sudoku, loc: Loc, num: nat)
    requires loc.0 < 9 && loc.1 < 9 && num <= 9
    requires Insert(s, loc, num).Ok?
    ensures forall k | 0 <= k < 81 && Sees(loc, k) :: !Holds(s.xs[k], num)
  {
    BlockScan(loc);
    InsertOutcome(s, loc, num);
    forall k | 0 <= k < 81 && Sees(loc, k) ensures !Holds(s.xs[k], num) {
      if k / 9 == loc.1 {
        assert k == loc.1 * 9 + k % 9;
        assert !RowHit(s, loc, num, k % 9);
      } else if k % 9 == loc.0 {
        assert k == (k / 9) * 9 + loc.0;
        assert !ColHit(s, loc, num, k / 9);
      } else {
        var i, j :| -1 <= i <= 1 && -1 <= j <= 1 && ScanIndex(Center(loc), i, j) == k;
        assert !ScanHit(s, loc, num, i, j);
      }
    }
  }

  lemma InsertErrConflict(s: Sudoku, loc: Loc, num: nat)
    requires loc.0 < 9 && loc.1 < 9 && num <= 9
    requires Insert(s, loc, num).Err?
    ensures exists k | 0 <= k < 81 && Sees(loc, k) :: Holds(s.xs[k], num)
  {
    InsertOutcome(s, loc, num);
    if !LinesClearBelow(s, loc, num, 9) {
      var x :| 0 <= x < 9 && (RowHit(s, loc, num, x) || ColHit(s, loc, num, x));
      if RowHit(s, loc, num, x) {
        var k := loc.1 * 9 + x;
        assert k / 9 == loc.1;
        assert Sees(loc, k) && Holds(s.xs[k], num);
      } else {
        var k := x * 9 + loc.0;
        assert k % 9 == loc.0;
        assert Sees(loc, k) && Holds(s.xs[k], num);
      }
    } else {
      BlockScan(loc);
      var i, j :| -1 <= i <= 1 && -1 <= j <= 1 && ScanHit(s, loc, num, i, j);
      var k := ScanIndex(Center(loc), i, j);
      assert Sees(loc, k) && Holds(s.xs[k], num);
    }
  }

  /** A successful insertion changes the one cell at `loc`, to `Edited(num)`, and no other. */
  lemma InsertFrame(s: Sudoku, loc: Loc, num: nat)
    requires loc.0 < 9 && loc.1 < 9 && num <= 9
    requires Insert(s, loc, num).Ok?
    ensures Insert(s, loc, num).value.xs[Index(loc)] == Some(Edited(num))
    ensures forall k | 0 <= k < 81 && k != Index(loc) :: Insert(s, loc, num).value.xs[k] == s.xs[k]
  {
  }

  /** Filling an empty cell by a successful insertion leaves one empty cell fewer. */
  lemma InsertShrinks(s: Sudoku, loc: Loc, num: nat)
    requires loc.0 < 9 && loc.1 < 9 && num <= 9
    requires Insert(s, loc, num).Ok? && s.xs[Index(loc)].None?
    ensures EmptyCount(Insert(s, loc, num).value.xs) + 1 == EmptyCount(s.xs)
  {
    InsertFrame(s, loc, num);
    assert Insert(s, loc, num).value.xs == s.xs[Index(loc) := Some(Edited(num))];
    EmptyCountFill(s.xs, Index(loc), Edited(num));
  }

  /** A successful insertion keeps a valid grid valid. */
  lemma InsertPreservesValid(s: Sudoku, loc: Loc, num: nat)
    requires loc.0 < 9 && loc.1 < 9 && num <= 9
    requires Valid(s) && Insert(s, loc, num).Ok?
    ensures Valid(Insert(s, loc, num).value)
  {
    var r := Insert(s, loc, num).value;
    var p := Index(loc);
    InsertOkIff(s, loc, num);
    InsertFrame(s, loc, num);
    assert p / 9 == loc.1 && p % 9 == loc.0;
    forall k, l | 0 <= k < 81 && 0 <= l < 81 && Peers(k, l) && r.xs[k].Some?
      ensures !Holds(r.xs[l], Digit(r.xs[k].value))
    {
      if k == p {
        assert Sees(loc, l);
        HoldsIff(s.xs[l], num);
      } else if l == p {
        assert Sees(loc, k);
        HoldsIff(s.xs[k], num);
      }
    }
  }
}
