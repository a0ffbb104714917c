/** `Sudoku::solution` of src/lib.rs: depth-first backtracking over the first empty cell. */
module Solver {
  import opened Cells
  import opened Grid
  import opened Insertion

  // ---------------------------------------------------------------------
  // The specification of solution

  /** The first empty cell at or after `from` in row-major order, or `|xs|` when there is none. */
  function FirstEmpty(xs: seq<Cell>, from: nat): (k: nat)
    requires from <= |xs|
    decreases |xs| - from
    ensures from <= k <= |xs|
    ensures k < |xs| ==> xs[k].None?
    ensures forall t | from <= t < k :: xs[t].Some?
  {
    if from == |xs| then from
    else if xs[from].None? then from
    else FirstEmpty(xs, from + 1)
  }

  /** What `solution` returns, ignoring its printing and sleeping. */
  function Solve(s: Sudoku): (r: Option<Sudoku>)
    decreases EmptyCount(s.xs), 1, 0
    ensures Full(s) ==> r == Some(s)
    ensures r.Some? ==> Full(r.value)
  {
    if Full(s) then Some(s)
    else TryDigits(s, FirstEmpty(s.xs, 0), 1)
  }

  /**
   * The digit loop at the empty cell `k`: tries `d`, `d + 1`, ..., 9 through
   * `try_insert`, recurses on each success and keeps the first full result.
   */
  function TryDigits(s: Sudoku, k: nat, d: nat): (r: Option<Sudoku>)
    requires k < 81 && s.xs[k].None? && 1 <= d <= 10
    decreases EmptyCount(s.xs), 0, 10 - d
    ensures d == 10 ==> r.None?
    ensures r.Some? ==> Full(r.value)
  {
    if d == 10 then None
    else
      match Insert(s, LocOf(k), d)
      case Err(_) => TryDigits(s, k, d + 1)
      case Ok(next) =>
        InsertShrinks(s, LocOf(k), d);
        var sub := Solve(next);
        if sub.Some? then sub else TryDigits(s, k, d + 1)
  }

  /**
   * `solution`: returns a full grid at once; otherwise scans rows `i` and
   * columns `j` for the first empty cell, tries the digits 1 to 9 there,
   * recursing on each successful insertion, and gives up after the ninth.
   */
  method Solution(s: Sudoku) returns (r: Option<Sudoku>)
    decreases EmptyCount(s.xs)
    ensures r == Solve(s)
    ensures Full(s) ==> r == Some(s)
    ensures r.Some? ==> Full(r.value) && Extends(s, r.value)
  {
    var full := IsFull(s);
    if full {
      return Some(s);
    }
    for i := 0 to 9
      invariant forall t | 0 <= t < i * 9 :: s.xs[t].Some?
    {
      for j := 0 to 9
        invariant forall t | 0 <= t < i * 9 + j :: s.xs[t].Some?
      {
        if s.xs[i * 9 + j].None? {
          ghost var k := i * 9 + j;
          assert FirstEmpty(s.xs, 0) == k;
          assert LocOf(k) == (j, i);
          for x := 1 to 10
            invariant TryDigits(s, k, x) == Solve(s)
          {
            var attempt := TryInsert(s, (j, i), x);
            if attempt.Ok? {
              InsertShrinks(s, (j, i), x);
              var sub := Solution(attempt.value);
              if sub.Some? {
                SolveSound(s);
                return sub;
              }
            }
          }
          return None;
        }
      }
    }
    assert false;
  }

  // ---------------------------------------------------------------------
  // Properties of solution

  /** Every filled cell of `s` is still in `r`, with its tag. */
  ghost predicate Extends(s: Sudoku, r: Sudoku)
  {
    forall k | 0 <= k < 81 :: s.xs[k].Some? ==> r.xs[k] == s.xs[k]
  }

  /** Every cell that `s` leaves empty holds in `r` a digit 1 to 9 placed by the search. */
  ghost predicate Placed(s: Sudoku, r: Sudoku)
  {
    forall k | 0 <= k < 81 :: s.xs[k].None? ==>
      r.xs[k].Some? && r.xs[k].value.Edited? && 1 <= Digit(r.xs[k].value) <= 9
  }

  /**
   * Soundness: a returned grid is full, keeps every filled cell of the input,
   * fills the rest with `Edited` digits, and is valid when the input is.
   */
  lemma {:induction false} SolveSound(s: Sudoku)
    decreases EmptyCount(s.xs), 1, 0
    ensures Solve(s).Some? ==>
      Full(Solve(s).value) && Extends(s, Solve(s).value) && Placed(s, Solve(s).value)
    ensures Solve(s).Some? && Valid(s) ==> Valid(Solve(s).value)
  {
    if !Full(s) {
      TryDigitsSound(s, FirstEmpty(s.xs, 0), 1);
    }
  }

  lemma {:induction false} TryDigitsSound(s: Sudoku, k: nat, d: nat)
    requires k < 81 && s.xs[k].None? && 1 <= d <= 10
    decreases EmptyCount(s.xs), 0, 10 - d
    ensures TryDigits(s, k, d).Some? ==>
      Full(TryDigits(s, k, d).value) && Extends(s, TryDigits(s, k, d).value) && Placed(s, TryDigits(s, k, d).value)
    ensures TryDigits(s, k, d).Some? && Valid(s) ==> Valid(TryDigits(s, k, d).value)
  {
    if d < 10 {
      match Insert(s, LocOf(k), d)
      case Err(_) =>
        TryDigitsSound(s, k, d + 1);
      case Ok(next) =>
        InsertShrinks(s, LocOf(k), d);
        if Solve(next).Some? {
          var r := Solve(next).value;
          SolveSound(next);
          InsertFrame(s, LocOf(k), d);
          forall t | 0 <= t < 81 && s.xs[t].Some? ensures r.xs[t] == s.xs[t] {
            assert next.xs[t] == s.xs[t];
          }
          forall t | 0 <= t < 81 && s.xs[t].None?
            ensures r.xs[t].Some? && r.xs[t].value.Edited? && 1 <= Digit(r.xs[t].value) <= 9
          {
            if t == k {
              assert next.xs[t] == Some(Edited(d));
            } else {
              assert next.xs[t] == s.xs[t];
            }
          }
          if Valid(s) {
            InsertPreservesValid(s, LocOf(k), d);
          }
        } else {
          TryDigitsSound(s, k, d + 1);
        }
    }
  }

  /** Trying digit `d` at the first empty cell `k` leads to a full grid. */
  ghost predicate Succeeds(s: Sudoku, k: nat, d: nat)
    requires k < 81 && s.xs[k].None? && 1 <= d <= 9
  {
    Insert(s, LocOf(k), d).Ok? && Solve(Insert(s, LocOf(k), d).value).Some?
  }

  /** One step of the digit loop: the result at `d` if `d` succeeds, else the loop from `d + 1`. */
  lemma TryDigitsStep(s: Sudoku, k: nat, d: nat)
    requires k < 81 && s.xs[k].None? && 1 <= d <= 9
    ensures TryDigits(s, k, d) ==
      if Succeeds(s, k, d) then Solve(Insert(s, LocOf(k), d).value) else TryDigits(s, k, d + 1)
  {
  }

  lemma {:induction false} TryDigitsSomeIff(s: Sudoku, k: nat, d: nat)
    requires k < 81 && s.xs[k].None? && 1 <= d <= 10
    decreases 10 - d
    ensures TryDigits(s, k, d).Some? <==> exists e | d <= e <= 9 :: Succeeds(s, k, e)
  {
    if d < 10 {
      TryDigitsStep(s, k, d);
      TryDigitsSomeIff(s, k, d + 1);
    }
  }

  lemma {:induction false} TryDigitsPicksFirst(s: Sudoku, k: nat, d: nat, e: nat)
    requires k < 81 && s.xs[k].None? && 1 <= d <= e <= 9
    requires Succeeds(s, k, e) && forall e' | d <= e' < e :: !Succeeds(s, k, e')
    decreases e - d
    ensures TryDigits(s, k, d) == Solve(Insert(s, LocOf(k), e).value)
  {
    TryDigitsStep(s, k, d);
    if d < e {
      TryDigitsPicksFirst(s, k, d + 1, e);
    }
  }

  /**
   * The search branches only on the first empty cell and tries the digits in
   * ascending order: it succeeds exactly when some digit there leads to a full
   * grid, and then returns what the smallest such digit leads to.
   */
  lemma SolveFirstSuccess(s: Sudoku)
    requires !Full(s)
    ensures FirstEmpty(s.xs, 0) < 81 && s.xs[FirstEmpty(s.xs, 0)].None?
    ensures Solve(s).Some? <==> exists d | 1 <= d <= 9 :: Succeeds(s, FirstEmpty(s.xs, 0), d)
    ensures forall d | 1 <= d <= 9 && Succeeds(s, FirstEmpty(s.xs, 0), d) &&
        (forall d' | 1 <= d' < d :: !Succeeds(s, FirstEmpty(s.xs, 0), d')) ::
      Solve(s) == Solve(Insert(s, LocOf(FirstEmpty(s.xs, 0)), d).value)
  {
    var k := FirstEmpty(s.xs, 0);
    TryDigitsSomeIff(s, k, 1);
    forall d | 1 <= d <= 9 && Succeeds(s, k, d) && (forall d' | 1 <= d' < d :: !Succeeds(s, k, d'))
      ensures Solve(s) == Solve(Insert(s, LocOf(k), d).value)
    {
      TryDigitsPicksFirst(s, k, 1, d);
    }
  }
}
