/** The 81-cell grid `Sudoku` of src/lib.rs: parsing, fullness and tag-blind equality. */
module Grid {
  import opened Cells

  /** The fixed array `[Option<SudokuNum>; 81]`, row-major: cell (x, y) is at index y * 9 + x. */
  type Cells81 = xs: seq<Cell> | |xs| == 81 witness seq(81, _ => None)

  /** `Sudoku` is `Copy`: a grid is a value, and every change makes a new one. */
  datatype Sudoku = Sudoku(xs: Cells81)

  /** A location `(x, y)`: `.0` is the column, `.1` the row. */
  type Loc = (nat, nat)

  function Index(loc: Loc): nat
  {
    loc.1 * 9 + loc.0
  }

  /** The location of index `k`, the inverse of `Index` on the board. */
  function LocOf(k: nat): (loc: Loc)
    requires k < 81
    ensures loc.0 < 9 && loc.1 < 9 && Index(loc) == k
  {
    (k % 9, k / 9)
  }

  // ---------------------------------------------------------------------
  // from_str

  /** `.filter(|&x| x != '\n')`: the characters of `src` other than line feeds, in order. */
  function DropNewlines(src: string): (r: string)
    ensures '\n' !in r
    ensures |r| <= |src|
  {
    if src == [] then []
    else (if src[0] == '\n' then [] else [src[0]]) + DropNewlines(src[1..])
  }

  /** The filter removes exactly as many characters as the text holds line feeds. */
  lemma {:induction false} DropNewlinesLength(src: string)
    ensures |DropNewlines(src)| == |src| - multiset(src)['\n']
  {
    if src != [] {
      assert src == [src[0]] + src[1..];
      DropNewlinesLength(src[1..]);
    }
  }

  /** `x.to_string().parse::<u32>()` of one character: only an ASCII decimal digit parses. */
  function ParseCell(c: char): (cell: Cell)
    ensures cell.Some? <==> '0' <= c <= '9'
    ensures cell.Some? ==> cell == Some(Original(c as int - '0' as int))
  {
    if '0' <= c <= '9' then Some(Original(c as int - '0' as int)) else None
  }

  /**
   * `Sudoku::from_str`. The source unwraps the conversion into a fixed
   * 81-cell array and panics on any other count; that panic is `None` here.
   */
  function FromStr(src: string): (r: Option<Sudoku>)
    ensures r.Some? <==> |src| - multiset(src)['\n'] == 81
    ensures r.Some? ==> |DropNewlines(src)| == 81
    ensures r.Some? ==> forall k | 0 <= k < 81 :: r.value.xs[k] == ParseCell(DropNewlines(src)[k])
  {
    DropNewlinesLength(src);
    Collect(DropNewlines(src))
  }

  /** `.map(..).collect::<Vec<_>>().try_into()`: one cell per character, and exactly 81 of them. */
  function Collect(chars: string): (r: Option<Sudoku>)
    ensures r.Some? <==> |chars| == 81
    ensures r.Some? ==> forall k | 0 <= k < 81 :: r.value.xs[k] == ParseCell(chars[k])
  {
    var cells := seq(|chars|, k requires 0 <= k < |chars| => ParseCell(chars[k]));
    if |cells| == 81 then Some(Sudoku(cells)) else None
  }

  lemma {:induction false} DropNewlinesConcat(a: string, b: string)
    ensures DropNewlines(a + b) == DropNewlines(a) + DropNewlines(b)
  {
    if a == [] {
      assert a + b == b;
    } else {
      assert (a + b)[0] == a[0];
      assert (a + b)[1..] == a[1..] + b;
      DropNewlinesConcat(a[1..], b);
    }
  }

  lemma {:induction false} DropNewlinesIdentity(src: string)
    requires '\n' !in src
    ensures DropNewlines(src) == src
  {
    if src != [] {
      DropNewlinesIdentity(src[1..]);
    }
  }

  /** Newlines are ignored: removing one from the text does not change the grid. */
  lemma FromStrIgnoresNewline(a: string, b: string)
    ensures FromStr(a + "\n" + b) == FromStr(a + b)
  {
    var nl := "\n";
    assert DropNewlines(nl) == [] by {
      assert nl == [nl[0]] + nl[1..] && nl[1..] == [];
    }
    calc {
      DropNewlines(a + nl + b);
      { DropNewlinesConcat(a + nl, b); }
      DropNewlines(a + nl) + DropNewlines(b);
      { DropNewlinesConcat(a, nl); }
      DropNewlines(a) + DropNewlines(b);
      { DropNewlinesConcat(a, b); }
      DropNewlines(a + b);
    }
  }

  /** A parsed grid holds only givens: every filled cell is `Original(d)` with `d <= 9`. */
  lemma FromStrGivensOnly(src: string)
    requires FromStr(src).Some?
    ensures forall k | 0 <= k < 81 :: FromStr(src).value.xs[k].Some? ==>
      FromStr(src).value.xs[k].value.Original? && Digit(FromStr(src).value.xs[k].value) <= 9
  {
  }

  // ---------------------------------------------------------------------
  // is_full and the count of empty cells

  /** No cell is `None`. */
  predicate Full(s: Sudoku)
  {
    forall k | 0 <= k < 81 :: s.xs[k].Some?
  }

  /** `is_full`: a loop over the cells that stops at the first empty one. */
  method IsFull(s: Sudoku) returns (full: bool)
    ensures full <==> Full(s)
  {
    for k := 0 to 81
      invariant forall t | 0 <= t < k :: s.xs[t].Some?
    {
      if s.xs[k].None? {
        return false;
      }
    }
    return true;
  }

  /** The number of empty cells; the search's termination measure. */
  function EmptyCount(xs: seq<Cell>): (n: nat)
    ensures n <= |xs|
    ensures n == 0 <==> forall k | 0 <= k < |xs| :: xs[k].Some?
  {
    if xs == [] then 0
    else (if xs[0].None? then 1 else 0) + EmptyCount(xs[1..])
  }

  /** Filling one empty cell leaves exactly one empty cell fewer. */
  lemma {:induction false} EmptyCountFill(xs: seq<Cell>, k: nat, v: SudokuNum)
    requires k < |xs| && xs[k].None?
    ensures EmptyCount(xs[k := Some(v)]) + 1 == EmptyCount(xs)
  {
    if k > 0 {
      assert xs[k := Some(v)][1..] == xs[1..][k - 1 := Some(v)];
      EmptyCountFill(xs[1..], k - 1, v);
    }
  }

  lemma FullIffNoEmpty(s: Sudoku)
    ensures Full(s) <==> EmptyCount(s.xs) == 0
  {
  }

  // ---------------------------------------------------------------------
  // impl PartialEq for Sudoku

  /** Cellwise tag-blind equality of two grids. */
  ghost predicate Equivalent(a: Sudoku, b: Sudoku)
  {
    forall k | 0 <= k < 81 :: CellEq(a.xs[k], b.xs[k])
  }

  /** `Sudoku::eq`: walks both arrays in step and stops at the first difference. */
  method Equals(a: Sudoku, b: Sudoku) returns (eq: bool)
    ensures eq <==> Equivalent(a, b)
  {
    for k := 0 to 81
      invariant forall t | 0 <= t < k :: CellEq(a.xs[t], b.xs[t])
    {
      if !CellEq(a.xs[k], b.xs[k]) {
        return false;
      }
    }
    return true;
  }

  /** The digits of a grid with the tags erased. */
  function Erase(s: Sudoku): (ds: seq<Option<nat>>)
    ensures |ds| == 81
  {
    seq(81, k requires 0 <= k < 81 => if s.xs[k].Some? then Some(Digit(s.xs[k].value)) else None)
  }

  /** Two grids are equal exactly when their tag-erased digits are. */
  lemma EquivalentIffErased(a: Sudoku, b: Sudoku)
    ensures Equivalent(a, b) <==> Erase(a) == Erase(b)
  {
    if Erase(a) == Erase(b) {
      forall k | 0 <= k < 81 ensures CellEq(a.xs[k], b.xs[k]) {
        assert Erase(a)[k] == Erase(b)[k];
      }
    }
  }

  lemma EquivalentIsEquivalence(a: Sudoku, b: Sudoku, c: Sudoku)
    ensures Equivalent(a, a)
    ensures Equivalent(a, b) ==> Equivalent(b, a)
    ensures Equivalent(a, b) && Equivalent(b, c) ==> Equivalent(a, c)
  {
  }
}
