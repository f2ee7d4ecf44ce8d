/**
 * The grid validator: the per-unit duplicate checks, the whole-grid
 * consistency check and the placement check of the Sudoku engine.
 */
module Validator {
  import opened Grids

  /** The set of distinct values of a sequence (what numpy's `unique` keeps). */
  function Values(s: seq<int>): set<int> {
    set x | x in s
  }

  /** No non-zero entry of the unit occurs at a second position. */
  ghost predicate DistinctNonZero(u: seq<int>) {
    forall i, j :: 0 <= i < |u| && 0 <= j < |u| && i != j && u[i] != 0 ==> u[i] != u[j]
  }

  lemma DistinctNonZeroCons(u: seq<int>)
    requires u != []
    ensures DistinctNonZero(u) <==>
      DistinctNonZero(u[1..]) && (u[0] != 0 ==> u[0] !in u[1..])
  {
    var t := u[1..];
    if DistinctNonZero(u) {
      forall i, j | 0 <= i < |t| && 0 <= j < |t| && i != j && t[i] != 0
        ensures t[i] != t[j]
      {
        assert t[i] == u[i + 1] && t[j] == u[j + 1];
      }
      forall j | 0 <= j < |t| && u[0] != 0
        ensures t[j] != u[0]
      {
        assert t[j] == u[j + 1];
      }
    }
    if DistinctNonZero(t) && (u[0] != 0 ==> u[0] !in t) {
      forall i, j | 0 <= i < |u| && 0 <= j < |u| && i != j && u[i] != 0
        ensures u[i] != u[j]
      {
        if i == 0 {
          assert u[j] == t[j - 1];
        } else if j == 0 {
          assert u[i] == t[i - 1];
        } else {
          assert u[i] == t[i - 1] && u[j] == t[j - 1];
        }
      }
    }
  }

  /**
   * Counting the distinct non-zero values never gives more than counting the
   * non-zero entries, and gives as many exactly when no non-zero value repeats.
   */
  lemma {:induction false} DistinctCount(u: seq<int>)
    ensures |Values(NonZeros(u))| <= |NonZeros(u)|
    ensures |Values(NonZeros(u))| == |NonZeros(u)| <==> DistinctNonZero(u)
  {
    if u == [] {
      assert Values(NonZeros(u)) == {};
    } else {
      var t := u[1..];
      DistinctCount(t);
      DistinctNonZeroCons(u);
      var s := Values(NonZeros(t));
      if u[0] == 0 {
        assert NonZeros(u) == NonZeros(t);
      } else {
        assert NonZeros(u) == [u[0]] + NonZeros(t);
        assert Values(NonZeros(u)) == {u[0]} + s;
        assert u[0] in s <==> u[0] in t;
      }
    }
  }

  /**
   * A unit passes when it has as many distinct non-zero values as non-zero
   * entries; this holds exactly when no non-zero value repeats, and zeros
   * never make a unit fail.
   */
  function UnitCorrect(u: seq<int>): (ok: bool)
    ensures ok <==> DistinctNonZero(u)
  {
    DistinctCount(u);
    |Values(NonZeros(u))| == |NonZeros(u)|
  }

  /** Column c read top to bottom. */
  function Column(g: Grid, c: Index): (col: seq<int>)
    ensures |col| == 9 && forall i :: 0 <= i < 9 ==> col[i] == g[i][c]
  {
    seq(9, i requires 0 <= i < 9 => g[i][c])
  }

  /** The 3x3 block whose top-left cell is (r0, c0), read row by row. */
  function Block(g: Grid, r0: int, c0: int): (b: seq<int>)
    requires 0 <= r0 <= 6 && 0 <= c0 <= 6
    ensures |b| == 9 && forall k :: 0 <= k < 9 ==> b[k] == g[r0 + k / 3][c0 + k % 3]
  {
    seq(9, k requires 0 <= k < 9 => g[r0 + k / 3][c0 + k % 3])
  }

  /** Cell (i, j) of the block at (r0, c0) is entry 3 * (i - r0) + (j - c0) of `Block`. */
  lemma BlockEntry(r0: int, c0: int, i: int, j: int)
    requires r0 <= i < r0 + 3 && c0 <= j < c0 + 3
    ensures var k := 3 * (i - r0) + (j - c0);
      0 <= k < 9 && k / 3 == i - r0 && k % 3 == j - c0
  {
  }

  /** Row r passes: no non-zero value occurs twice in it. */
  function RowCorrect(g: Grid, r: Index): (ok: bool)
    ensures ok <==> forall j, l :: 0 <= j < 9 && 0 <= l < 9 && j != l && g[r][j] != 0 ==>
      g[r][j] != g[r][l]
  {
    UnitCorrect(g[r])
  }

  /** Column c passes: no non-zero value occurs twice in it. */
  function ColumnCorrect(g: Grid, c: Index): (ok: bool)
    ensures ok <==> forall i, k :: 0 <= i < 9 && 0 <= k < 9 && i != k && g[i][c] != 0 ==>
      g[i][c] != g[k][c]
  {
    var col := Column(g, c);
    assert DistinctNonZero(col) <==> forall i, k :: 0 <= i < 9 && 0 <= k < 9 && i != k && g[i][c] != 0 ==>
      g[i][c] != g[k][c];
    UnitCorrect(col)
  }

  /** Cell (i, j) lies in the 3x3 block whose top-left cell is (r0, c0). */
  ghost predicate InBlock(r0: int, c0: int, i: int, j: int) {
    r0 <= i < r0 + 3 && c0 <= j < c0 + 3
  }

  /** The block at (r0, c0) passes: no non-zero value occurs in two of its cells. */
  function BlockCorrect(g: Grid, r0: int, c0: int): (ok: bool)
    requires 0 <= r0 <= 6 && 0 <= c0 <= 6
    ensures ok <==> forall i, j, k, l ::
      InBlock(r0, c0, i, j) && InBlock(r0, c0, k, l) && (i != k || j != l) && g[i][j] != 0 ==>
      g[i][j] != g[k][l]
  {
    var b := Block(g, r0, c0);
    BlockDistinct(g, r0, c0);
    UnitCorrect(b)
  }

  lemma BlockDistinct(g: Grid, r0: int, c0: int)
    requires 0 <= r0 <= 6 && 0 <= c0 <= 6
    ensures DistinctNonZero(Block(g, r0, c0)) <==> forall i, j, k, l ::
      InBlock(r0, c0, i, j) && InBlock(r0, c0, k, l) && (i != k || j != l) && g[i][j] != 0 ==>
      g[i][j] != g[k][l]
  {
    var b := Block(g, r0, c0);
    if DistinctNonZero(b) {
      forall i, j, k, l |
        InBlock(r0, c0, i, j) && InBlock(r0, c0, k, l) && (i != k || j != l) && g[i][j] != 0
        ensures g[i][j] != g[k][l]
      {
        BlockEntry(r0, c0, i, j);
        BlockEntry(r0, c0, k, l);
        var a, e := 3 * (i - r0) + (j - c0), 3 * (k - r0) + (l - c0);
        assert b[a] == g[i][j] && b[e] == g[k][l];
      }
    } else {
      var a, e :| 0 <= a < 9 && 0 <= e < 9 && a != e && b[a] != 0 && b[a] == b[e];
      BlockSlots(r0, c0, a, e);
    }
  }

  /** Two distinct entries of `Block` come from two distinct cells of the block. */
  lemma BlockSlots(r0: int, c0: int, a: int, e: int)
    requires 0 <= r0 <= 6 && 0 <= c0 <= 6 && 0 <= a < 9 && 0 <= e < 9 && a != e
    ensures InBlock(r0, c0, r0 + a / 3, c0 + a % 3) && InBlock(r0, c0, r0 + e / 3, c0 + e % 3)
    ensures r0 + a / 3 != r0 + e / 3 || c0 + a % 3 != c0 + e % 3
  {
  }

  /** The rows of block origins: 0, 3 and 6. */
  predicate BoxOrigin(x: int) {
    x == 0 || x == 3 || x == 6
  }

  /**
   * The reference meaning of `sudoku_grid_correct`: all nine rows, all nine
   * columns and the nine blocks whose origins lie in {0, 3, 6} x {0, 3, 6} pass.
   */
  ghost predicate GridCorrect(g: Grid) {
    && (forall i :: 0 <= i < 9 ==> RowCorrect(g, i) && ColumnCorrect(g, i))
    && (forall r0, c0 :: BoxOrigin(r0) && BoxOrigin(c0) ==> BlockCorrect(g, r0, c0))
  }

  /**
   * The grid check as the engine runs it: rows and columns first, then the
   * blocks, stopping at the first unit that fails.
   */
  method SudokuGridCorrect(sudoku: Grid) returns (correct: bool)
    ensures correct == GridCorrect(sudoku)
    ensures correct <==> NoClash(sudoku)
  {
    GridCorrectIff(sudoku);
    correct := LinesCorrect(sudoku);
    if correct {
      correct := BlocksCorrect(sudoku);
    }
  }

  /** The first loop of the grid check: row i and column i for i = 0..8. */
  method LinesCorrect(sudoku: Grid) returns (correct: bool)
    ensures correct == forall i :: 0 <= i < 9 ==> RowCorrect(sudoku, i) && ColumnCorrect(sudoku, i)
  {
    for i := 0 to 9
      invariant forall k :: 0 <= k < i ==> RowCorrect(sudoku, k) && ColumnCorrect(sudoku, k)
    {
      if !RowCorrect(sudoku, i) || !ColumnCorrect(sudoku, i) {
        return false;
      }
    }
    return true;
  }

  /** The nested loops of the grid check over the block origins in {0, 3, 6} x {0, 3, 6}. */
  method BlocksCorrect(sudoku: Grid) returns (correct: bool)
    ensures correct == forall r0, c0 :: BoxOrigin(r0) && BoxOrigin(c0) ==> BlockCorrect(sudoku, r0, c0)
  {
    var r0 := 0;
    while r0 < 9
      invariant BoxOrigin(r0) || r0 == 9
      invariant forall x, y :: x < r0 && BoxOrigin(x) && BoxOrigin(y) ==> BlockCorrect(sudoku, x, y)
    {
      var c0 := 0;
      while c0 < 9
        invariant BoxOrigin(c0) || c0 == 9
        invariant forall x, y :: (x < r0 || (x == r0 && y < c0)) && BoxOrigin(x) && BoxOrigin(y) ==>
          BlockCorrect(sudoku, x, y)
      {
        if !BlockCorrect(sudoku, r0, c0) {
          return false;
        }
        c0 := c0 + 3;
      }
      r0 := r0 + 3;
    }
    return true;
  }

  /** Cells (r, c) and (i, j) share a row, a column or a 3x3 block. */
  ghost predicate SharesUnit(r: int, c: int, i: int, j: int) {
    r == i || c == j || (r / 3 == i / 3 && c / 3 == j / 3)
  }

  /**
   * An independent statement of consistency over cells: two distinct cells
   * that share a unit never hold the same non-zero value.
   */
  ghost predicate NoClash(g: Grid) {
    forall i, j, k, l ::
      0 <= i < 9 && 0 <= j < 9 && 0 <= k < 9 && 0 <= l < 9 &&
      (i != k || j != l) && SharesUnit(i, j, k, l) && g[i][j] != 0 ==>
      g[i][j] != g[k][l]
  }

  /** Two clashing cells of a consistent board would break the unit they share. */
  lemma CorrectHasNoClash(g: Grid)
    requires GridCorrect(g)
    ensures NoClash(g)
  {
    forall i, j, k, l |
      0 <= i < 9 && 0 <= j < 9 && 0 <= k < 9 && 0 <= l < 9 &&
      (i != k || j != l) && SharesUnit(i, j, k, l) && g[i][j] != 0
      ensures g[i][j] != g[k][l]
    {
      if i == k {
        assert RowCorrect(g, i);
      } else if j == l {
        assert ColumnCorrect(g, j);
      } else {
        SameBlock(g, i, j, k, l);
      }
    }
  }

  lemma SameBlock(g: Grid, i: Index, j: Index, k: Index, l: Index)
    requires GridCorrect(g)
    requires (i != k || j != l) && i / 3 == k / 3 && j / 3 == l / 3 && g[i][j] != 0
    ensures g[i][j] != g[k][l]
  {
    var r0, c0 := 3 * (i / 3), 3 * (j / 3);
    assert BoxOrigin(r0) && BoxOrigin(c0);
    assert BlockCorrect(g, r0, c0);
    assert InBlock(r0, c0, i, j) && InBlock(r0, c0, k, l);
  }

  /** A cell of the block whose origin is the box origin r0 lies in r0's band of three. */
  lemma BandOf(r0: int, i: int)
    requires BoxOrigin(r0) && r0 <= i < r0 + 3
    ensures i / 3 == r0 / 3
  {
  }

  lemma NoClashLines(g: Grid, i: Index)
    requires NoClash(g)
    ensures RowCorrect(g, i) && ColumnCorrect(g, i)
  {
    forall j, l | 0 <= j < 9 && 0 <= l < 9 && j != l && g[i][j] != 0
      ensures g[i][j] != g[i][l]
    {
      assert SharesUnit(i, j, i, l);
    }
    forall k, l | 0 <= k < 9 && 0 <= l < 9 && k != l && g[k][i] != 0
      ensures g[k][i] != g[l][i]
    {
      assert SharesUnit(k, i, l, i);
    }
  }

  lemma NoClashBlock(g: Grid, r0: int, c0: int)
    requires NoClash(g) && BoxOrigin(r0) && BoxOrigin(c0)
    ensures BlockCorrect(g, r0, c0)
  {
    forall i, j, k, l |
      InBlock(r0, c0, i, j) && InBlock(r0, c0, k, l) && (i != k || j != l) && g[i][j] != 0
      ensures g[i][j] != g[k][l]
    {
      BandOf(r0, i);
      BandOf(r0, k);
      BandOf(c0, j);
      BandOf(c0, l);
      assert SharesUnit(i, j, k, l);
    }
  }

  /** A board without clashes passes every unit check. */
  lemma NoClashIsCorrect(g: Grid)
    requires NoClash(g)
    ensures GridCorrect(g)
  {
    forall i | 0 <= i < 9
      ensures RowCorrect(g, i) && ColumnCorrect(g, i)
    {
      NoClashLines(g, i);
    }
    forall r0, c0 | BoxOrigin(r0) && BoxOrigin(c0)
      ensures BlockCorrect(g, r0, c0)
    {
      NoClashBlock(g, r0, c0);
    }
  }

  /** The grid check accepts exactly the boards on which no two cells of a unit clash. */
  lemma GridCorrectIff(g: Grid)
    ensures GridCorrect(g) <==> NoClash(g)
  {
    if GridCorrect(g) {
      CorrectHasNoClash(g);
    }
    if NoClash(g) {
      NoClashIsCorrect(g);
    }
  }

  /** The all-zero board passes the grid check. */
  lemma EmptyGridCorrect()
    ensures GridCorrect(EmptyGrid())
  {
    GridCorrectIff(EmptyGrid());
  }

  /**
   * `is_valid_move`: num may go at p unless it already occurs in p's row, in
   * p's column or in the block whose origin is (3 * (row / 3), 3 * (col / 3)).
   * The cell p itself is part of all three, so a cell already holding num
   * rejects num too.
   */
  function IsValidMove(g: Grid, num: int, p: Pos): (valid: bool)
    ensures valid <==> forall i, j {:trigger SharesUnit(p.row, p.col, i, j)} ::
      0 <= i < 9 && 0 <= j < 9 && SharesUnit(p.row, p.col, i, j) ==> g[i][j] != num
  {
    var r0, c0 := 3 * (p.row / 3), 3 * (p.col / 3);
    InBlockOf(g, num, p);
    assert num in g[p.row] <==> exists j :: 0 <= j < 9 && g[p.row][j] == num;
    assert num in Column(g, p.col) <==> exists i :: 0 <= i < 9 && g[i][p.col] == num;
    var valid := num !in g[p.row] && num !in Column(g, p.col) && num !in Block(g, r0, c0);
    assert valid <==> forall i, j :: 0 <= i < 9 && 0 <= j < 9 && SharesUnit(p.row, p.col, i, j) ==> g[i][j] != num;
    valid
  }

  /** num occurs in the block holding p exactly when some cell of p's block holds it. */
  lemma InBlockOf(g: Grid, num: int, p: Pos)
    ensures var r0, c0 := 3 * (p.row / 3), 3 * (p.col / 3);
      num in Block(g, r0, c0) <==>
      exists i, j :: 0 <= i < 9 && 0 <= j < 9 && p.row / 3 == i / 3 && p.col / 3 == j / 3 && g[i][j] == num
  {
    var r0, c0 := 3 * (p.row / 3), 3 * (p.col / 3);
    var b := Block(g, r0, c0);
    if num in b {
      var k :| 0 <= k < 9 && b[k] == num;
      var i, j := r0 + k / 3, c0 + k % 3;
      assert p.row / 3 == i / 3 && p.col / 3 == j / 3 && g[i][j] == num;
    }
    if exists i, j :: 0 <= i < 9 && 0 <= j < 9 && p.row / 3 == i / 3 && p.col / 3 == j / 3 && g[i][j] == num {
      var i, j :| 0 <= i < 9 && 0 <= j < 9 && p.row / 3 == i / 3 && p.col / 3 == j / 3 && g[i][j] == num;
      BlockEntry(r0, c0, i, j);
      assert b[3 * (i - r0) + (j - c0)] == num;
    }
  }

  /**
   * Writing num at p where `is_valid_move` accepts it keeps a consistent board
   * consistent (whether p was empty or not).
   */
  lemma PlaceKeepsCorrect(g: Grid, p: Pos, num: int)
    requires GridCorrect(g) && IsValidMove(g, num, p)
    ensures GridCorrect(Write(g, p, num))
  {
    var h := Write(g, p, num);
    GridCorrectIff(g);
    forall i, j, k, l |
      0 <= i < 9 && 0 <= j < 9 && 0 <= k < 9 && 0 <= l < 9 &&
      (i != k || j != l) && SharesUnit(i, j, k, l) && h[i][j] != 0
      ensures h[i][j] != h[k][l]
    {
      if i == p.row && j == p.col {
        assert SharesUnit(p.row, p.col, k, l);
      } else if k == p.row && l == p.col {
        assert SharesUnit(p.row, p.col, i, j);
      }
    }
    GridCorrectIff(h);
  }

  /** Emptying any cell keeps a consistent board consistent. */
  lemma ClearKeepsCorrect(g: Grid, p: Pos)
    requires GridCorrect(g)
    ensures GridCorrect(Write(g, p, 0))
  {
    GridCorrectIff(g);
    GridCorrectIff(Write(g, p, 0));
  }

}
