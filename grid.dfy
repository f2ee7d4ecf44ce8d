/**
 * The 9x9 Sudoku board. The engine keeps it as a mutable 9x9 integer array,
 * 0 meaning an empty cell; `Grid` is a value snapshot of such a board and
 * `Cells` takes that snapshot of an `array2<int>`.
 */
module Grids {

  /** A row or column number. */
  type Index = i: int | 0 <= i < 9

  /** A digit that may be written into a cell. */
  type Digit = d: int | 1 <= d <= 9 witness 1

  /** Nine rows of nine cells. */
  type Grid = g: seq<seq<int>> | |g| == 9 && forall i :: 0 <= i < 9 ==> |g[i]| == 9
    witness seq(9, i => seq(9, j => 0))

  /** A (row, col) position on the board. */
  datatype Pos = Pos(row: Index, col: Index)

  /** The board the generator starts from: every cell empty. */
  function EmptyGrid(): (g: Grid)
    ensures forall i, j :: 0 <= i < 9 && 0 <= j < 9 ==> g[i][j] == 0
  {
    seq(9, i => seq(9, j => 0))
  }

  /** The board after the assignment `board[p.row, p.col] = v`. */
  function Write(g: Grid, p: Pos, v: int): (h: Grid)
    ensures forall i, j :: 0 <= i < 9 && 0 <= j < 9 ==>
      h[i][j] == if i == p.row && j == p.col then v else g[i][j]
  {
    g[p.row := g[p.row][p.col := v]]
  }

  /** The snapshot of a 9x9 array. */
  function Cells(board: array2<int>): (g: Grid)
    requires board.Length0 == 9 && board.Length1 == 9
    reads board
    ensures forall i, j :: 0 <= i < 9 && 0 <= j < 9 ==> g[i][j] == board[i, j]
  {
    seq(9, i requires 0 <= i < 9 reads board =>
      seq(9, j requires 0 <= j < 9 reads board => board[i, j]))
  }

  /** Two boards are equal when they agree cell by cell. */
  lemma SameCells(g: Grid, h: Grid)
    requires forall i, j :: 0 <= i < 9 && 0 <= j < 9 ==> g[i][j] == h[i][j]
    ensures g == h
  {
    forall i | 0 <= i < 9
      ensures g[i] == h[i]
    {
      assert forall j :: 0 <= j < 9 ==> g[i][j] == h[i][j];
    }
  }

  /** The assignment `board[p.row, p.col] = v`: the board becomes `Write` of its old snapshot. */
  method SetCell(board: array2<int>, p: Pos, v: int)
    requires board.Length0 == 9 && board.Length1 == 9
    modifies board
    ensures Cells(board) == Write(old(Cells(board)), p, v)
  {
    ghost var before := Cells(board);
    board[p.row, p.col] := v;
    SameCells(Cells(board), Write(before, p, v));
  }

  /** Writing back a cell's old value undoes a write. */
  lemma WriteUndo(g: Grid, p: Pos, v: int)
    ensures Write(Write(g, p, v), p, g[p.row][p.col]) == g
  {
    SameCells(Write(Write(g, p, v), p, g[p.row][p.col]), g);
  }

  /** Every cell is filled. */
  predicate IsFull(g: Grid) {
    forall i, j :: 0 <= i < 9 && 0 <= j < 9 ==> g[i][j] != 0
  }

  /** Every cell holds 0 or a digit. */
  predicate InDigits(g: Grid) {
    forall i, j :: 0 <= i < 9 && 0 <= j < 9 ==> 0 <= g[i][j] <= 9
  }

  /** The non-zero entries of a unit, in order (numpy's `u[u != 0]`). */
  function NonZeros(u: seq<int>): (nz: seq<int>)
    ensures |nz| <= |u|
    ensures forall x :: x in nz <==> x in u && x != 0
  {
    if u == [] then []
    else
      assert u == [u[0]] + u[1..];
      if u[0] == 0 then NonZeros(u[1..]) else [u[0]] + NonZeros(u[1..])
  }

  /** The number of non-zero cells in the first k rows. */
  function RowsFilled(g: Grid, k: nat): (n: nat)
    requires k <= 9
    ensures n <= 9 * k
  {
    if k == 0 then 0 else RowsFilled(g, k - 1) + |NonZeros(g[k - 1])|
  }

  /** The number of non-zero cells on the board. */
  function FilledCount(g: Grid): (n: nat)
    ensures n <= 81
  {
    RowsFilled(g, 9)
  }

  /** The empty cells of the board. */
  ghost function EmptyCells(g: Grid): set<Pos> {
    set i: Index, j: Index | g[i][j] == 0 :: Pos(i, j)
  }

  /** Filling an empty cell removes it, and only it, from the empty cells. */
  lemma FillShrinks(g: Grid, p: Pos, v: int)
    requires g[p.row][p.col] == 0 && v != 0
    ensures EmptyCells(Write(g, p, v)) == EmptyCells(g) - {p}
    ensures EmptyCells(Write(g, p, v)) < EmptyCells(g)
  {
    assert p in EmptyCells(g);
  }

  /** Overwriting one entry changes the non-zero count of a unit by at most one. */
  lemma {:induction false} NonZerosWrite(u: seq<int>, c: nat, v: int)
    requires c < |u|
    ensures |NonZeros(u[c := v])| ==
      |NonZeros(u)| - (if u[c] != 0 then 1 else 0) + (if v != 0 then 1 else 0)
  {
    if c == 0 {
      assert u[c := v][1..] == u[1..];
    } else {
      NonZerosWrite(u[1..], c - 1, v);
      assert u[c := v][1..] == u[1..][c - 1 := v];
    }
  }

  lemma {:induction false} RowsFilledWrite(g: Grid, p: Pos, v: int, k: nat)
    requires k <= 9
    ensures RowsFilled(Write(g, p, v), k) == RowsFilled(g, k) +
      (if p.row < k
       then (if v != 0 then 1 else 0) - (if g[p.row][p.col] != 0 then 1 else 0)
       else 0)
  {
    if k > 0 {
      RowsFilledWrite(g, p, v, k - 1);
      if k - 1 == p.row {
        NonZerosWrite(g[p.row], p.col, v);
      } else {
        assert Write(g, p, v)[k - 1] == g[k - 1];
      }
    }
  }

  /**
   * Writing v over cell p adds one filled cell when an empty cell gets a
   * non-zero value and removes one when a filled cell is zeroed.
   */
  lemma WriteCount(g: Grid, p: Pos, v: int)
    ensures FilledCount(Write(g, p, v)) == FilledCount(g) +
      (if v != 0 then 1 else 0) - (if g[p.row][p.col] != 0 then 1 else 0)
  {
    RowsFilledWrite(g, p, v, 9);
  }

  lemma {:induction false} AllZeroNonZeros(u: seq<int>)
    requires forall j :: 0 <= j < |u| ==> u[j] == 0
    ensures NonZeros(u) == []
  {
    if u != [] {
      AllZeroNonZeros(u[1..]);
    }
  }

  lemma {:induction false} AllZeroRowsFilled(g: Grid, k: nat)
    requires k <= 9
    requires forall i, j :: 0 <= i < 9 && 0 <= j < 9 ==> g[i][j] == 0
    ensures RowsFilled(g, k) == 0
  {
    if k > 0 {
      AllZeroRowsFilled(g, k - 1);
      AllZeroNonZeros(g[k - 1]);
    }
  }

  /** The starting board of the generator has no filled cell. */
  lemma EmptyGridCount()
    ensures FilledCount(EmptyGrid()) == 0
  {
    AllZeroRowsFilled(EmptyGrid(), 9);
  }

}
