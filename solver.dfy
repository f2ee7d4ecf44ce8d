/**
 * The backtracking solver: `find_empty` scans for the first empty cell in
 * row-major order and `solve` tries the digits 1..9 there in ascending
 * order, recursing after each valid placement and undoing it when the
 * recursion fails. `Backtrack` and `TryDigits` give the result of that
 * search as functions of the board; `FindEmpty` and `Solve` run it on the
 * board array in place and are proved to agree with them.
 */
module Solver {
  import opened Wrappers
  import opened Grids
  import opened Validator

  /** Cell (r, c) comes before p in row-major order. */
  ghost predicate Before(r: int, c: int, p: Pos) {
    r < p.row || (r == p.row && c < p.col)
  }

  /** The position of the first zero of a row. */
  function FirstZero(u: seq<int>): (k: nat)
    requires 0 in u
    ensures k < |u| && u[k] == 0
    ensures forall j :: 0 <= j < k ==> u[j] != 0
  {
    if u[0] == 0 then 0
    else
      assert u == [u[0]] + u[1..];
      1 + FirstZero(u[1..])
  }

  /** The first empty cell at or below row i, scanning rows top to bottom. */
  function FirstEmptyFrom(g: Grid, i: nat): (e: Option<Pos>)
    requires i <= 9
    ensures e.Some? ==> i <= e.value.row && g[e.value.row][e.value.col] == 0
    ensures e.Some? ==> forall r, c :: i <= r < 9 && 0 <= c < 9 && Before(r, c, e.value) ==> g[r][c] != 0
    ensures e.None? <==> forall r, c :: i <= r < 9 && 0 <= c < 9 ==> g[r][c] != 0
    decreases 9 - i
  {
    if i == 9 then None
    else if 0 in g[i] then Some(Pos(i, FirstZero(g[i])))
    else FirstEmptyFrom(g, i + 1)
  }

  /**
   * The first empty cell in row-major order: it holds 0 and every cell
   * before it is filled; there is none exactly when the board is full.
   */
  function FirstEmpty(g: Grid): (e: Option<Pos>)
    ensures e.Some? ==> g[e.value.row][e.value.col] == 0
    ensures e.Some? ==> forall r, c :: 0 <= r < 9 && 0 <= c < 9 && Before(r, c, e.value) ==> g[r][c] != 0
    ensures e.None? <==> IsFull(g)
  {
    FirstEmptyFrom(g, 0)
  }

  /** The first empty cell is the only empty cell with every earlier cell filled. */
  lemma FirstEmptyUnique(g: Grid, p: Pos)
    requires g[p.row][p.col] == 0
    requires forall r, c :: 0 <= r < 9 && 0 <= c < 9 && Before(r, c, p) ==> g[r][c] != 0
    ensures FirstEmpty(g) == Some(p)
  {
    var q := FirstEmpty(g).value;
    assert !Before(q.row, q.col, p);
    assert !Before(p.row, p.col, q);
  }

  /** `find_empty`: the nested row-major scan that returns at the first 0. */
  method FindEmpty(board: array2<int>) returns (empty: Option<Pos>)
    requires board.Length0 == 9 && board.Length1 == 9
    ensures empty == FirstEmpty(Cells(board))
  {
    for i := 0 to 9
      invariant forall r, c :: 0 <= r < i && 0 <= c < 9 ==> board[r, c] != 0
    {
      for j := 0 to 9
        invariant forall r, c :: ((0 <= r < i && 0 <= c < 9) || (r == i && 0 <= c < j)) ==> board[r, c] != 0
      {
        if board[i, j] == 0 {
          FirstEmptyUnique(Cells(board), Pos(i, j));
          return Some(Pos(i, j));
        }
      }
    }
    return None;
  }

  /** The outcome of `solve` on board g: the solved board, or None when it gives up. */
  function Backtrack(g: Grid): (s: Option<Grid>)
    ensures s.Some? ==> IsFull(s.value)
    decreases EmptyCells(g), 10
  {
    match FirstEmpty(g)
    case None => Some(g)
    case Some(p) => TryDigits(g, p, 1)
  }

  /** The digit loop of `solve` at the empty cell p, from digit num on. */
  function TryDigits(g: Grid, p: Pos, num: int): (s: Option<Grid>)
    requires g[p.row][p.col] == 0 && 1 <= num <= 10
    ensures s.Some? ==> IsFull(s.value)
    decreases EmptyCells(g), 10 - num
  {
    if num == 10 then None
    else if IsValidMove(g, num, p) then
      FillShrinks(g, p, num);
      var s := Backtrack(Write(g, p, num));
      if s.Some? then s else TryDigits(g, p, num + 1)
    else TryDigits(g, p, num + 1)
  }

  /**
   * h completes g: every given of g keeps its value in h, and every empty
   * cell of g holds a digit 1..9 in h (so h is full).
   */
  ghost predicate Completes(g: Grid, h: Grid) {
    forall i, j :: 0 <= i < 9 && 0 <= j < 9 ==>
      if g[i][j] != 0 then h[i][j] == g[i][j] else 1 <= h[i][j] <= 9
  }

  lemma CompletesWrite(g: Grid, p: Pos, num: int, h: Grid)
    requires g[p.row][p.col] == 0 && 1 <= num <= 9
    requires Completes(Write(g, p, num), h)
    ensures Completes(g, h)
  {
  }

  /**
   * When the search succeeds, its board completes the input: no zero is
   * left and every given keeps its value. Started from a consistent board,
   * the result is consistent.
   */
  lemma BacktrackSound(g: Grid)
    ensures Backtrack(g).Some? ==> Completes(g, Backtrack(g).value)
    ensures Backtrack(g).Some? && GridCorrect(g) ==> GridCorrect(Backtrack(g).value)
  {
    BacktrackCompletes(g);
    if GridCorrect(g) {
      BacktrackKeepsCorrect(g);
    }
  }

  /** A successful search keeps every given and fills every empty cell with a digit. */
  lemma {:induction false} BacktrackCompletes(g: Grid)
    ensures Backtrack(g).Some? ==> Completes(g, Backtrack(g).value)
    decreases EmptyCells(g), 10
  {
    match FirstEmpty(g)
    case None =>
    case Some(p) => TryDigitsCompletes(g, p, 1);
  }

  lemma {:induction false} TryDigitsCompletes(g: Grid, p: Pos, num: int)
    requires g[p.row][p.col] == 0 && 1 <= num <= 10
    ensures TryDigits(g, p, num).Some? ==> Completes(g, TryDigits(g, p, num).value)
    decreases EmptyCells(g), 10 - num
  {
    if num < 10 {
      if IsValidMove(g, num, p) {
        FillShrinks(g, p, num);
        var g' := Write(g, p, num);
        BacktrackCompletes(g');
        if Backtrack(g').Some? {
          CompletesWrite(g, p, num, Backtrack(g').value);
        }
      }
      TryDigitsCompletes(g, p, num + 1);
    }
  }

  /** Every placement passes `is_valid_move`, so a consistent board stays consistent. */
  lemma {:induction false} BacktrackKeepsCorrect(g: Grid)
    requires GridCorrect(g)
    ensures Backtrack(g).Some? ==> GridCorrect(Backtrack(g).value)
    decreases EmptyCells(g), 10
  {
    match FirstEmpty(g)
    case None =>
    case Some(p) => TryDigitsKeepsCorrect(g, p, 1);
  }

  lemma {:induction false} TryDigitsKeepsCorrect(g: Grid, p: Pos, num: int)
    requires g[p.row][p.col] == 0 && 1 <= num <= 10 && GridCorrect(g)
    ensures TryDigits(g, p, num).Some? ==> GridCorrect(TryDigits(g, p, num).value)
    decreases EmptyCells(g), 10 - num
  {
    if num < 10 {
      if IsValidMove(g, num, p) {
        FillShrinks(g, p, num);
        PlaceKeepsCorrect(g, p, num);
        BacktrackKeepsCorrect(Write(g, p, num));
      }
      TryDigitsKeepsCorrect(g, p, num + 1);
    }
  }

  /** The digit h places at p passes `is_valid_move` on any board h completes. */
  lemma CompletionDigitValid(g: Grid, h: Grid, p: Pos)
    requires Completes(g, h) && GridCorrect(h) && g[p.row][p.col] == 0
    ensures IsValidMove(g, h[p.row][p.col], p)
  {
    GridCorrectIff(h);
    var d := h[p.row][p.col];
    forall i, j | 0 <= i < 9 && 0 <= j < 9 && SharesUnit(p.row, p.col, i, j)
      ensures g[i][j] != d
    {
      if g[i][j] != 0 && (i != p.row || j != p.col) {
        assert h[i][j] == g[i][j];
      }
    }
  }

  /** One unfolding of the digit loop at a digit below 10. */
  lemma TryDigitsStep(g: Grid, p: Pos, num: int)
    requires g[p.row][p.col] == 0 && 1 <= num <= 9
    ensures TryDigits(g, p, num) ==
      if IsValidMove(g, num, p) && Backtrack(Write(g, p, num)).Some?
      then Backtrack(Write(g, p, num))
      else TryDigits(g, p, num + 1)
  {
  }

  /** The digit loop succeeds at a digit that is valid and whose recursion succeeds. */
  lemma TryDigitsHit(g: Grid, p: Pos, num: int)
    requires g[p.row][p.col] == 0 && 1 <= num <= 9
    requires IsValidMove(g, num, p) && Backtrack(Write(g, p, num)).Some?
    ensures TryDigits(g, p, num).Some?
  {
    TryDigitsStep(g, p, num);
  }

  /** The digit loop succeeds whenever it succeeds from the next digit on. */
  lemma TryDigitsFallThrough(g: Grid, p: Pos, num: int)
    requires g[p.row][p.col] == 0 && 1 <= num <= 9
    requires TryDigits(g, p, num + 1).Some?
    ensures TryDigits(g, p, num).Some?
  {
    TryDigitsStep(g, p, num);
  }

  /** If the digit loop succeeds from digit d on, it succeeds from any earlier digit. */
  lemma {:induction false} TryDigitsReaches(g: Grid, p: Pos, num: int, d: int)
    requires g[p.row][p.col] == 0 && 1 <= num <= d <= 9
    requires TryDigits(g, p, d).Some?
    ensures TryDigits(g, p, num).Some?
    decreases d - num
  {
    if num < d {
      TryDigitsReaches(g, p, num + 1, d);
      TryDigitsFallThrough(g, p, num);
    }
  }

  /**
   * The search is complete: whenever some consistent board completes g,
   * the search succeeds.
   */
  lemma {:induction false} BacktrackComplete(g: Grid, h: Grid)
    requires Completes(g, h) && GridCorrect(h)
    ensures Backtrack(g).Some?
    decreases EmptyCells(g)
  {
    match FirstEmpty(g)
    case None =>
    case Some(p) =>
      var d := h[p.row][p.col];
      CompletionDigitValid(g, h, p);
      FillShrinks(g, p, d);
      var g' := Write(g, p, d);
      assert Completes(g', h);
      BacktrackComplete(g', h);
      TryDigitsHit(g, p, d);
      TryDigitsReaches(g, p, 1, d);
  }

  /**
   * On a consistent board the search succeeds exactly when the board has a
   * consistent completion.
   */
  lemma BacktrackSucceedsIff(g: Grid)
    requires GridCorrect(g)
    ensures Backtrack(g).Some? <==> exists h :: Completes(g, h) && GridCorrect(h)
  {
    BacktrackSound(g);
    if exists h :: Completes(g, h) && GridCorrect(h) {
      var h :| Completes(g, h) && GridCorrect(h);
      BacktrackComplete(g, h);
    }
  }

  /**
   * A full board is reported solved as it stands, even when its givens
   * clash: the search never rechecks the cells it did not fill.
   */
  lemma BacktrackAcceptsFullBoard(g: Grid)
    requires IsFull(g)
    ensures Backtrack(g) == Some(g)
  {
  }

  /** A full board of ones: it clashes in every unit, yet the search accepts it. */
  lemma ClashingBoardSolved()
    ensures var g := seq(9, i => seq(9, j => 1));
      !GridCorrect(g) && Backtrack(g) == Some(g)
  {
    var g: Grid := seq(9, i => seq(9, j => 1));
    assert g[0][0] == g[0][1] == 1;
    assert !RowCorrect(g, 0);
    BacktrackAcceptsFullBoard(g);
  }

  /** The offset by which row i of the shifted board starts: 0, 3, 6, 1, 4, 7, 2, 5, 8. */
  function RowShift(i: Index): int {
    3 * (i % 3) + i / 3
  }

  /** Different rows start at different offsets in 0..8; rows of one band differ by a multiple of 3. */
  lemma RowShiftDistinct(i: Index, k: Index)
    ensures 0 <= RowShift(i) < 9
    ensures i != k ==> RowShift(i) != RowShift(k)
    ensures i / 3 == k / 3 ==> RowShift(i) - RowShift(k) == 3 * (i % 3 - k % 3)
  {
  }

  /** Below 18, taking the remainder by 9 subtracts 9 at most once. */
  lemma Mod9(x: int)
    requires 0 <= x < 18
    ensures x % 9 == if x < 9 then x else x - 9
  {
  }

  /**
   * The shifted board (3 * (i % 3) + i / 3 + j) % 9 + 1 has no clash: two
   * distinct cells of a common row, column or block hold different digits.
   */
  lemma ShiftedNoClash(i: Index, j: Index, k: Index, l: Index)
    requires (i != k || j != l) && SharesUnit(i, j, k, l)
    ensures (RowShift(i) + j) % 9 != (RowShift(k) + l) % 9
  {
    RowShiftDistinct(i, k);
    RowShiftDistinct(k, i);
    Mod9(RowShift(i) + j);
    Mod9(RowShift(k) + l);
  }

  /**
   * Solving the empty board succeeds, and yields a full, consistent board:
   * the shifted board is a consistent completion of it.
   */
  lemma EmptyBoardSolved()
    ensures Backtrack(EmptyGrid()).Some?
    ensures IsFull(Backtrack(EmptyGrid()).value) && GridCorrect(Backtrack(EmptyGrid()).value)
  {
    var h: Grid := seq(9, i requires 0 <= i < 9 => seq(9, j requires 0 <= j < 9 => (RowShift(i) + j) % 9 + 1));
    forall i, j, k, l |
      0 <= i < 9 && 0 <= j < 9 && 0 <= k < 9 && 0 <= l < 9 &&
      (i != k || j != l) && SharesUnit(i, j, k, l) && h[i][j] != 0
      ensures h[i][j] != h[k][l]
    {
      ShiftedNoClash(i, j, k, l);
    }
    GridCorrectIff(h);
    EmptyGridCorrect();
    BacktrackComplete(EmptyGrid(), h);
    BacktrackSound(EmptyGrid());
  }

  /**
   * `solve`: backtracking in place on the board array. On success the board
   * holds the search's solution; on failure every tentative placement has
   * been undone and the board is as it was on entry.
   */
  method Solve(board: array2<int>) returns (solved: bool)
    requires board.Length0 == 9 && board.Length1 == 9
    modifies board
    ensures solved == Backtrack(old(Cells(board))).Some?
    ensures solved ==> Cells(board) == Backtrack(old(Cells(board))).value
    ensures !solved ==> Cells(board) == old(Cells(board))
    ensures solved ==> Completes(old(Cells(board)), Cells(board)) && IsFull(Cells(board))
    ensures solved && GridCorrect(old(Cells(board))) ==> GridCorrect(Cells(board))
    decreases EmptyCells(Cells(board)), 3
  {
    ghost var g := Cells(board);
    var empty := FindEmpty(board);
    if empty.None? {
      solved := true;
    } else {
      solved := SolveAt(board, empty.value);
    }
    BacktrackSound(g);
  }

  /** The digit loop of `solve` at its first empty cell p: try 1..9 in turn. */
  method SolveAt(board: array2<int>, p: Pos) returns (solved: bool)
    requires board.Length0 == 9 && board.Length1 == 9 && board[p.row, p.col] == 0
    modifies board
    ensures solved == TryDigits(old(Cells(board)), p, 1).Some?
    ensures solved ==> Cells(board) == TryDigits(old(Cells(board)), p, 1).value
    ensures !solved ==> Cells(board) == old(Cells(board))
    decreases EmptyCells(Cells(board)), 2
  {
    ghost var g := Cells(board);
    for num := 1 to 10
      invariant Cells(board) == g
      invariant TryDigits(g, p, num) == TryDigits(g, p, 1)
    {
      var done := TryDigit(board, p, num);
      if done {
        return true;
      }
    }
    return false;
  }

  /**
   * One pass of the digit loop: when `is_valid_move` accepts num at p, place
   * it and recurse. The pass succeeds exactly when the digit loop would stop
   * at num, leaving the loop's result; otherwise the board is unchanged and
   * the loop's result is that of the next digit.
   */
  method TryDigit(board: array2<int>, p: Pos, num: Digit) returns (done: bool)
    requires board.Length0 == 9 && board.Length1 == 9 && board[p.row, p.col] == 0
    modifies board
    ensures done ==> TryDigits(old(Cells(board)), p, num).Some?
    ensures done ==> Cells(board) == TryDigits(old(Cells(board)), p, num).value
    ensures !done ==> Cells(board) == old(Cells(board))
    ensures !done ==> TryDigits(old(Cells(board)), p, num) == TryDigits(old(Cells(board)), p, num + 1)
    decreases EmptyCells(Cells(board)), 1
  {
    ghost var g := Cells(board);
    TryDigitsStep(g, p, num);
    done := false;
    if IsValidMove(Cells(board), num, p) {
      done := Place(board, p, num);
    }
  }

  /**
   * One step of the digit loop: write num at the empty cell p, recurse, and
   * write 0 back when the recursion fails.
   */
  method Place(board: array2<int>, p: Pos, num: Digit) returns (done: bool)
    requires board.Length0 == 9 && board.Length1 == 9 && board[p.row, p.col] == 0
    modifies board
    ensures done == Backtrack(Write(old(Cells(board)), p, num)).Some?
    ensures done ==> Cells(board) == Backtrack(Write(old(Cells(board)), p, num)).value
    ensures !done ==> Cells(board) == old(Cells(board))
    decreases EmptyCells(Cells(board)), 0
  {
    ghost var g := Cells(board);
    SetCell(board, p, num);
    FillShrinks(g, p, num);
    done := Solve(board);
    if !done {
      SetCell(board, p, 0);
      WriteUndo(g, p, num);
    }
  }

}
