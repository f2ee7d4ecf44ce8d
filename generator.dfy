/**
 * The puzzle generator `generate_sudoku`. The difficulty string gives how
 * many digits are placed and how many cells are then cleared; the random
 * draws of the engine are supplied as sequences: `picks` holds the
 * (row, col, digit) draws of the fill loop, retries included, and `spots`
 * the (row, col) draws of the removal loop.
 */
module Generator {
  import opened Wrappers
  import opened Grids
  import opened Validator

  /** One draw of the fill loop: a cell and a digit. */
  datatype Pick = Pick(at: Pos, num: Digit)

  /**
   * How many digits to place and how many cells to clear: `int(81 * factor)`,
   * which truncates, with fill and remove factors 0.6/0.2 for "Easy",
   * 0.3/0.5 for "Hard" and 0.5/0.3 for every other string ("Medium").
   */
  function Quotas(difficulty: string): (q: (nat, nat))
    ensures difficulty == "Easy" ==> q == (48, 16)
    ensures difficulty == "Hard" ==> q == (24, 40)
    ensures difficulty != "Easy" && difficulty != "Hard" ==> q == (40, 24)
  {
    var (fillTenths, removeTenths) :=
      if difficulty == "Easy" then (6, 2)
      else if difficulty == "Hard" then (3, 5)
      else (5, 3);
    (81 * fillTenths / 10, 81 * removeTenths / 10)
  }

  /**
   * The retry loop keeps a draw once its digit is a valid move at its cell and
   * the cell is empty; writing an accepted draw fills exactly one more cell.
   */
  function Accepts(g: Grid, pick: Pick): (accepted: bool)
    ensures accepted ==> FilledCount(Write(g, pick.at, pick.num)) == FilledCount(g) + 1
  {
    if IsValidMove(g, pick.num, pick.at) && g[pick.at.row][pick.at.col] == 0 then
      WriteCount(g, pick.at, pick.num);
      true
    else
      false
  }

  /**
   * The fill loop: place n more digits, each at the first remaining draw the
   * retry loop accepts; None when the draws run out first, which can only
   * happen while digits remain to place.
   */
  function FillFrom(g: Grid, n: nat, picks: seq<Pick>): (r: Option<Grid>)
    ensures r.None? ==> 0 < n
    decreases |picks|
  {
    if n == 0 then Some(g)
    else if picks == [] then None
    else if Accepts(g, picks[0]) then FillFrom(Write(g, picks[0].at, picks[0].num), n - 1, picks[1..])
    else FillFrom(g, n, picks[1..])
  }

  /** The removal loop: zero the drawn cells one after another. */
  function ClearAll(g: Grid, spots: seq<Pos>): (r: Grid)
    ensures forall i, j :: 0 <= i < 9 && 0 <= j < 9 ==> r[i][j] == g[i][j] || r[i][j] == 0
    decreases |spots|
  {
    if spots == [] then g
    else Write(ClearAll(g, spots[..|spots| - 1]), spots[|spots| - 1], 0)
  }

  /** The board `generate_sudoku` returns for the given draws, or None when the draws run out. */
  function Generate(difficulty: string, picks: seq<Pick>, spots: seq<Pos>): (r: Option<Grid>)
    ensures r.Some? ==> Quotas(difficulty).0 <= |picks| && Quotas(difficulty).1 <= |spots|
  {
    var (fill, remove) := Quotas(difficulty);
    FillFromSound(EmptyGrid(), fill, picks);
    match FillFrom(EmptyGrid(), fill, picks)
    case None => None
    case Some(filled) =>
      if |spots| < remove then None else Some(ClearAll(filled, spots[..remove]))
  }

  /**
   * Each placement lands on an empty cell with a valid digit: the filled
   * board keeps every given of g, has exactly n more filled cells, stays
   * consistent when g is and holds only 0..9 when g does. At least n draws
   * are needed.
   */
  lemma {:induction false} FillFromSound(g: Grid, n: nat, picks: seq<Pick>)
    ensures FillFrom(g, n, picks).Some? ==> n <= |picks|
    ensures FillFrom(g, n, picks).Some? ==>
      FilledCount(FillFrom(g, n, picks).value) == FilledCount(g) + n
    ensures FillFrom(g, n, picks).Some? ==> forall i, j :: 0 <= i < 9 && 0 <= j < 9 && g[i][j] != 0 ==>
      FillFrom(g, n, picks).value[i][j] == g[i][j]
    ensures FillFrom(g, n, picks).Some? && GridCorrect(g) ==> GridCorrect(FillFrom(g, n, picks).value)
    ensures FillFrom(g, n, picks).Some? && InDigits(g) ==> InDigits(FillFrom(g, n, picks).value)
    decreases |picks|
  {
    if n > 0 && picks != [] {
      var pick := picks[0];
      if Accepts(g, pick) {
        var g' := Write(g, pick.at, pick.num);
        WriteCount(g, pick.at, pick.num);
        if GridCorrect(g) {
          PlaceKeepsCorrect(g, pick.at, pick.num);
        }
        FillFromSound(g', n - 1, picks[1..]);
      } else {
        FillFromSound(g, n, picks[1..]);
      }
    }
  }

  /**
   * Clearing never adds a filled cell and removes at most one per draw;
   * every cell ends as it was or as 0, so consistency and the 0..9 range
   * survive.
   */
  lemma {:induction false} ClearAllSound(g: Grid, spots: seq<Pos>)
    ensures FilledCount(g) - |spots| <= FilledCount(ClearAll(g, spots)) <= FilledCount(g)
    ensures forall i, j :: 0 <= i < 9 && 0 <= j < 9 ==>
      ClearAll(g, spots)[i][j] == g[i][j] || ClearAll(g, spots)[i][j] == 0
    ensures GridCorrect(g) ==> GridCorrect(ClearAll(g, spots))
    ensures InDigits(g) ==> InDigits(ClearAll(g, spots))
    decreases |spots|
  {
    if spots != [] {
      var before := ClearAll(g, spots[..|spots| - 1]);
      ClearAllSound(g, spots[..|spots| - 1]);
      WriteCount(before, spots[|spots| - 1], 0);
      if GridCorrect(g) {
        ClearKeepsCorrect(before, spots[|spots| - 1]);
      }
    }
  }

  /**
   * A generated board is consistent, holds only 0..9, and has between
   * fill - remove and fill filled cells; it needs at least fill picks and
   * remove spots.
   */
  lemma GenerateSound(difficulty: string, picks: seq<Pick>, spots: seq<Pos>)
    ensures var (fill, remove) := Quotas(difficulty);
      Generate(difficulty, picks, spots).Some? ==>
        && fill <= |picks| && remove <= |spots|
        && GridCorrect(Generate(difficulty, picks, spots).value)
        && InDigits(Generate(difficulty, picks, spots).value)
        && fill - remove <= FilledCount(Generate(difficulty, picks, spots).value) <= fill
  {
    var (fill, remove) := Quotas(difficulty);
    EmptyGridCount();
    EmptyGridCorrect();
    FillFromSound(EmptyGrid(), fill, picks);
    if FillFrom(EmptyGrid(), fill, picks).Some? && remove <= |spots| {
      ClearAllSound(FillFrom(EmptyGrid(), fill, picks).value, spots[..remove]);
    }
  }

  /** The fill loop passes over every draw the retry loop rejects. */
  lemma {:induction false} FillSkip(g: Grid, n: nat, picks: seq<Pick>, k: nat, next: nat)
    requires 0 < n && k <= next <= |picks|
    requires forall j :: k <= j < next ==> !Accepts(g, picks[j])
    ensures FillFrom(g, n, picks[k..]) == FillFrom(g, n, picks[next..])
    decreases next - k
  {
    if k < next {
      assert picks[k..][1..] == picks[k + 1..];
      FillSkip(g, n, picks, k + 1, next);
    }
  }

  /** The fill loop places the draw the retry loop accepts. */
  lemma FillPlace(g: Grid, n: nat, picks: seq<Pick>, k: nat)
    requires 0 < n && k < |picks| && Accepts(g, picks[k])
    ensures FillFrom(g, n, picks[k..]) ==
      FillFrom(Write(g, picks[k].at, picks[k].num), n - 1, picks[k + 1..])
  {
    assert picks[k..][1..] == picks[k + 1..];
  }

  /**
   * What one pass of the fill loop leaves to do: nothing can be placed when
   * the retry loop runs out of draws, and otherwise m - 1 digits remain from
   * the draw after the accepted one.
   */
  lemma FillAdvance(g: Grid, m: nat, picks: seq<Pick>, k: nat, found: nat)
    requires 0 < m && k <= found <= |picks|
    requires forall j :: k <= j < found ==> !Accepts(g, picks[j])
    requires found < |picks| ==> Accepts(g, picks[found])
    ensures found == |picks| ==> FillFrom(g, m, picks[k..]).None?
    ensures found < |picks| ==>
      FillFrom(g, m, picks[k..]) ==
      FillFrom(Write(g, picks[found].at, picks[found].num), m - 1, picks[found + 1..])
  {
    FillSkip(g, m, picks, k, found);
    if found < |picks| {
      FillPlace(g, m, picks, found);
    } else {
      assert picks[found..] == [];
    }
  }

  /**
   * The retry loop of `generate_sudoku`: starting at draw k, the index of the
   * first draw whose cell is empty and whose digit is a valid move there;
   * |picks| when the supplied draws run out first.
   */
  method NextAccepted(sudoku: array2<int>, picks: seq<Pick>, k: nat, ghost m: nat) returns (next: nat)
    requires sudoku.Length0 == 9 && sudoku.Length1 == 9 && k <= |picks| && 0 < m
    ensures k <= next <= |picks|
    ensures next < |picks| ==> Accepts(Cells(sudoku), picks[next])
    ensures forall j :: k <= j < next ==> !Accepts(Cells(sudoku), picks[j])
    ensures next == |picks| ==> FillFrom(Cells(sudoku), m, picks[k..]).None?
    ensures next < |picks| ==>
      FillFrom(Cells(sudoku), m, picks[k..]) ==
      FillFrom(Write(Cells(sudoku), picks[next].at, picks[next].num), m - 1, picks[next + 1..])
  {
    next := k;
    while next < |picks| && !Accepts(Cells(sudoku), picks[next])
      invariant k <= next <= |picks|
      invariant forall j :: k <= j < next ==> !Accepts(Cells(sudoku), picks[j])
    {
      next := next + 1;
    }
    FillAdvance(Cells(sudoku), m, picks, k, next);
  }

  /**
   * One pass of the fill loop, with m digits still to place from draw k on:
   * run the retry loop and write the accepted draw. When the draws run out
   * the fill fails; otherwise what is left to do is m - 1 digits from the
   * draw after the accepted one.
   */
  method FillStep(sudoku: array2<int>, m: nat, picks: seq<Pick>, k: nat) returns (placed: bool, next: nat)
    requires sudoku.Length0 == 9 && sudoku.Length1 == 9 && 0 < m && k <= |picks|
    modifies sudoku
    ensures next <= |picks|
    ensures !placed ==> FillFrom(old(Cells(sudoku)), m, picks[k..]).None?
    ensures placed ==>
      FillFrom(Cells(sudoku), m - 1, picks[next..]) == FillFrom(old(Cells(sudoku)), m, picks[k..])
  {
    var found := NextAccepted(sudoku, picks, k, m);
    if found == |picks| {
      return false, found;
    }
    var pick := picks[found];
    SetCell(sudoku, pick.at, pick.num);
    return true, found + 1;
  }

  /**
   * The fill loop of `generate_sudoku`: place n digits, each at the draw the
   * retry loop accepts. `filled` is false when the supplied draws run out.
   */
  method FillCells(sudoku: array2<int>, n: nat, picks: seq<Pick>) returns (filled: bool)
    requires sudoku.Length0 == 9 && sudoku.Length1 == 9
    modifies sudoku
    ensures filled == FillFrom(old(Cells(sudoku)), n, picks).Some?
    ensures filled ==> Cells(sudoku) == FillFrom(old(Cells(sudoku)), n, picks).value
  {
    ghost var target := FillFrom(Cells(sudoku), n, picks);
    var k: nat := 0;
    assert picks[k..] == picks;
    for placed := 0 to n
      invariant k <= |picks|
      invariant FillFrom(Cells(sudoku), n - placed, picks[k..]) == target
    {
      var ok;
      ok, k := FillStep(sudoku, n - placed, picks, k);
      if !ok {
        return false;
      }
    }
    return true;
  }

  /** The removal loop of `generate_sudoku`: zero each drawn cell in turn. */
  method ClearCells(sudoku: array2<int>, spots: seq<Pos>)
    requires sudoku.Length0 == 9 && sudoku.Length1 == 9
    modifies sudoku
    ensures Cells(sudoku) == ClearAll(old(Cells(sudoku)), spots)
  {
    ghost var start := Cells(sudoku);
    assert spots[..0] == [];
    for removed := 0 to |spots|
      invariant Cells(sudoku) == ClearAll(start, spots[..removed])
    {
      var spot := spots[removed];
      SetCell(sudoku, spot, 0);
      assert spots[..removed + 1][..removed] == spots[..removed];
    }
    assert spots[..|spots|] == spots;
  }

  /**
   * `generate_sudoku`: start from a zero board, run the fill loop for the
   * difficulty's fill count, then the removal loop for its remove count.
   * `complete` is false when the supplied draws run out; otherwise the
   * board is the one `Generate` describes, and it is consistent.
   */
  method GenerateSudoku(difficulty: string, picks: seq<Pick>, spots: seq<Pos>)
    returns (sudoku: array2<int>, complete: bool)
    ensures fresh(sudoku) && sudoku.Length0 == 9 && sudoku.Length1 == 9
    ensures complete == Generate(difficulty, picks, spots).Some?
    ensures complete ==> Cells(sudoku) == Generate(difficulty, picks, spots).value
    ensures complete ==> GridCorrect(Cells(sudoku))
  {
    var (fill, remove) := Quotas(difficulty);
    sudoku := new int[9, 9]((i, j) => 0);
    SameCells(Cells(sudoku), EmptyGrid());
    var filled := FillCells(sudoku, fill, picks);
    if !filled || |spots| < remove {
      return sudoku, false;
    }
    ClearCells(sudoku, spots[..remove]);
    GenerateSound(difficulty, picks, spots);
    return sudoku, true;
  }

}
