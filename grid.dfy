/** The 9x9 Sudoku grid as a value, the constraint checker's specification and
    the validity notions the game uses.  Cells hold 0 for "empty" and 1..9 for
    a placed digit; coordinates are 0-based. */
module SudokuGrid {
  const Size: int := 9
  const Empty: int := 0

  predicate IsSquare<T>(m: seq<seq<T>>) {
    |m| == Size && forall i | 0 <= i < Size :: |m[i]| == Size
  }

  /** A 9x9 matrix of cell values (the board or the solution). */
  type Grid = g: seq<seq<int>> | IsSquare(g) witness seq(9, i => seq(9, j => 0))

  /** A 9x9 matrix of flags (the mask of given, immutable cells). */
  type Mask = m: seq<seq<bool>> | IsSquare(m) witness seq(9, i => seq(9, j => false))

  predicate InRange(x: int) { 0 <= x < Size }

  predicate IsDigit(d: int) { 1 <= d <= 9 }

  /** The grid whose every cell is empty, as after clearing the board. */
  function EmptyGrid(): (g: Grid)
    ensures forall i, j | 0 <= i < Size && 0 <= j < Size :: g[i][j] == Empty
  {
    seq(Size, i => seq(Size, j => Empty))
  }

  /** The value view of a 9x9 array: its cells as a 9x9 sequence of rows. */
  ghost function Cells<T>(a: array2<T>): (m: seq<seq<T>>)
    requires a.Length0 == Size && a.Length1 == Size
    reads a
    ensures IsSquare(m)
    ensures forall i, j {:trigger m[i][j]} | 0 <= i < Size && 0 <= j < Size :: m[i][j] == a[i, j]
  {
    seq(Size, i requires 0 <= i < Size reads a =>
      seq(Size, j requires 0 <= j < Size reads a => a[i, j]))
  }

  /** Reading a cell of the array is reading the value view. */
  lemma CellsAt<T>(a: array2<T>)
    requires a.Length0 == Size && a.Length1 == Size
    ensures forall i, j {:trigger a[i, j]} | 0 <= i < Size && 0 <= j < Size :: a[i, j] == Cells(a)[i][j]
  {
  }

  /** The grid `g` with cell (r, c) set to `v` and every other cell kept. */
  function Update(g: Grid, r: int, c: int, v: int): (h: Grid)
    requires InRange(r) && InRange(c)
    ensures forall i, j {:trigger h[i][j]} | 0 <= i < Size && 0 <= j < Size ::
      h[i][j] == if i == r && j == c then v else g[i][j]
  {
    g[r := g[r][c := v]]
  }

  /** Two 9x9 matrices that agree on every cell are equal. */
  lemma MatrixExt<T>(a: seq<seq<T>>, b: seq<seq<T>>)
    requires IsSquare(a) && IsSquare(b)
    requires forall i, j | 0 <= i < Size && 0 <= j < Size :: a[i][j] == b[i][j]
    ensures a == b
  {
    forall i | 0 <= i < Size ensures a[i] == b[i] {
      assert forall j | 0 <= j < Size :: a[i][j] == b[i][j];
    }
  }

  // ---------------------------------------------------------------- boxes

  /** First row (or column) of the 3x3 box holding row (or column) x. */
  function BoxStart(x: int): (start: int) { (x / 3) * 3 }

  lemma BoxStartFacts(x: int)
    requires InRange(x)
    ensures BoxStart(x) == 0 || BoxStart(x) == 3 || BoxStart(x) == 6
    ensures BoxStart(x) <= x < BoxStart(x) + 3
  {
  }

  /** Cell (i, j) lies in the 3x3 box of cell (r, c). */
  predicate InBox(r: int, c: int, i: int, j: int) {
    BoxStart(r) <= i < BoxStart(r) + 3 && BoxStart(c) <= j < BoxStart(c) + 3
  }

  /** Sharing a box is symmetric and is the same as having equal box starts. */
  lemma InBoxIff(r: int, c: int, i: int, j: int)
    requires InRange(r) && InRange(c) && InRange(i) && InRange(j)
    ensures InBox(r, c, i, j) <==> BoxStart(r) == BoxStart(i) && BoxStart(c) == BoxStart(j)
    ensures InBox(r, c, i, j) <==> InBox(i, j, r, c)
  {
    BoxStartFacts(r);
    BoxStartFacts(c);
    BoxStartFacts(i);
    BoxStartFacts(j);
  }

  // ------------------------------------------------------- the checker

  /** The admissibility test of the checker: `num` occurs nowhere in row
      `row`, nowhere in column `col` and nowhere in the 3x3 box of
      (row, col).  The cell (row, col) itself is part of all three scans. */
  predicate Admissible(g: Grid, row: int, col: int, num: int)
    requires InRange(row) && InRange(col)
  {
    BoxStartFacts(row);
    BoxStartFacts(col);
    (forall j | 0 <= j < Size :: g[row][j] != num) &&
    (forall i | 0 <= i < Size :: g[i][col] != num) &&
    (forall i, j | BoxStart(row) <= i < BoxStart(row) + 3 && BoxStart(col) <= j < BoxStart(col) + 3 ::
       g[i][j] != num)
  }

  /** The value of cell (r, c) occurs in no OTHER cell of its row, its
      column or its box. */
  predicate Unique(g: Grid, r: int, c: int)
    requires InRange(r) && InRange(c)
  {
    (forall j | 0 <= j < Size && j != c :: g[r][j] != g[r][c]) &&
    (forall i | 0 <= i < Size && i != r :: g[i][c] != g[r][c]) &&
    (forall i, j | 0 <= i < Size && 0 <= j < Size && InBox(r, c, i, j) && (i != r || j != c) ::
       g[i][j] != g[r][c])
  }

  /** No filled cell repeats its value among its row, column and box. */
  predicate NoConflicts(g: Grid) {
    forall r, c | 0 <= r < Size && 0 <= c < Size && g[r][c] != Empty :: Unique(g, r, c)
  }

  /** The validation step for one cell: an empty cell passes, and a filled
      cell passes when, once cleared, it admits its own value again. */
  predicate CellPasses(g: Grid, r: int, c: int)
    requires InRange(r) && InRange(c)
  {
    g[r][c] != Empty ==> Admissible(Update(g, r, c, Empty), r, c, g[r][c])
  }

  /** What the board validation computes: every cell passes. */
  predicate BoardValid(g: Grid) {
    forall r, c | 0 <= r < Size && 0 <= c < Size :: CellPasses(g, r, c)
  }

  /** Every cell holds a value in 0..9. */
  predicate CellsInRange(g: Grid) {
    forall r, c | 0 <= r < Size && 0 <= c < Size :: 0 <= g[r][c] <= 9
  }

  /** A partial assignment: values in 0..9 and no conflicts among filled cells. */
  predicate Legal(g: Grid) {
    CellsInRange(g) && NoConflicts(g)
  }

  /** No cell is empty. */
  predicate Complete(g: Grid) {
    forall r, c | 0 <= r < Size && 0 <= c < Size :: g[r][c] != Empty
  }

  /** A full solution: every row, column and box holds distinct digits 1..9. */
  predicate Solved(g: Grid) {
    Complete(g) && Legal(g)
  }

  /** `b` keeps every filled cell of `a`. */
  predicate Extends(a: Grid, b: Grid) {
    forall r, c | 0 <= r < Size && 0 <= c < Size && a[r][c] != Empty :: b[r][c] == a[r][c]
  }

  // ---------------------------------------------------------- cell sets

  ghost function AllCells(): set<(int, int)> {
    set r, c | 0 <= r < Size && 0 <= c < Size :: (r, c)
  }

  ghost function EmptyCells(g: Grid): set<(int, int)> {
    set r, c | 0 <= r < Size && 0 <= c < Size && g[r][c] == Empty :: (r, c)
  }

  ghost function FilledCells(g: Grid): set<(int, int)> {
    set r, c | 0 <= r < Size && 0 <= c < Size && g[r][c] != Empty :: (r, c)
  }

  /** Filling an empty cell with a non-empty value removes exactly that cell
      from the set of empty cells. */
  lemma FillOneCell(g: Grid, r: int, c: int, v: int)
    requires InRange(r) && InRange(c) && g[r][c] == Empty && v != Empty
    ensures (r, c) in EmptyCells(g)
    ensures EmptyCells(Update(g, r, c, v)) == EmptyCells(g) - {(r, c)}
  {
    assert (r, c) in EmptyCells(g);
    var h := Update(g, r, c, v);
    assert EmptyCells(h) == EmptyCells(g) - {(r, c)} by {
      forall p | p in EmptyCells(h) ensures p in EmptyCells(g) - {(r, c)} {
        var (i, j) := p;
        assert h[i][j] == Empty;
      }
      forall p | p in EmptyCells(g) - {(r, c)} ensures p in EmptyCells(h) {
        var (i, j) := p;
        assert g[i][j] == Empty;
      }
    }
  }

  /** Filling an empty cell with a non-empty value lowers the number of
      empty cells by one. */
  lemma FillOneCellCount(g: Grid, r: int, c: int, v: int)
    requires InRange(r) && InRange(c) && g[r][c] == Empty && v != Empty
    ensures |EmptyCells(Update(g, r, c, v))| == |EmptyCells(g)| - 1
  {
    FillOneCell(g, r, c, v);
  }

  lemma CompleteIffNoEmptyCells(g: Grid)
    ensures Complete(g) <==> EmptyCells(g) == {}
  {
    if !Complete(g) {
      var r, c :| 0 <= r < Size && 0 <= c < Size && g[r][c] == Empty;
      assert (r, c) in EmptyCells(g);
    }
  }

  // ---------------------------------------------------------- the mask

  /** The mask that marks exactly the filled cells of `g`. */
  function FilledMask(g: Grid): (m: Mask)
    ensures forall i, j {:trigger m[i][j]} | 0 <= i < Size && 0 <= j < Size :: m[i][j] <==> g[i][j] != Empty
  {
    seq(Size, i requires 0 <= i < Size => seq(Size, j requires 0 <= j < Size => g[i][j] != Empty))
  }

  /** The mask in which no cell is given. */
  function NoGivens(): (m: Mask)
    ensures forall i, j | 0 <= i < Size && 0 <= j < Size :: !m[i][j]
  {
    seq(Size, i => seq(Size, j => false))
  }

  /** Given cells are filled and agree with the solution. */
  predicate GivensAgree(board: Grid, solution: Grid, fixed: Mask) {
    forall i, j | 0 <= i < Size && 0 <= j < Size && fixed[i][j] ::
      board[i][j] != Empty && board[i][j] == solution[i][j]
  }

  // ---------------------------------------------------- puzzle derivation

  /** The solution with every drawn coordinate cleared. */
  function Cleared(g: Grid, picks: seq<(int, int)>): (h: Grid)
    ensures forall i, j {:trigger h[i][j]} | 0 <= i < Size && 0 <= j < Size ::
      h[i][j] == if (i, j) in picks then Empty else g[i][j]
  {
    seq(Size, i requires 0 <= i < Size =>
      seq(Size, j requires 0 <= j < Size => if (i, j) in picks then Empty else g[i][j]))
  }
}
