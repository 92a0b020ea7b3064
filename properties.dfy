/** Properties of the Sudoku rules: what the board validation decides, what
    placing an admissible digit keeps, what a full solution looks like, and
    how many cells a derived puzzle keeps. */
module SudokuProperties {
  import opened SudokuGrid
  import opened Counting

  // ------------------------------------------- validation vs. uniqueness

  /** Clearing a filled cell and asking the checker whether it admits its
      own value is the same as asking that the value occurs in no other cell
      of its row, column and box. */
  lemma ClearedCheckIffUnique(g: Grid, r: int, c: int)
    requires InRange(r) && InRange(c) && g[r][c] != Empty
    ensures Admissible(Update(g, r, c, Empty), r, c, g[r][c]) <==> Unique(g, r, c)
  {
    BoxStartFacts(r);
    BoxStartFacts(c);
    var h := Update(g, r, c, Empty);
    var v := g[r][c];
    if Unique(g, r, c) {
      assert forall j | 0 <= j < Size :: h[r][j] != v;
      assert forall i | 0 <= i < Size :: h[i][c] != v;
      forall i, j | BoxStart(r) <= i < BoxStart(r) + 3 && BoxStart(c) <= j < BoxStart(c) + 3
        ensures h[i][j] != v
      {
        assert InBox(r, c, i, j);
      }
    }
    if Admissible(h, r, c, v) {
      assert forall j | 0 <= j < Size && j != c :: g[r][j] == h[r][j];
      assert forall i | 0 <= i < Size && i != r :: g[i][c] == h[i][c];
      forall i, j | 0 <= i < Size && 0 <= j < Size && InBox(r, c, i, j) && (i != r || j != c)
        ensures g[i][j] != v
      {
        assert h[i][j] != v;
      }
    }
  }

  /** The clear-check-restore validation accepts a board exactly when no
      filled cell repeats its value in another cell of its row, column or
      box. */
  lemma BoardValidIffNoConflicts(g: Grid)
    ensures BoardValid(g) <==> NoConflicts(g)
  {
    forall r, c | 0 <= r < Size && 0 <= c < Size
      ensures CellPasses(g, r, c) <==> (g[r][c] != Empty ==> Unique(g, r, c))
    {
      if g[r][c] != Empty {
        ClearedCheckIffUnique(g, r, c);
      }
    }
  }

  // ------------------------------------------------- placing a digit

  /** After an admissible digit d is written into the empty cell (r, c),
      a filled cell (i, j) other than (r, c) is still unique. */
  lemma PlaceKeepsOtherUnique(g: Grid, r: int, c: int, d: int, i: int, j: int)
    requires InRange(r) && InRange(c) && InRange(i) && InRange(j)
    requires g[r][c] == Empty && Admissible(g, r, c, d)
    requires (i != r || j != c) && g[i][j] != Empty && Unique(g, i, j)
    ensures Unique(Update(g, r, c, d), i, j)
  {
    var h := Update(g, r, c, d);
    BoxStartFacts(r);
    BoxStartFacts(c);
    InBoxIff(i, j, r, c);
    assert InBox(i, j, r, c) ==> g[i][j] != d;
  }

  /** After an admissible digit d is written into the empty cell (r, c),
      that cell is unique. */
  lemma PlaceMakesTargetUnique(g: Grid, r: int, c: int, d: int)
    requires InRange(r) && InRange(c)
    requires g[r][c] == Empty && Admissible(g, r, c, d)
    ensures Unique(Update(g, r, c, d), r, c)
  {
    var h := Update(g, r, c, d);
    BoxStartFacts(r);
    BoxStartFacts(c);
    forall i, j | 0 <= i < Size && 0 <= j < Size && InBox(r, c, i, j) && (i != r || j != c)
      ensures h[i][j] != h[r][c]
    {
      assert g[i][j] != d;
    }
  }

  /** Writing an admissible digit 1..9 into an empty cell of a conflict-free
      grid gives a conflict-free grid: the solver's step invariant. */
  lemma PlaceKeepsLegal(g: Grid, r: int, c: int, d: int)
    requires InRange(r) && InRange(c) && IsDigit(d)
    requires Legal(g) && g[r][c] == Empty && Admissible(g, r, c, d)
    ensures Legal(Update(g, r, c, d))
  {
    var h := Update(g, r, c, d);
    forall i, j | 0 <= i < Size && 0 <= j < Size && h[i][j] != Empty
      ensures Unique(h, i, j)
    {
      if i == r && j == c {
        PlaceMakesTargetUnique(g, r, c, d);
      } else {
        PlaceKeepsOtherUnique(g, r, c, d, i, j);
      }
    }
  }

  /** One step of the backtracking search: placing an admissible digit on an
      empty cell and then extending the result to `final` extends the
      original grid, and solves it when the original was conflict-free and
      a conflict-free start is solved by the extension. */
  lemma PlaceThenExtend(g: Grid, r: int, c: int, d: int, final: Grid)
    requires InRange(r) && InRange(c) && IsDigit(d)
    requires g[r][c] == Empty && Admissible(g, r, c, d)
    requires Extends(Update(g, r, c, d), final)
    requires Legal(Update(g, r, c, d)) ==> Solved(final)
    ensures Extends(g, final)
    ensures Legal(g) ==> Solved(final)
  {
    var h := Update(g, r, c, d);
    forall i, j | 0 <= i < Size && 0 <= j < Size && g[i][j] != Empty
      ensures final[i][j] == g[i][j]
    {
      assert h[i][j] == g[i][j];
    }
    if Legal(g) {
      PlaceKeepsLegal(g, r, c, d);
    }
  }

  /** The checker never admits the value a cell already holds, because the
      cell itself is part of the row scan; this is why the validation
      clears a cell before checking it. */
  lemma CellNeverAdmitsItsOwnValue(g: Grid, r: int, c: int)
    requires InRange(r) && InRange(c)
    ensures !Admissible(g, r, c, g[r][c])
  {
    assert g[r][c] == g[r][c];
  }

  /** In particular the empty value is never admitted at an empty cell. */
  lemma EmptyNeverAdmissibleAtEmptyCell(g: Grid, r: int, c: int)
    requires InRange(r) && InRange(c) && g[r][c] == Empty
    ensures !Admissible(g, r, c, Empty)
  {
    CellNeverAdmitsItsOwnValue(g, r, c);
  }

  // ------------------------------------------------- full solutions

  /** Column c of the grid, top to bottom. */
  function Column(g: Grid, c: int): (col: seq<int>)
    requires InRange(c)
    ensures |col| == Size && forall i | 0 <= i < Size :: col[i] == g[i][c]
  {
    seq(Size, i requires 0 <= i < Size => g[i][c])
  }

  /** Box b (0..8, row-major over the boxes), its cells in row-major order. */
  function BoxCells(g: Grid, b: int): (box: seq<int>)
    requires InRange(b)
    ensures |box| == Size
    ensures forall k | 0 <= k < Size :: box[k] == g[(b / 3) * 3 + k / 3][(b % 3) * 3 + k % 3]
  {
    seq(Size, k requires 0 <= k < Size => g[(b / 3) * 3 + k / 3][(b % 3) * 3 + k % 3])
  }

  lemma SolvedRowDistinct(s: Grid, r: int)
    requires Solved(s) && InRange(r)
    ensures Distinct(s[r]) && forall k | 0 <= k < 9 :: 1 <= s[r][k] <= 9
  {
    forall k, l | 0 <= k < l < |s[r]| ensures s[r][k] != s[r][l] {
      assert Unique(s, r, k);
    }
  }

  lemma SolvedColumnDistinct(s: Grid, c: int)
    requires Solved(s) && InRange(c)
    ensures Distinct(Column(s, c)) && forall k | 0 <= k < 9 :: 1 <= Column(s, c)[k] <= 9
  {
    var col := Column(s, c);
    forall k, l | 0 <= k < l < |col| ensures col[k] != col[l] {
      assert Unique(s, k, c);
    }
  }

  /** The k-th cell of box b: its row and column lie in box b. */
  lemma BoxCellFacts(b: int, k: int)
    requires InRange(b) && 0 <= k < Size
    ensures InRange((b / 3) * 3 + k / 3) && InRange((b % 3) * 3 + k % 3)
    ensures BoxStart((b / 3) * 3 + k / 3) == (b / 3) * 3
    ensures BoxStart((b % 3) * 3 + k % 3) == (b % 3) * 3
  {
  }

  lemma SolvedBoxDistinct(s: Grid, b: int)
    requires Solved(s) && InRange(b)
    ensures Distinct(BoxCells(s, b)) && forall k | 0 <= k < 9 :: 1 <= BoxCells(s, b)[k] <= 9
  {
    var box := BoxCells(s, b);
    var top, left := (b / 3) * 3, (b % 3) * 3;
    forall k | 0 <= k < 9 ensures 1 <= box[k] <= 9 {
      BoxCellFacts(b, k);
    }
    forall k, l | 0 <= k < l < |box| ensures box[k] != box[l] {
      BoxCellFacts(b, k);
      BoxCellFacts(b, l);
      var ik, jk := top + k / 3, left + k % 3;
      var il, jl := top + l / 3, left + l % 3;
      assert ik != il || jk != jl;
      InBoxIff(ik, jk, il, jl);
      assert Unique(s, ik, jk);
    }
  }

  /** In a full solution every row, every column and every box holds each
      digit 1..9 (exactly once, since Solved already forbids repeats). */
  lemma SolvedUnitsHoldEveryDigit(s: Grid, unit: int, d: int)
    requires Solved(s) && InRange(unit) && IsDigit(d)
    ensures d in s[unit]
    ensures d in Column(s, unit)
    ensures d in BoxCells(s, unit)
  {
    SolvedRowDistinct(s, unit);
    NineDistinctDigitsCover(s[unit], d);
    SolvedColumnDistinct(s, unit);
    NineDistinctDigitsCover(Column(s, unit), d);
    SolvedBoxDistinct(s, unit);
    NineDistinctDigitsCover(BoxCells(s, unit), d);
  }

  /** The checker, asked about a cleared cell of a full solution, admits
      exactly the digit the solution has there. */
  lemma ClearedSolutionAdmitsOnlyItsDigit(s: Grid, r: int, c: int, d: int)
    requires Solved(s) && InRange(r) && InRange(c) && IsDigit(d)
    ensures Admissible(Update(s, r, c, Empty), r, c, d) <==> d == s[r][c]
  {
    if d == s[r][c] {
      ClearedCheckIffUnique(s, r, c);
    } else {
      SolvedUnitsHoldEveryDigit(s, r, d);
      var j :| 0 <= j < Size && s[r][j] == d;
      assert Update(s, r, c, Empty)[r][j] == d;
    }
  }

  /** Changing one cell of a full solution to a different digit makes the
      board fail validation. */
  lemma WrongDigitFailsValidation(s: Grid, r: int, c: int, d: int)
    requires Solved(s) && InRange(r) && InRange(c) && IsDigit(d) && d != s[r][c]
    ensures Complete(Update(s, r, c, d))
    ensures !BoardValid(Update(s, r, c, d))
  {
    var h := Update(s, r, c, d);
    SolvedUnitsHoldEveryDigit(s, r, d);
    var j :| 0 <= j < Size && s[r][j] == d;
    assert h[r][j] == h[r][c];
    assert !Unique(h, r, c);
    BoardValidIffNoConflicts(h);
  }

  /** The win test: a board with values in 0..9 passes both validation and
      the completeness check exactly when it is a full solution. */
  lemma WinIffSolved(b: Grid)
    requires CellsInRange(b)
    ensures BoardValid(b) && Complete(b) <==> Solved(b)
  {
    BoardValidIffNoConflicts(b);
  }

  // ------------------------------------------------- the session invariant

  /** Writing a digit into a cell that is not given keeps the values in
      0..9 and keeps every given cell as it was. */
  lemma WriteKeepsGivens(b: Grid, s: Grid, m: Mask, r: int, c: int, v: int)
    requires CellsInRange(b) && GivensAgree(b, s, m)
    requires InRange(r) && InRange(c) && !m[r][c] && 0 <= v <= 9
    ensures CellsInRange(Update(b, r, c, v))
    ensures GivensAgree(Update(b, r, c, v), s, m)
  {
    var h := Update(b, r, c, v);
    forall i, j | 0 <= i < Size && 0 <= j < Size ensures 0 <= h[i][j] <= 9 {
      assert b[i][j] == h[i][j] || h[i][j] == v;
    }
    forall i, j | 0 <= i < Size && 0 <= j < Size && m[i][j]
      ensures h[i][j] != Empty && h[i][j] == s[i][j]
    {
      assert h[i][j] == b[i][j];
    }
  }

  // ------------------------------------------------- puzzle derivation

  /** The 81 coordinates in row-major order. */
  function RowMajor(): (cells: seq<(int, int)>)
    ensures |cells| == 81
    ensures forall k | 0 <= k < 81 :: cells[k] == (k / 9, k % 9)
  {
    seq(81, k => (k / 9, k % 9))
  }

  /** The board has 81 cells. */
  lemma AllCellsCard()
    ensures |AllCells()| == 81
  {
    var s := RowMajor();
    forall k, l | 0 <= k < l < 81 ensures s[k] != s[l] {
    }
    DistinctSeqSetCard(s);
    forall p | p in AllCells() ensures p in s {
      var (r, c) := p;
      assert s[9 * r + c] == p;
    }
    assert (set x | x in s) == AllCells();
  }

  /** The board has 81 cells, each of them either empty or filled. */
  lemma EmptyPlusFilled(g: Grid)
    ensures |AllCells()| == 81
    ensures |EmptyCells(g)| + |FilledCells(g)| == 81
  {
    AllCellsCard();
    var empty, filled := EmptyCells(g), FilledCells(g);
    assert empty !! filled by {
      forall p | p in empty ensures p !in filled {
        var (r, c) := p;
        assert g[r][c] == Empty;
      }
    }
    assert empty + filled == AllCells() by {
      forall p | p in AllCells() ensures p in empty + filled {
        var (r, c) := p;
        if g[r][c] == Empty { assert p in empty; } else { assert p in filled; }
      }
    }
  }

  /** Clearing drawn coordinates: filled cells keep the solution's value,
      and the cleared cells are exactly the drawn ones (for a full
      solution). */
  lemma ClearedAgrees(s: Grid, picks: seq<(int, int)>)
    ensures Extends(Cleared(s, picks), s)
    ensures Complete(s) ==> EmptyCells(Cleared(s, picks)) == (set p | p in picks && p in AllCells())
    ensures CellsInRange(s) ==> CellsInRange(Cleared(s, picks))
    ensures GivensAgree(Cleared(s, picks), s, FilledMask(Cleared(s, picks)))
  {
  }

  /** Repeated draws clear nothing new: a full solution cleared at
      |picks| drawn coordinates has at most |picks| empty cells, so at least
      81 - |picks| cells stay filled. */
  lemma ClearedKeepsEnoughCells(s: Grid, picks: seq<(int, int)>)
    requires Complete(s)
    ensures |EmptyCells(Cleared(s, picks))| <= |picks|
    ensures |FilledCells(Cleared(s, picks))| >= 81 - |picks|
  {
    var h := Cleared(s, picks);
    assert EmptyCells(h) <= set p | p in picks;
    SubsetCard(EmptyCells(h), set p | p in picks);
    SeqSetCard(picks);
    EmptyPlusFilled(h);
  }
}
