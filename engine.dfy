/** The puzzle engine: one game session holding the player's board, the
    solution and the mask of given cells, with the operations the command
    loop calls on it. */
module SudokuEngine {
  import opened SudokuGrid
  import opened SudokuProperties
  import opened Counting

  /** Outcome of a player's move: placed, or which check rejected it. */
  datatype MoveResult = Placed | BadPosition | BadNumber | Locked

  /** Outcome of a hint request: no empty cell, or the revealed cell. */
  datatype HintResult = NoEmptyCells | Revealed(row: int, col: int, digit: int)

  /** The candidate digits, in the order the solver lists them before shuffling. */
  const Digits: seq<int> := seq(9, i => i + 1)

  lemma DigitsAreDigits(x: int)
    requires x in Digits
    ensures IsDigit(x)
  {
  }

  /** The library shuffle: walks the list from the back and swaps each
      position with a position drawn at random at or before it.  Each
      draw is an arbitrary choice, so any permutation may come out. */
  method Shuffle(s: seq<int>) returns (order: seq<int>)
    ensures |order| == |s|
    ensures multiset(order) == multiset(s)
    ensures forall k | 0 <= k < |order| :: order[k] in s
  {
    order := s;
    var i := |s|;
    while i > 1
      invariant 0 <= i <= |s| && |order| == |s|
      invariant multiset(order) == multiset(s)
    {
      var j :| 0 <= j < i;
      SwapKeepsMultiset(order, j, i - 1);
      order := order[i - 1 := order[j]][j := order[i - 1]];
      i := i - 1;
    }
    forall k | 0 <= k < |order| ensures order[k] in s {
      assert order[k] in multiset(order);
    }
  }

  /** Exchanging two positions of a sequence keeps its multiset. */
  lemma SwapKeepsMultiset(s: seq<int>, j: int, k: int)
    requires 0 <= j <= k < |s|
    ensures multiset(s[k := s[j]][j := s[k]]) == multiset(s)
  {
    var u := s[k := s[j]];
    assert multiset(u) == multiset(s) - multiset{s[k]} + multiset{s[j]};
    assert multiset(u[j := s[k]]) == multiset(u) - multiset{u[j]} + multiset{s[k]};
  }

  /** The verdict on a parsed move, checks in this order: a position
      outside 1..9, a number outside 1..9 (0 included), a given cell. */
  function MoveVerdict(rowInput: int, colInput: int, num: int, fixed: Mask): (verdict: MoveResult) {
    if !InRange(rowInput - 1) || !InRange(colInput - 1) then BadPosition
    else if !IsDigit(num) then BadNumber
    else if fixed[rowInput - 1][colInput - 1] then Locked
    else Placed
  }

  /** The verdict the help text promises, where 0 erases a cell. */
  function ErasingVerdict(rowInput: int, colInput: int, num: int, fixed: Mask): (verdict: MoveResult) {
    if !InRange(rowInput - 1) || !InRange(colInput - 1) then BadPosition
    else if !(0 <= num <= 9) then BadNumber
    else if fixed[rowInput - 1][colInput - 1] then Locked
    else Placed
  }

  /** A move is placed exactly when the 1-based position is on the board,
      the number is a digit and the 0-based cell is not given; in
      particular 0 is never placed. */
  lemma MovePlacedIff(rowInput: int, colInput: int, num: int, fixed: Mask)
    ensures MoveVerdict(rowInput, colInput, num, fixed) == Placed <==>
      InRange(rowInput - 1) && InRange(colInput - 1) && IsDigit(num) && !fixed[rowInput - 1][colInput - 1]
    ensures MoveVerdict(rowInput, colInput, 0, fixed) != Placed
  {
  }

  /** "1 1 0" on a board without givens: the code rejects it as a bad
      number, the help text's reading erases cell (0, 0). */
  lemma EraseRequestRejected()
    ensures MoveVerdict(1, 1, 0, NoGivens()) == BadNumber
    ensures ErasingVerdict(1, 1, 0, NoGivens()) == Placed
  {
  }

  /** Under the help text's reading, an erase request on a free cell is
      placed, leaves that cell empty, and a filled cell erased adds exactly
      one empty cell. */
  lemma EraseEmptiesCell(g: Grid, fixed: Mask, rowInput: int, colInput: int)
    requires InRange(rowInput - 1) && InRange(colInput - 1) && !fixed[rowInput - 1][colInput - 1]
    ensures ErasingVerdict(rowInput, colInput, 0, fixed) == Placed
    ensures Update(g, rowInput - 1, colInput - 1, Empty)[rowInput - 1][colInput - 1] == Empty
    ensures g[rowInput - 1][colInput - 1] != Empty ==>
      |EmptyCells(Update(g, rowInput - 1, colInput - 1, Empty))| == |EmptyCells(g)| + 1
  {
    var r, c := rowInput - 1, colInput - 1;
    if g[r][c] != Empty {
      var h := Update(g, r, c, Empty);
      MatrixExt(Update(h, r, c, g[r][c]), g);
      FillOneCellCount(h, r, c, g[r][c]);
    }
  }

  /** Row-major order of coordinates: p strictly before q. */
  predicate Before(p: (int, int), q: (int, int)) {
    p.0 < q.0 || (p.0 == q.0 && p.1 < q.1)
  }

  class SudokuGame {
    var board: array2<int>
    var solution: array2<int>
    var isFixed: array2<bool>

    /** The three arrays are 9x9 and the board is not the solution. */
    ghost predicate Valid()
      reads this
    {
      board.Length0 == Size && board.Length1 == Size &&
      solution.Length0 == Size && solution.Length1 == Size &&
      isFixed.Length0 == Size && isFixed.Length1 == Size &&
      board != solution
    }

    /** The session invariant: values stay in 0..9, and every given cell is
        filled and agrees with the solution. */
    ghost predicate Consistent()
      requires Valid()
      reads this, board, solution, isFixed
    {
      CellsInRange(Cells(board)) && CellsInRange(Cells(solution)) &&
      GivensAgree(Cells(board), Cells(solution), Cells(isFixed))
    }

    /** A new session: all three arrays hold their zero values. */
    constructor ()
      ensures fresh(board) && fresh(solution) && fresh(isFixed)
      ensures Valid() && Consistent()
      ensures Cells(board) == EmptyGrid() && Cells(solution) == EmptyGrid()
      ensures Cells(isFixed) == NoGivens()
    {
      board := new int[Size, Size]((i, j) => Empty);
      solution := new int[Size, Size]((i, j) => Empty);
      isFixed := new bool[Size, Size]((i, j) => false);
      new;
      MatrixExt(Cells(board), EmptyGrid());
      MatrixExt(Cells(solution), EmptyGrid());
      MatrixExt(Cells(isFixed), NoGivens());
    }

    // ------------------------------------------------------ the checker

    /** Scans the row, the column and the 3x3 box of (row, col) for `num`,
        the cell itself included. */
    static method IsValidMove(grid: array2<int>, row: int, col: int, num: int) returns (ok: bool)
      requires grid.Length0 == Size && grid.Length1 == Size
      requires InRange(row) && InRange(col)
      ensures ok == Admissible(Cells(grid), row, col, num)
    {
      for j := 0 to Size
        invariant forall j' | 0 <= j' < j :: grid[row, j'] != num
      {
        if grid[row, j] == num {
          assert Cells(grid)[row][j] == num;
          return false;
        }
      }
      for i := 0 to Size
        invariant forall i' | 0 <= i' < i :: grid[i', col] != num
      {
        if grid[i, col] == num {
          assert Cells(grid)[i][col] == num;
          return false;
        }
      }
      var startRow := (row / 3) * 3;
      var startCol := (col / 3) * 3;
      BoxStartFacts(row);
      BoxStartFacts(col);
      for i := startRow to startRow + 3
        invariant forall i', j' | startRow <= i' < i && startCol <= j' < startCol + 3 :: grid[i', j'] != num
      {
        for j := startCol to startCol + 3
          invariant forall j' | startCol <= j' < j :: grid[i, j'] != num
        {
          if grid[i, j] == num {
            assert Cells(grid)[i][j] == num;
            return false;
          }
        }
      }
      return true;
    }

    // ------------------------------------------------------- the solver

    /** Backtracking: fills the first empty cell (row-major) with each
        admissible digit of a shuffled order in turn and recurses; a failed
        attempt is undone.  On success the grid is full and keeps every
        cell that was filled on entry, and it is a full solution when the
        entry grid was conflict-free; on failure the grid is as on entry. */
    static method SolveSudoku(grid: array2<int>) returns (solved: bool)
      requires grid.Length0 == Size && grid.Length1 == Size
      modifies grid
      ensures solved ==> Complete(Cells(grid)) && Extends(old(Cells(grid)), Cells(grid))
      ensures solved && Legal(old(Cells(grid))) ==> Solved(Cells(grid))
      ensures !solved ==> Cells(grid) == old(Cells(grid))
      decreases |EmptyCells(Cells(grid))|
    {
      ghost var start := Cells(grid);
      for row := 0 to Size
        invariant Cells(grid) == start
        invariant forall i, j | 0 <= i < row && 0 <= j < Size :: grid[i, j] != Empty
      {
        for col := 0 to Size
          invariant Cells(grid) == start
          invariant forall i, j | 0 <= i < row && 0 <= j < Size :: grid[i, j] != Empty
          invariant forall j | 0 <= j < col :: grid[row, j] != Empty
        {
          if grid[row, col] == Empty {
            var numbers := Shuffle(Digits);
            for k := 0 to |numbers|
              invariant Cells(grid) == start
            {
              var num := numbers[k];
              DigitsAreDigits(num);
              var ok := IsValidMove(grid, row, col, num);
              if ok {
                grid[row, col] := num;
                ghost var placed := Update(start, row, col, num);
                MatrixExt(Cells(grid), placed);
                FillOneCellCount(start, row, col, num);
                solved := SolveSudoku(grid);
                if solved {
                  PlaceThenExtend(start, row, col, num, Cells(grid));
                  return;
                }
                CellsAt(grid);
                grid[row, col] := Empty;
                MatrixExt(Cells(grid), start);
              }
            }
            return false;
          }
        }
      }
      return true;
    }

    // --------------------------------------------------- the generator

    /** Resets the board and the solution to empty and clears the mask. */
    method ClearBoard()
      requires Valid()
      modifies board, solution, isFixed
      ensures Cells(board) == EmptyGrid() && Cells(solution) == EmptyGrid()
      ensures Cells(isFixed) == NoGivens()
    {
      for i := 0 to Size
        invariant forall i', j' | 0 <= i' < i && 0 <= j' < Size ::
          board[i', j'] == Empty && solution[i', j'] == Empty && !isFixed[i', j']
      {
        for j := 0 to Size
          invariant forall i', j' | 0 <= i' < i && 0 <= j' < Size ::
            board[i', j'] == Empty && solution[i', j'] == Empty && !isFixed[i', j']
          invariant forall j' | 0 <= j' < j ::
            board[i, j'] == Empty && solution[i, j'] == Empty && !isFixed[i, j']
        {
          board[i, j] := Empty;
          solution[i, j] := Empty;
          isFixed[i, j] := false;
        }
      }
      MatrixExt(Cells(board), EmptyGrid());
      MatrixExt(Cells(solution), EmptyGrid());
      MatrixExt(Cells(isFixed), NoGivens());
    }

    /** Builds a new game.  The random removal count (40 + a draw in 0..9)
        and the random coordinates drawn for the removals are inputs.  The
        solver's result is not consulted, so the solution is either a full
        solution or, had the solver failed, still empty; the board is that
        solution with the drawn cells cleared, and exactly its filled cells
        are given. */
    method GeneratePuzzle(cellsToRemove: int, picks: seq<(int, int)>)
      requires Valid()
      requires 40 <= cellsToRemove <= 49
      requires |picks| == cellsToRemove
      requires forall k | 0 <= k < |picks| :: InRange(picks[k].0) && InRange(picks[k].1)
      modifies board, solution, isFixed
      ensures Valid() && Consistent()
      ensures Solved(Cells(solution)) || Cells(solution) == EmptyGrid()
      ensures Cells(board) == Cleared(Cells(solution), picks)
      ensures Cells(isFixed) == FilledMask(Cells(board))
      ensures Extends(Cells(board), Cells(solution))
      ensures Solved(Cells(solution)) ==> |FilledCells(Cells(board))| >= 81 - cellsToRemove >= 32
    {
      ClearBoard();
      CellsAt(isFixed);
      assert Legal(Cells(solution));
      var solved := SolveSudoku(solution);
      CopySolution();
      RemoveCells(picks);
      MarkGivens();
      MatrixExt(Cells(isFixed), FilledMask(Cells(board)));
      ClearedAgrees(Cells(solution), picks);
      if Solved(Cells(solution)) {
        ClearedKeepsEnoughCells(Cells(solution), picks);
      }
    }

    /** First phase of the generator: the board becomes a copy of the
        solution. */
    method CopySolution()
      requires Valid()
      modifies board
      ensures Cells(board) == Cells(solution)
    {
      for i := 0 to Size
        invariant forall i', j' | 0 <= i' < i && 0 <= j' < Size :: board[i', j'] == solution[i', j']
      {
        for j := 0 to Size
          invariant forall i', j' | 0 <= i' < i && 0 <= j' < Size :: board[i', j'] == solution[i', j']
          invariant forall j' | 0 <= j' < j :: board[i, j'] == solution[i, j']
        {
          board[i, j] := solution[i, j];
        }
      }
      MatrixExt(Cells(board), Cells(solution));
    }

    /** Second phase of the generator: each drawn coordinate whose cell is
        filled is cleared and unmarked; a coordinate drawn again finds its
        cell already empty and changes nothing. */
    method RemoveCells(picks: seq<(int, int)>)
      requires Valid()
      requires forall k | 0 <= k < |picks| :: InRange(picks[k].0) && InRange(picks[k].1)
      modifies board, isFixed
      ensures Cells(board) == Cleared(old(Cells(board)), picks)
      ensures forall i, j | 0 <= i < Size && 0 <= j < Size ::
        isFixed[i, j] == (old(isFixed[i, j]) && ((i, j) !in picks || old(board[i, j]) == Empty))
    {
      ghost var start := Cells(board);
      CellsAt(board);
      for k := 0 to |picks|
        invariant forall i, j | 0 <= i < Size && 0 <= j < Size ::
          board[i, j] == if (i, j) in picks[..k] then Empty else start[i][j]
        invariant forall i, j | 0 <= i < Size && 0 <= j < Size ::
          isFixed[i, j] == (old(isFixed[i, j]) && ((i, j) !in picks[..k] || start[i][j] == Empty))
      {
        var row, col := picks[k].0, picks[k].1;
        assert picks[..k + 1] == picks[..k] + [picks[k]];
        if board[row, col] != Empty {
          board[row, col] := Empty;
          isFixed[row, col] := false;
        }
      }
      assert picks[..|picks|] == picks;
      MatrixExt(Cells(board), Cleared(start, picks));
    }

    /** Third phase of the generator: every filled cell is marked as given;
        no mark is taken away. */
    method MarkGivens()
      requires Valid()
      modifies isFixed
      ensures forall i, j | 0 <= i < Size && 0 <= j < Size ::
        isFixed[i, j] == (old(isFixed[i, j]) || board[i, j] != Empty)
    {
      for i := 0 to Size
        invariant forall i', j' | 0 <= i' < Size && 0 <= j' < Size ::
          isFixed[i', j'] == (old(isFixed[i', j']) || (i' < i && board[i', j'] != Empty))
      {
        for j := 0 to Size
          invariant forall i', j' | 0 <= i' < Size && 0 <= j' < Size ::
            isFixed[i', j'] == (old(isFixed[i', j']) ||
              ((i' < i || (i' == i && j' < j)) && board[i', j'] != Empty))
        {
          if board[i, j] != Empty {
            isFixed[i, j] := true;
          }
        }
      }
    }

    // ----------------------------------------------------- player moves

    /** A move as parsed from the player's line "row col num", 1-based,
        judged by `MoveVerdict`.  Only a placed move changes the board, and
        only at the target cell, whether or not the number conflicts. */
    method ProcessMove(rowInput: int, colInput: int, num: int) returns (result: MoveResult)
      requires Valid()
      modifies board
      ensures result == MoveVerdict(rowInput, colInput, num, Cells(isFixed))
      ensures result == Placed ==>
        Cells(board) == Update(old(Cells(board)), rowInput - 1, colInput - 1, num)
      ensures result != Placed ==> Cells(board) == old(Cells(board))
      ensures old(Consistent()) ==> Consistent()
    {
      var row := rowInput - 1;
      var col := colInput - 1;
      if row < 0 || row >= Size || col < 0 || col >= Size {
        return BadPosition;
      }
      if num < 1 || num > 9 {
        return BadNumber;
      }
      assert Cells(isFixed)[row][col] == isFixed[row, col];
      if isFixed[row, col] {
        return Locked;
      }
      ghost var before := Cells(board);
      board[row, col] := num;
      MatrixExt(Cells(board), Update(before, row, col, num));
      return Placed;
    }

    /** The move as the help text describes it: like `ProcessMove`, except
        that the number 0 is accepted and erases the cell. */
    method ProcessMoveErasing(rowInput: int, colInput: int, num: int) returns (result: MoveResult)
      requires Valid()
      modifies board
      ensures result == ErasingVerdict(rowInput, colInput, num, Cells(isFixed))
      ensures result == Placed ==>
        Cells(board) == Update(old(Cells(board)), rowInput - 1, colInput - 1, num)
      ensures result != Placed ==> Cells(board) == old(Cells(board))
      ensures old(Consistent()) ==> Consistent()
    {
      var row := rowInput - 1;
      var col := colInput - 1;
      if row < 0 || row >= Size || col < 0 || col >= Size {
        return BadPosition;
      }
      if num < 0 || num > 9 {
        return BadNumber;
      }
      assert Cells(isFixed)[row][col] == isFixed[row, col];
      if isFixed[row, col] {
        return Locked;
      }
      ghost var before := Cells(board);
      board[row, col] := num;
      MatrixExt(Cells(board), Update(before, row, col, num));
      return Placed;
    }

    // ------------------------------------------------------ the queries

    /** Clears each filled cell in turn, asks the checker whether its value
        is admissible there, and puts the value back. */
    method IsValidBoard() returns (valid: bool)
      requires Valid()
      modifies board
      ensures Cells(board) == old(Cells(board))
      ensures valid == BoardValid(Cells(board))
      ensures valid == NoConflicts(Cells(board))
    {
      ghost var g := Cells(board);
      for i := 0 to Size
        invariant Cells(board) == g
        invariant forall i', j' | 0 <= i' < i && 0 <= j' < Size :: CellPasses(g, i', j')
      {
        for j := 0 to Size
          invariant Cells(board) == g
          invariant forall i', j' | 0 <= i' < i && 0 <= j' < Size :: CellPasses(g, i', j')
          invariant forall j' | 0 <= j' < j :: CellPasses(g, i, j')
        {
          assert board[i, j] == g[i][j];
          if board[i, j] != Empty {
            var temp := board[i, j];
            board[i, j] := Empty;
            MatrixExt(Cells(board), Update(g, i, j, Empty));
            var ok := IsValidMove(board, i, j, temp);
            CellsAt(board);
            board[i, j] := temp;
            MatrixExt(Cells(board), g);
            if !ok {
              assert !CellPasses(g, i, j);
              BoardValidIffNoConflicts(g);
              return false;
            }
          }
          assert CellPasses(g, i, j);
        }
      }
      BoardValidIffNoConflicts(g);
      return true;
    }

    /** True exactly when no cell of the board is empty. */
    method IsBoardComplete() returns (complete: bool)
      requires Valid()
      ensures complete == Complete(Cells(board))
    {
      for i := 0 to Size
        invariant forall i', j' | 0 <= i' < i && 0 <= j' < Size :: board[i', j'] != Empty
      {
        for j := 0 to Size
          invariant forall j' | 0 <= j' < j :: board[i, j'] != Empty
        {
          if board[i, j] == Empty {
            assert Cells(board)[i][j] == Empty;
            return false;
          }
        }
      }
      return true;
    }

    // ---------------------------------------------------------- hints

    /** The empty cells of the grid, collected in row-major order. */
    static method EmptyCellList(grid: array2<int>) returns (cells: seq<(int, int)>)
      requires grid.Length0 == Size && grid.Length1 == Size
      ensures forall p :: p in cells <==> InRange(p.0) && InRange(p.1) && grid[p.0, p.1] == Empty
      ensures forall a, b | 0 <= a < b < |cells| :: Before(cells[a], cells[b])
      ensures |cells| == |EmptyCells(Cells(grid))|
    {
      cells := [];
      for i := 0 to Size
        invariant forall p :: p in cells <==> 0 <= p.0 < i && 0 <= p.1 < Size && grid[p.0, p.1] == Empty
        invariant forall a, b | 0 <= a < b < |cells| :: Before(cells[a], cells[b])
      {
        for j := 0 to Size
          invariant forall p :: p in cells <==>
            ((0 <= p.0 < i && 0 <= p.1 < Size) || (p.0 == i && 0 <= p.1 < j)) && grid[p.0, p.1] == Empty
          invariant forall a, b | 0 <= a < b < |cells| :: Before(cells[a], cells[b])
        {
          if grid[i, j] == Empty {
            cells := cells + [(i, j)];
          }
        }
      }
      forall a, b | 0 <= a < b < |cells| ensures cells[a] != cells[b] {
        assert Before(cells[a], cells[b]);
      }
      DistinctSeqSetCard(cells);
      assert (set p | p in cells) == EmptyCells(Cells(grid)) by {
        forall p | p in EmptyCells(Cells(grid)) ensures p in cells {
          var (r, c) := p;
        }
      }
    }

    /** Reveals one empty cell, chosen at random among all of them, by
        copying the solution's value into it; does nothing when the board
        has no empty cell. */
    method GiveHint() returns (hint: HintResult)
      requires Valid()
      modifies board
      ensures hint == NoEmptyCells <==> Complete(old(Cells(board)))
      ensures hint == NoEmptyCells ==> Cells(board) == old(Cells(board))
      ensures hint.Revealed? ==>
        InRange(hint.row) && InRange(hint.col) &&
        old(board[hint.row, hint.col]) == Empty &&
        hint.digit == solution[hint.row, hint.col] &&
        Cells(board) == Update(old(Cells(board)), hint.row, hint.col, hint.digit)
      ensures hint.Revealed? && Complete(Cells(solution)) ==>
        |EmptyCells(Cells(board))| == |EmptyCells(old(Cells(board)))| - 1
      ensures old(Consistent()) ==> Consistent()
    {
      ghost var before := Cells(board);
      var emptyCells := EmptyCellList(board);
      if emptyCells == [] {
        CompleteIffNoEmptyCells(before);
        return NoEmptyCells;
      }
      assert !Complete(before) by {
        assert emptyCells[0] in emptyCells;
      }
      var k :| 0 <= k < |emptyCells|;
      assert emptyCells[k] in emptyCells;
      var row, col := emptyCells[k].0, emptyCells[k].1;
      var digit := solution[row, col];
      ghost var sol := Cells(solution);
      ghost var fixed := Cells(isFixed);
      ghost var wasConsistent := Consistent();
      assert digit == sol[row][col] && before[row][col] == Empty;
      if wasConsistent {
        WriteKeepsGivens(before, sol, fixed, row, col, digit);
      }
      if Complete(sol) {
        FillOneCellCount(before, row, col, digit);
      }
      CellsAt(solution);
      CellsAt(isFixed);
      board[row, col] := digit;
      MatrixExt(Cells(board), Update(before, row, col, digit));
      MatrixExt(Cells(solution), sol);
      MatrixExt(Cells(isFixed), fixed);
      return Revealed(row, col, digit);
    }
  }
}
