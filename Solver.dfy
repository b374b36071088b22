/**
 * The backtracking solver: a class that owns a 9x9 board and fills its empty
 * cells in place by depth-first search in row-major order.
 */
module Solver {
  import opened Grid

  class SudokuSolver {
    var board: array2<int>

    ghost predicate Wellformed()
      reads this
    {
      board.Length0 == Size && board.Length1 == Size
    }

    constructor (b: array2<int>)
      requires b.Length0 == Size && b.Length1 == Size
      ensures Wellformed() && board == b
    {
      board := b;
    }

    /** Hands the board, solved or not, back to the caller. */
    method GetBoard() returns (b: array2<int>)
      ensures b == board
    {
      b := board;
    }

    /** Whether num occurs nowhere in the row, the column and the box of (row, col). */
    method IsSafe(row: int, col: int, num: int) returns (safe: bool)
      requires Wellformed() && InGrid(row, col)
      ensures safe == SafeAt(Cells(board), row, col, num)
    {
      for i := 0 to Size
        invariant forall k :: 0 <= k < i ==> board[row, k] != num && board[k, col] != num
      {
        if board[row, i] == num || board[i, col] == num {
          assert Cells(board)[row][i] == num || Cells(board)[i][col] == num;
          return false;
        }
      }
      var boxRowStart := row - row % BoxSize;
      var boxColStart := col - col % BoxSize;
      assert boxRowStart == BoxStart(row) && boxColStart == BoxStart(col);
      for r := boxRowStart to boxRowStart + BoxSize
        invariant forall a, d :: boxRowStart <= a < r && boxColStart <= d < boxColStart + BoxSize ==> board[a, d] != num
      {
        for d := boxColStart to boxColStart + BoxSize
          invariant forall e :: boxColStart <= e < d ==> board[r, e] != num
        {
          if board[r, d] == num {
            assert Cells(board)[r][d] == num;
            return false;
          }
        }
      }
      return true;
    }

    /**
     * The row-major scan of solve for the first empty cell: found says whether
     * there is one, and (row, col) is the first when there is.
     */
    method FindEmpty() returns (found: bool, row: int, col: int)
      requires Wellformed()
      ensures found ==> InGrid(row, col) && board[row, col] == 0
      ensures found ==> forall r, c :: InGrid(r, c) && Before(r, c, row, col) ==> board[r, c] != 0
      ensures !found ==> Full(Cells(board))
    {
      for i := 0 to Size
        invariant forall r, c :: 0 <= r < i && 0 <= c < Size ==> board[r, c] != 0
      {
        for j := 0 to Size
          invariant forall r, c :: 0 <= r < i && 0 <= c < Size ==> board[r, c] != 0
          invariant forall c :: 0 <= c < j ==> board[i, c] != 0
        {
          if board[i, j] == 0 {
            return true, i, j;
          }
        }
      }
      return false, 0, 0;
    }

    /** Writes v into the cell (row, col) and nothing else. */
    method Put(row: int, col: int, v: int)
      requires Wellformed() && InGrid(row, col)
      modifies board
      ensures Placed(old(Cells(board)), Cells(board), row, col, v)
    {
      board[row, col] := v;
    }

    /**
     * Fills the first empty cell with each safe digit in ascending order and
     * recurses; undoes the digit when the rest cannot be filled.
     */
    method Solve() returns (solved: bool)
      requires Wellformed()
      modifies board
      decreases ZeroCells(Cells(board))
      ensures solved <==> Solvable(old(Cells(board)))
      ensures solved ==> Completion(old(Cells(board)), Cells(board))
      ensures !solved ==> Cells(board) == old(Cells(board))
      ensures solved ==> forall s :: Completion(old(Cells(board)), s) ==> RowMajorLeq(Cells(board), s)
    {
      ghost var g0 := Cells(board);
      var found, row, col := FindEmpty();
      if !found {
        FullIsOwnCompletion(g0);
        return true;
      }
      assert forall r, c :: InGrid(r, c) && Before(r, c, row, col) ==> g0[r][c] != 0;
      for num := 1 to Size + 1
        invariant Cells(board) == g0
        invariant Excluded(g0, row, col, num)
      {
        var safe := IsSafe(row, col, num);
        if safe {
          Put(row, col, num);
          ghost var g1 := Cells(board);
          ZeroCellsAfterPlace(g0, g1, row, col, num);
          var ok := Solve();
          if ok {
            SafeDigitSolves(g0, g1, row, col, num, Cells(board));
            FirstIsLeast(g0, g1, row, col, num, Cells(board));
            return true;
          }
          Put(row, col, 0);
          UndoPlace(g0, g1, Cells(board), row, col, num);
          FailedDigitExcluded(g0, g1, row, col, num);
        } else {
          UnsafeDigitExcluded(g0, row, col, num);
        }
      }
      NoDigitLeft(g0, row, col);
      return false;
    }
  }

  /** No solution of g0 has a digit below num at (row, col). */
  ghost predicate Excluded(g0: Board, row: int, col: int, num: int)
    requires InGrid(row, col)
  {
    forall s :: Completion(g0, s) ==> !(1 <= s[row][col] < num)
  }

  /** A solution found after writing a safe digit into an empty cell solves the board as it was. */
  lemma SafeDigitSolves(g0: Board, g1: Board, row: int, col: int, num: int, s: Board)
    requires Placed(g0, g1, row, col, num) && g0[row][col] == 0 && 1 <= num <= Size
    requires SafeAt(g0, row, col, num)
    requires Completion(g1, s)
    ensures Completion(g0, s) && Solvable(g0)
  {
    ZeroCellsAfterPlace(g0, g1, row, col, num);
    PlaceExtends(g0, g1, row, col, num, s, ZeroCells(g0));
    assert Completion(g0, s);
  }

  /**
   * The completion found with num at the first empty cell, when num is the
   * first digit not excluded there and the completion is the least one of
   * the board with num written, is the least completion of the board in
   * row-major order.
   */
  lemma FirstIsLeast(g0: Board, g1: Board, row: int, col: int, num: int, s: Board)
    requires Placed(g0, g1, row, col, num) && g0[row][col] == 0 && 1 <= num <= Size
    requires forall r, c :: InGrid(r, c) && Before(r, c, row, col) ==> g0[r][c] != 0
    requires Excluded(g0, row, col, num)
    requires Completion(g1, s) && forall t :: Completion(g1, t) ==> RowMajorLeq(s, t)
    ensures forall t :: Completion(g0, t) ==> RowMajorLeq(s, t)
  {
    ZeroCellsAfterPlace(g0, g1, row, col, num);
    assert s[row][col] == num by {
      assert (row, col) !in ZeroCells(g1);
    }
    forall t | Completion(g0, t)
      ensures RowMajorLeq(s, t)
    {
      if t[row][col] == num {
        PlaceNarrows(g0, g1, row, col, num, t, ZeroCells(g0));
      } else {
        assert num < t[row][col];
        forall r, c | InGrid(r, c) && Before(r, c, row, col)
          ensures s[r][c] == t[r][c]
        {
          assert (r, c) !in ZeroCells(g0) && (r, c) !in ZeroCells(g1);
        }
      }
    }
  }

  /** A board has at most one least completion, so solve returns the same board whenever it succeeds on the same input. */
  lemma LeastCompletionUnique(g0: Board, s1: Board, s2: Board)
    requires Completion(g0, s1) && forall t :: Completion(g0, t) ==> RowMajorLeq(s1, t)
    requires Completion(g0, s2) && forall t :: Completion(g0, t) ==> RowMajorLeq(s2, t)
    ensures s1 == s2
  {
    if s1 != s2 {
      RowMajorAntisymmetric(s1, s2);
    }
  }

  /** When the board with num written at the empty cell has no solution, no solution of the board has num there. */
  lemma FailedDigitExcluded(g0: Board, g1: Board, row: int, col: int, num: int)
    requires Placed(g0, g1, row, col, num) && g0[row][col] == 0 && num != 0
    requires !Solvable(g1) && Excluded(g0, row, col, num)
    ensures Excluded(g0, row, col, num + 1)
  {
    ZeroCellsAfterPlace(g0, g1, row, col, num);
    forall s | Completion(g0, s) && s[row][col] == num
      ensures Completion(g1, s)
    {
      PlaceNarrows(g0, g1, row, col, num, s, ZeroCells(g0));
    }
  }

  /** A digit that isSafe rejects at the empty cell is in no solution there. */
  lemma UnsafeDigitExcluded(g0: Board, row: int, col: int, num: int)
    requires IsBoard(g0) && InGrid(row, col) && g0[row][col] == 0 && num != 0
    requires !SafeAt(g0, row, col, num) && Excluded(g0, row, col, num)
    ensures Excluded(g0, row, col, num + 1)
  {
    forall s | Completion(g0, s)
      ensures s[row][col] != num
    {
      UnsafeExcludes(g0, row, col, num, s);
    }
  }

  /** An empty cell that no digit 1..9 can fill leaves the board without solution. */
  lemma NoDigitLeft(g0: Board, row: int, col: int)
    requires IsBoard(g0) && InGrid(row, col) && g0[row][col] == 0
    requires Excluded(g0, row, col, Size + 1)
    ensures !Solvable(g0)
  {
    assert (row, col) in ZeroCells(g0);
  }
}
