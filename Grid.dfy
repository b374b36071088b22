/**
 * The 9x9 board shared by the solver and the generator, seen as a value,
 * and the validity rule that both of them enforce cell by cell.
 */
module Grid {
  /** Side of the board. */
  const Size: int := 9
  /** Side of a box; the solver computes it as (int) Math.sqrt(Size). */
  const BoxSize: int := 3

  /** A snapshot of the board: Size rows of Size cells, 0 meaning empty. */
  type Board = seq<seq<int>>

  /** A cell, as (row, column). */
  type Cell = (int, int)

  ghost predicate IsBoard(g: Board) {
    |g| == Size && forall r :: 0 <= r < Size ==> |g[r]| == Size
  }

  ghost predicate InGrid(r: int, c: int) {
    0 <= r < Size && 0 <= c < Size
  }

  /** The contents of a board array as a value. */
  ghost function Cells(b: array2<int>): (g: Board)
    requires b.Length0 == Size && b.Length1 == Size
    reads b
    ensures IsBoard(g)
    ensures forall r, c :: InGrid(r, c) ==> g[r][c] == b[r, c]
  {
    seq(Size, r requires 0 <= r < Size reads b =>
      seq(Size, c requires 0 <= c < Size reads b => b[r, c]))
  }

  /** Two snapshots that agree on every cell are the same snapshot. */
  lemma BoardsEqual(a: Board, b: Board)
    requires IsBoard(a) && IsBoard(b)
    requires forall r, c :: InGrid(r, c) ==> a[r][c] == b[r][c]
    ensures a == b
  {
    forall r | 0 <= r < Size
      ensures a[r] == b[r]
    {
      assert forall c :: 0 <= c < Size ==> a[r][c] == b[r][c];
    }
  }

  /** First row (or column) of the box that holds row (or column) k: k - k % 3. */
  function BoxStart(k: int): (s: int)
    ensures 0 <= k < Size ==> 0 <= s <= k < s + BoxSize <= Size && s % BoxSize == 0
  {
    k - k % BoxSize
  }

  /** Two cells share a row, a column or a box. */
  ghost predicate SameUnit(r1: int, c1: int, r2: int, c2: int) {
    r1 == r2 || c1 == c2 || (BoxStart(r1) == BoxStart(r2) && BoxStart(c1) == BoxStart(c2))
  }

  /**
   * What isSafe(row, col, num) computes: num is nowhere in row `row`, nowhere
   * in column `col`, and nowhere in the box starting at
   * (row - row % 3, col - col % 3).
   */
  ghost predicate SafeAt(g: Board, row: int, col: int, num: int)
    requires IsBoard(g) && InGrid(row, col)
  {
    (forall k :: 0 <= k < Size ==> g[row][k] != num && g[k][col] != num) &&
    (forall r, c ::
      BoxStart(row) <= r < BoxStart(row) + BoxSize && BoxStart(col) <= c < BoxStart(col) + BoxSize
      ==> g[r][c] != num)
  }

  /** The value at (row, col) appears in no other cell of its row, column or box. */
  ghost predicate NoConflict(g: Board, row: int, col: int)
    requires IsBoard(g) && InGrid(row, col)
  {
    forall r, c :: InGrid(r, c) && (r != row || c != col) && SameUnit(row, col, r, c) ==> g[r][c] != g[row][col]
  }

  /** The validity rule: no nonzero digit is repeated in any row, column or box. */
  ghost predicate Valid(g: Board) {
    IsBoard(g) && forall r, c :: InGrid(r, c) && g[r][c] != 0 ==> NoConflict(g, r, c)
  }

  /** No cell is empty. */
  ghost predicate Full(g: Board) {
    IsBoard(g) && forall r, c :: InGrid(r, c) ==> g[r][c] != 0
  }

  /** A solved board: every cell holds a digit 1..9 and the validity rule holds. */
  ghost predicate Solution(g: Board) {
    Valid(g) && forall r, c :: InGrid(r, c) ==> 1 <= g[r][c] <= Size
  }

  /**
   * s fills in the cells z of g0: every cell of z holds a digit 1..9 that
   * repeats nowhere in its row, column or box, and every other cell is as in g0.
   */
  ghost predicate Fills(g0: Board, s: Board, z: set<Cell>) {
    IsBoard(g0) && IsBoard(s) &&
    forall r, c :: InGrid(r, c) ==>
      if (r, c) in z then 1 <= s[r][c] <= Size && NoConflict(s, r, c) else s[r][c] == g0[r][c]
  }

  /** The empty cells of a board. */
  ghost function ZeroCells(g: Board): (z: set<Cell>)
    requires IsBoard(g)
  {
    set r, c | 0 <= r < Size && 0 <= c < Size && g[r][c] == 0 :: (r, c)
  }

  /** s solves the puzzle g0: its clues are kept and its empty cells filled in. */
  ghost predicate Completion(g0: Board, s: Board) {
    IsBoard(g0) && Fills(g0, s, ZeroCells(g0))
  }

  ghost predicate Solvable(g0: Board) {
    exists s :: Completion(g0, s)
  }

  /** Cell (r1, c1) comes before cell (r2, c2) in row-major order. */
  ghost predicate Before(r1: int, c1: int, r2: int, c2: int) {
    r1 < r2 || (r1 == r2 && c1 < c2)
  }

  /**
   * a comes no later than b in row-major lexicographic order: the two are
   * equal, or a holds the smaller value at the first cell where they differ.
   */
  ghost predicate RowMajorLeq(a: Board, b: Board) {
    IsBoard(a) && IsBoard(b) &&
    (a == b ||
     exists r, c :: InGrid(r, c) && a[r][c] < b[r][c] &&
       forall r1, c1 :: InGrid(r1, c1) && Before(r1, c1, r, c) ==> a[r1][c1] == b[r1][c1])
  }

  /** Row-major order is antisymmetric: of two different boards at most one comes first, so a least completion is unique. */
  lemma RowMajorAntisymmetric(a: Board, b: Board)
    requires RowMajorLeq(a, b) && a != b
    ensures !RowMajorLeq(b, a)
  {
    var r, c :| InGrid(r, c) && a[r][c] < b[r][c] &&
      forall r1, c1 :: InGrid(r1, c1) && Before(r1, c1, r, c) ==> a[r1][c1] == b[r1][c1];
    forall r', c' | InGrid(r', c') && b[r'][c'] < a[r'][c']
      ensures exists r1, c1 :: InGrid(r1, c1) && Before(r1, c1, r', c') && b[r1][c1] != a[r1][c1]
    {
      assert Before(r, c, r', c');
    }
  }

  /** g1 is g0 with v written at (row, col). */
  ghost predicate Placed(g0: Board, g1: Board, row: int, col: int, v: int) {
    IsBoard(g0) && IsBoard(g1) && InGrid(row, col) && g1[row][col] == v &&
    forall r, c :: InGrid(r, c) && (r != row || c != col) ==> g1[r][c] == g0[r][c]
  }

  /** Every cell of g is either as in s or empty: g is s with some cells carved out. */
  ghost predicate SubBoard(g: Board, s: Board) {
    IsBoard(g) && IsBoard(s) && forall r, c :: InGrid(r, c) ==> g[r][c] == s[r][c] || g[r][c] == 0
  }

  /** The cells that are filled in g0 and empty in g. */
  ghost function Cleared(g0: Board, g: Board): (z: set<Cell>)
    requires IsBoard(g0) && IsBoard(g)
  {
    set r, c | 0 <= r < Size && 0 <= c < Size && g0[r][c] != 0 && g[r][c] == 0 :: (r, c)
  }

  /** A row, column and box check (isSafe) is the same as "no cell sharing a unit with (row, col) holds num". */
  lemma SafeAtIffUnitFree(g: Board, row: int, col: int, num: int)
    requires IsBoard(g) && InGrid(row, col)
    ensures SafeAt(g, row, col, num) <==>
      forall r, c :: InGrid(r, c) && SameUnit(row, col, r, c) ==> g[r][c] != num
  {
    if SafeAt(g, row, col, num) {
      forall r, c | InGrid(r, c) && SameUnit(row, col, r, c)
        ensures g[r][c] != num
      {
        if r != row && c != col {
          assert BoxStart(row) <= r < BoxStart(row) + BoxSize;
          assert BoxStart(col) <= c < BoxStart(col) + BoxSize;
        }
      }
    }
    if forall r, c :: InGrid(r, c) && SameUnit(row, col, r, c) ==> g[r][c] != num {
      forall r, c | BoxStart(row) <= r < BoxStart(row) + BoxSize && BoxStart(col) <= c < BoxStart(col) + BoxSize
        ensures g[r][c] != num
      {
        assert BoxStart(r) == BoxStart(row) && BoxStart(c) == BoxStart(col);
        assert SameUnit(row, col, r, c);
      }
    }
  }

  /**
   * The backtracking step is sound: if v was safe at the empty-to-be-filled
   * cell (row, col) of g0, and s fills in the remaining cells of z after v
   * was written there, then s fills in all of z starting from g0.
   */
  lemma PlaceExtends(g0: Board, g1: Board, row: int, col: int, v: int, s: Board, z: set<Cell>)
    requires (row, col) in z && 1 <= v <= Size
    requires Placed(g0, g1, row, col, v) && SafeAt(g0, row, col, v)
    requires Fills(g1, s, z - {(row, col)})
    ensures Fills(g0, s, z)
  {
    SafeAtIffUnitFree(g0, row, col, v);
    assert s[row][col] == v;
    forall r, c | InGrid(r, c) && (r != row || c != col) && SameUnit(row, col, r, c)
      ensures s[r][c] != s[row][col]
    {
      if (r, c) in z {
        assert (r, c) in z - {(row, col)};
        assert NoConflict(s, r, c);
        assert SameUnit(r, c, row, col);
      } else {
        assert s[r][c] == g1[r][c] == g0[r][c];
      }
    }
    assert NoConflict(s, row, col);
  }

  /** Writing 0 back over a digit placed in an empty cell restores the board. */
  lemma UndoPlace(g0: Board, g1: Board, g2: Board, row: int, col: int, v: int)
    requires Placed(g0, g1, row, col, v) && g0[row][col] == 0
    requires Placed(g1, g2, row, col, 0)
    ensures g2 == g0
  {
    BoardsEqual(g2, g0);
  }

  /** The backtracking step is complete: a filling of z that has v at (row, col) also fills the rest of z after v is written. */
  lemma PlaceNarrows(g0: Board, g1: Board, row: int, col: int, v: int, s: Board, z: set<Cell>)
    requires (row, col) in z
    requires Placed(g0, g1, row, col, v) && Fills(g0, s, z) && s[row][col] == v
    ensures Fills(g1, s, z - {(row, col)})
  {
  }

  /** A digit that isSafe rejects at an empty cell is in no solution at that cell. */
  lemma UnsafeExcludes(g0: Board, row: int, col: int, v: int, s: Board)
    requires Completion(g0, s) && InGrid(row, col) && g0[row][col] == 0 && v != 0
    requires !SafeAt(g0, row, col, v)
    ensures s[row][col] != v
  {
    SafeAtIffUnitFree(g0, row, col, v);
    var r, c :| InGrid(r, c) && SameUnit(row, col, r, c) && g0[r][c] == v;
    assert (r, c) !in ZeroCells(g0);
    assert (row, col) in ZeroCells(g0);
    assert NoConflict(s, row, col);
  }

  /** Writing a digit into an empty cell removes exactly that cell from the empty ones. */
  lemma ZeroCellsAfterPlace(g0: Board, g1: Board, row: int, col: int, v: int)
    requires Placed(g0, g1, row, col, v) && g0[row][col] == 0 && v != 0
    ensures (row, col) in ZeroCells(g0)
    ensures ZeroCells(g1) == ZeroCells(g0) - {(row, col)}
  {
  }

  /** A solution of a puzzle that obeys the validity rule is full and obeys it too. */
  lemma CompletionIsValid(g0: Board, s: Board)
    requires Valid(g0) && Completion(g0, s)
    ensures Valid(s) && Full(s)
  {
    forall r, c | InGrid(r, c) && s[r][c] != 0
      ensures NoConflict(s, r, c)
    {
      if g0[r][c] != 0 {
        forall a, b | InGrid(a, b) && (a != r || b != c) && SameUnit(r, c, a, b)
          ensures s[a][b] != s[r][c]
        {
          if g0[a][b] == 0 {
            assert (a, b) in ZeroCells(g0);
            assert NoConflict(s, a, b);
            assert SameUnit(a, b, r, c);
          } else {
            assert NoConflict(g0, r, c);
          }
        }
      } else {
        assert (r, c) in ZeroCells(g0);
      }
    }
    forall r, c | InGrid(r, c)
      ensures s[r][c] != 0
    {
      if g0[r][c] == 0 {
        assert (r, c) in ZeroCells(g0);
      }
    }
  }

  /** A full board is its own only solution, so solving it changes nothing. */
  lemma FullIsOwnCompletion(g: Board)
    requires Full(g)
    ensures Completion(g, g)
    ensures forall s :: Completion(g, s) ==> s == g
  {
    assert ZeroCells(g) == {};
    forall s | Completion(g, s)
      ensures s == g
    {
      BoardsEqual(s, g);
    }
  }

  /** Carving cells out of a solution keeps the validity rule and leaves a puzzle that the solution solves. */
  lemma SubBoardOfSolution(g: Board, s: Board)
    requires Solution(s) && SubBoard(g, s)
    ensures Valid(g)
    ensures Completion(g, s) && Solvable(g)
  {
    forall r, c | InGrid(r, c) && g[r][c] != 0
      ensures NoConflict(g, r, c)
    {
      assert NoConflict(s, r, c);
    }
    forall r, c | InGrid(r, c)
      ensures if (r, c) in ZeroCells(g) then 1 <= s[r][c] <= Size && NoConflict(s, r, c) else s[r][c] == g[r][c]
    {
      if (r, c) in ZeroCells(g) {
        assert NoConflict(s, r, c);
      }
    }
  }

  /** The integers lo..hi-1. */
  ghost function Range(lo: int, hi: int): (s: set<int>)
    decreases hi - lo
  {
    if lo >= hi then {} else {lo} + Range(lo + 1, hi)
  }

  lemma {:induction false} RangeMembers(lo: int, hi: int)
    ensures forall v :: v in Range(lo, hi) <==> lo <= v < hi
    decreases hi - lo
  {
    if lo < hi {
      RangeMembers(lo + 1, hi);
    }
  }

  /**
   * Counting digits: a subset of lo..hi-1 has at most hi - lo members, and
   * with exactly that many it is all of them.
   */
  lemma {:induction false} SubsetOfRange(used: set<int>, lo: int, hi: int)
    requires lo <= hi && used <= Range(lo, hi)
    ensures |used| <= hi - lo
    ensures |used| == hi - lo ==> used == Range(lo, hi)
    decreases hi - lo
  {
    if lo < hi {
      RangeMembers(lo, hi);
      RangeMembers(lo + 1, hi);
      var others := used - {lo};
      assert others <= Range(lo + 1, hi);
      SubsetOfRange(others, lo + 1, hi);
      if lo in used {
        assert used == {lo} + others;
      } else {
        assert others == used;
      }
    }
  }

  /** A subset of lo..hi-1 with fewer than hi - lo members misses one of them. */
  lemma {:induction false} RangeMissing(used: set<int>, lo: int, hi: int) returns (v: int)
    requires lo <= hi && used <= Range(lo, hi) && |used| < hi - lo
    ensures lo <= v < hi && v !in used
    decreases hi - lo
  {
    RangeMembers(lo, hi);
    RangeMembers(lo + 1, hi);
    if lo !in used {
      v := lo;
    } else {
      var others := used - {lo};
      assert others <= Range(lo + 1, hi);
      assert |others| == |used| - 1;
      v := RangeMissing(others, lo + 1, hi);
    }
  }

  /** The digits 1..9. */
  ghost function Digits(): (d: set<int>) {
    Range(1, Size + 1)
  }

  /** Pigeonhole: a set of fewer than nine digits misses some digit; a set of nine digits is all of them. */
  lemma DigitsCount(used: set<int>)
    requires used <= Digits()
    ensures |used| <= Size
    ensures |used| < Size ==> exists v :: 1 <= v <= Size && v !in used
    ensures |used| == Size ==> used == Digits()
  {
    SubsetOfRange(used, 1, Size + 1);
    if |used| < Size {
      var v := RangeMissing(used, 1, Size + 1);
    }
  }

  lemma DigitsMembers()
    ensures forall v :: v in Digits() <==> 1 <= v <= Size
  {
    RangeMembers(1, Size + 1);
  }

  /** A board that differs from g0 only by v at (row, col) is g0 updated there. */
  lemma PlacedUpdate(g0: Board, g1: Board, row: int, col: int, v: int)
    requires Placed(g0, g1, row, col, v)
    ensures g1 == g0[row := g0[row][col := v]]
  {
    BoardsEqual(g1, g0[row := g0[row][col := v]]);
  }

  /**
   * Emptying the filled cell (row, col) of g first and carving h out of the
   * result afterwards clears that cell and the cells cleared afterwards.
   */
  lemma ClearFirst(g: Board, g1: Board, h: Board, row: int, col: int)
    requires Placed(g, g1, row, col, 0) && g[row][col] != 0 && SubBoard(h, g1)
    ensures SubBoard(h, g)
    ensures (row, col) !in Cleared(g1, h)
    ensures |Cleared(g, h)| == |Cleared(g1, h)| + 1
  {
    assert Cleared(g, h) == Cleared(g1, h) + {(row, col)};
  }

  /** Carving a full board: the cleared cells are exactly the empty cells of the puzzle. */
  lemma ClearedOfFull(g: Board, s: Board)
    requires Full(s) && SubBoard(g, s)
    ensures Cleared(s, g) == ZeroCells(g)
  {
  }
}
