/**
 * The puzzle generator: seeds the three diagonal boxes with permutations of
 * 1..9, completes the board by backtracking over the other 54 cells, then
 * empties randomly drawn cells.
 */
module Generator {
  import opened Grid

  /** Where fillRemaining writes next, or Finished when no cell is left. */
  datatype Cursor = At(row: int, col: int) | Finished

  /** Row-major position of a cell; (r, 9) is the same position as (r + 1, 0). */
  function Pos(r: int, c: int): (p: int) {
    Size * r + c
  }

  /** The cell lies in none of the three boxes on the main diagonal. */
  predicate OffDiagonal(r: int, c: int) {
    r / BoxSize != c / BoxSize
  }

  /**
   * The arguments fillRemaining is ever called with: the start (0, 3), or the
   * position just after an off-diagonal cell it has written.
   */
  predicate Reachable(i: int, j: int) {
    (i == 0 && j == BoxSize) || (0 <= i < Size && 1 <= j <= Size && OffDiagonal(i, j - 1))
  }

  /** The cursor arithmetic at the head of fillRemaining: wrap to the next row, then skip the diagonal box of the row's band. */
  function Advance(i: int, j: int): (r: Cursor) {
    var (i1, j1) := if j >= Size && i < Size - 1 then (i + 1, 0) else (i, j);
    if i1 >= Size && j1 >= Size then Finished
    else if i1 < BoxSize then At(i1, if j1 < BoxSize then BoxSize else j1)
    else if i1 < Size - BoxSize then At(i1, if j1 == (i1 / BoxSize) * BoxSize then j1 + BoxSize else j1)
    else if j1 == Size - BoxSize then (if i1 + 1 >= Size then Finished else At(i1 + 1, 0))
    else At(i1, j1)
  }

  /** The off-diagonal cells at or after position p: what fillRemaining still has to fill. */
  ghost function Pending(p: int): (z: set<Cell>) {
    set r, c | 0 <= r < Size && 0 <= c < Size && OffDiagonal(r, c) && Pos(r, c) >= p :: (r, c)
  }

  /** The cursor moves to the first off-diagonal cell at or after (i, j), and finishes when there is none. */
  lemma AdvanceFindsNext(i: int, j: int)
    requires Reachable(i, j)
    ensures Advance(i, j).At? ==>
      var r, c := Advance(i, j).row, Advance(i, j).col;
      InGrid(r, c) && OffDiagonal(r, c) && Pos(i, j) <= Pos(r, c) &&
      forall a, b :: InGrid(a, b) && Pos(i, j) <= Pos(a, b) < Pos(r, c) ==> !OffDiagonal(a, b)
    ensures Advance(i, j).Finished? ==>
      forall a, b :: InGrid(a, b) && Pos(i, j) <= Pos(a, b) ==> !OffDiagonal(a, b)
  {
  }

  lemma PendingMembers(p: int)
    ensures forall r, c :: (r, c) in Pending(p) <==> InGrid(r, c) && OffDiagonal(r, c) && Pos(r, c) >= p
  {
  }


  /** Taking the first pending cell (r, c) at or after p leaves the cells pending after it. */
  lemma PendingAfter(p: int, r: int, c: int)
    requires InGrid(r, c) && OffDiagonal(r, c) && p <= Pos(r, c)
    requires forall a, b :: InGrid(a, b) && p <= Pos(a, b) < Pos(r, c) ==> !OffDiagonal(a, b)
    ensures (r, c) in Pending(p)
    ensures Pending(Pos(r, c) + 1) == Pending(p) - {(r, c)}
  {
    PendingMembers(p);
    PendingMembers(Pos(r, c) + 1);
    forall a, b | (a, b) in Pending(p) - {(r, c)}
      ensures (a, b) in Pending(Pos(r, c) + 1)
    {
      assert !(Pos(a, b) < Pos(r, c));
    }
  }

  /** With no off-diagonal cell at or after p, nothing is pending. */
  lemma PendingNone(p: int)
    requires forall a, b :: InGrid(a, b) && p <= Pos(a, b) ==> !OffDiagonal(a, b)
    ensures Pending(p) == {}
  {
    PendingMembers(p);
  }

  /** One step of the cursor takes exactly one cell off the pending ones and leads to a reachable position. */
  lemma PendingStep(i: int, j: int)
    requires Reachable(i, j)
    ensures Advance(i, j).Finished? ==> Pending(Pos(i, j)) == {}
    ensures Advance(i, j).At? ==>
      var r, c := Advance(i, j).row, Advance(i, j).col;
      InGrid(r, c) && (r, c) in Pending(Pos(i, j)) && Reachable(r, c + 1) && Pos(r, c + 1) > Pos(i, j) &&
      Pending(Pos(r, c + 1)) == Pending(Pos(i, j)) - {(r, c)}
  {
    AdvanceFindsNext(i, j);
    match Advance(i, j)
    case Finished =>
      PendingNone(Pos(i, j));
    case At(r, c) =>
      PendingAfter(Pos(i, j), r, c);
      assert Pos(r, c + 1) == Pos(r, c) + 1;
  }

  /** Started at (0, 3), fillRemaining has every off-diagonal cell to fill. */
  lemma PendingFromStart()
    ensures forall r, c :: InGrid(r, c) ==> ((r, c) in Pending(Pos(0, BoxSize)) <==> OffDiagonal(r, c))
  {
  }

  /** The off-diagonal cells, band by band: columns 3-8 of rows 0-2, 0-2 and 6-8 of rows 3-5, 0-5 of rows 6-8. */
  lemma OffDiagonalBands(r: int, c: int)
    requires InGrid(r, c)
    ensures OffDiagonal(r, c) <==>
      (r < 3 && 3 <= c) || (3 <= r < 6 && (c < 3 || 6 <= c)) || (6 <= r && c < 6)
  {
  }

  ghost predicate InBox(row: int, col: int, r: int, c: int) {
    row <= r < row + BoxSize && col <= c < col + BoxSize
  }

  ghost predicate BoxHolds(g: Board, row: int, col: int, v: int)
    requires IsBoard(g) && 0 <= row <= Size - BoxSize && 0 <= col <= Size - BoxSize
  {
    exists r, c :: InBox(row, col, r, c) && g[r][c] == v
  }

  /** The box at (row, col) holds each digit 1..9 exactly once. */
  ghost predicate BoxPermutation(g: Board, row: int, col: int)
    requires IsBoard(g) && 0 <= row <= Size - BoxSize && 0 <= col <= Size - BoxSize
  {
    (forall r, c :: InBox(row, col, r, c) ==> 1 <= g[r][c] <= Size) &&
    (forall r1, c1, r2, c2 ::
      InBox(row, col, r1, c1) && InBox(row, col, r2, c2) && (r1 != r2 || c1 != c2) ==> g[r1][c1] != g[r2][c2]) &&
    (forall v :: 1 <= v <= Size ==> BoxHolds(g, row, col, v))
  }

  /** The three diagonal boxes each hold a permutation of 1..9. */
  ghost predicate DiagonalSeeded(g: Board) {
    IsBoard(g) && BoxPermutation(g, 0, 0) && BoxPermutation(g, 3, 3) && BoxPermutation(g, 6, 6)
  }

  /** A box that keeps its cells keeps its permutation. */
  lemma BoxFrame(g: Board, h: Board, row: int, col: int)
    requires IsBoard(g) && IsBoard(h) && 0 <= row <= Size - BoxSize && 0 <= col <= Size - BoxSize
    requires BoxPermutation(g, row, col)
    requires forall r, c :: InBox(row, col, r, c) ==> h[r][c] == g[r][c]
    ensures BoxPermutation(h, row, col)
  {
    forall v | 1 <= v <= Size
      ensures BoxHolds(h, row, col, v)
    {
      assert BoxHolds(g, row, col, v);
      var r, c :| InBox(row, col, r, c) && g[r][c] == v;
      assert h[r][c] == v;
    }
  }

  /** Diagonal seeding is kept by anything that changes only off-diagonal cells. */
  lemma SeedFrame(g: Board, h: Board)
    requires DiagonalSeeded(g) && IsBoard(h)
    requires forall r, c :: InGrid(r, c) && !OffDiagonal(r, c) ==> h[r][c] == g[r][c]
    ensures DiagonalSeeded(h)
  {
    BoxFrame(g, h, 0, 0);
    BoxFrame(g, h, 3, 3);
    BoxFrame(g, h, 6, 6);
  }

  /** Two diagonal cells that share a row, a column or a box lie in the same diagonal box, so a seeding tells them apart. */
  lemma DiagonalPeersDiffer(g: Board, r: int, c: int, a: int, b: int)
    requires DiagonalSeeded(g) && InGrid(r, c) && InGrid(a, b)
    requires !OffDiagonal(r, c) && !OffDiagonal(a, b) && (a != r || b != c) && SameUnit(r, c, a, b)
    ensures g[a][b] != g[r][c]
  {
    var k := r / BoxSize;
    assert a / BoxSize == k;
    if k == 0 {
      assert InBox(0, 0, r, c) && InBox(0, 0, a, b);
    } else if k == 1 {
      assert InBox(3, 3, r, c) && InBox(3, 3, a, b);
    } else {
      assert InBox(6, 6, r, c) && InBox(6, 6, a, b);
    }
  }

  /** Filling the off-diagonal cells of a diagonal seeding without conflict gives a solved board. */
  lemma SeededFillIsSolution(seed: Board, s: Board)
    requires DiagonalSeeded(seed) && Fills(seed, s, Pending(Pos(0, BoxSize)))
    ensures Solution(s)
  {
    PendingFromStart();
    SeedFrame(seed, s);
    forall r, c | InGrid(r, c)
      ensures 1 <= s[r][c] <= Size && NoConflict(s, r, c)
    {
      if OffDiagonal(r, c) {
        assert (r, c) in Pending(Pos(0, BoxSize));
      } else {
        var k := r / BoxSize;
        if k == 0 {
          assert InBox(0, 0, r, c);
        } else if k == 1 {
          assert InBox(3, 3, r, c);
        } else {
          assert InBox(6, 6, r, c);
        }
        forall a, b | InGrid(a, b) && (a != r || b != c) && SameUnit(r, c, a, b)
          ensures s[a][b] != s[r][c]
        {
          if OffDiagonal(a, b) {
            assert (a, b) in Pending(Pos(0, BoxSize));
            assert NoConflict(s, a, b);
            assert SameUnit(a, b, r, c);
          } else {
            DiagonalPeersDiffer(s, r, c, a, b);
          }
        }
      }
    }
  }

  /** The column a draw cellId empties: cellId % 9, less one when that is not 0; never the last column. */
  function DrawColumn(cellId: int): (c: int)
    ensures 0 <= c < Size - 1
  {
    var j := cellId % Size;
    if j != 0 then j - 1 else j
  }

  /** Column 0 is hit by the two remainders 0 and 1, every other column by one remainder only. */
  lemma DrawColumnHits(cellId: int, c: int)
    requires 0 <= c < Size - 1
    ensures DrawColumn(cellId) == c <==> cellId % Size == c + 1 || (c == 0 && cellId % Size == 0)
  {
  }

  /** What removeCells leaves: the board, the cells still to empty and the draws consumed. */
  datatype Removal = Removal(board: Board, count: int, drawn: nat)

  /**
   * removeCells from the k-th draw on, on the board g with count cells still
   * to empty: each draw picks row cellId / 9 and column DrawColumn(cellId)
   * and empties that cell when it is filled; it stops when count reaches 0
   * or the draws run out.
   */
  ghost function RemoveFrom(g: Board, count: int, draws: seq<int>, k: nat): (r: Removal)
    requires IsBoard(g) && k <= |draws|
    requires forall n :: 0 <= n < |draws| ==> 0 <= draws[n] < Size * Size
    decreases |draws| - k
    ensures k <= r.drawn <= |draws| && (r.count == 0 || r.drawn == |draws|)
    ensures count >= 0 ==> 0 <= r.count <= count
    ensures count < 0 ==> r.count <= count && r.drawn == |draws|
  {
    if count == 0 || k == |draws| then Removal(g, count, k)
    else
      var i, j := draws[k] / Size, DrawColumn(draws[k]);
      if g[i][j] != 0 then RemoveFrom(g[i := g[i][j := 0]], count - 1, draws, k + 1)
      else RemoveFrom(g, count, draws, k + 1)
  }

  /** One draw of removeCells. */
  lemma RemoveFromStep(g: Board, count: int, draws: seq<int>, k: nat)
    requires IsBoard(g) && k < |draws| && count != 0
    requires forall n :: 0 <= n < |draws| ==> 0 <= draws[n] < Size * Size
    ensures var i, j := draws[k] / Size, DrawColumn(draws[k]);
      RemoveFrom(g, count, draws, k) ==
        if g[i][j] != 0 then RemoveFrom(g[i := g[i][j := 0]], count - 1, draws, k + 1) else RemoveFrom(g, count, draws, k + 1)
  {
  }

  /**
   * Removal only empties cells, never one in the last column; every draw
   * from the k-th on empties at most one filled cell, and those are the
   * count - r.count cells it managed to empty.
   */
  lemma {:induction false} RemoveFromClears(g: Board, count: int, draws: seq<int>, k: nat)
    requires IsBoard(g) && k <= |draws|
    requires forall n :: 0 <= n < |draws| ==> 0 <= draws[n] < Size * Size
    decreases |draws| - k
    ensures var r := RemoveFrom(g, count, draws, k);
      SubBoard(r.board, g) && (forall a, b :: InGrid(a, b) && r.board[a][b] != g[a][b] ==> b < Size - 1) &&
      |Cleared(g, r.board)| == count - r.count <= r.drawn - k
  {
    if count == 0 || k == |draws| {
      assert Cleared(g, g) == {};
    } else {
      var i, j := draws[k] / Size, DrawColumn(draws[k]);
      if g[i][j] != 0 {
        var g1 := g[i := g[i][j := 0]];
        RemoveFromClears(g1, count - 1, draws, k + 1);
        ClearFirst(g, g1, RemoveFrom(g1, count - 1, draws, k + 1).board, i, j);
      } else {
        RemoveFromClears(g, count, draws, k + 1);
        assert Cleared(g, RemoveFrom(g, count, draws, k).board) == Cleared(g, RemoveFrom(g, count, draws, k + 1).board);
      }
    }
  }

  /** Some solved board agrees with g on the three diagonal boxes. */
  ghost predicate Extendable(g: Board) {
    IsBoard(g) && exists s :: Solution(s) && forall r, c :: InGrid(r, c) && !OffDiagonal(r, c) ==> s[r][c] == g[r][c]
  }

  /**
   * The off-diagonal cells of a diagonal seeding can be filled in exactly when
   * some solved board agrees with the seeding on the diagonal boxes.
   */
  lemma FillableIffExtendable(seed: Board, g: Board)
    requires DiagonalSeeded(seed) && KeepsOutside(seed, g, Pending(Pos(0, BoxSize)))
    ensures Fillable(seed, Pending(Pos(0, BoxSize))) <==> Extendable(g)
  {
    var z := Pending(Pos(0, BoxSize));
    PendingFromStart();
    if Fillable(seed, z) {
      var s :| Fills(seed, s, z);
      SeededFillIsSolution(seed, s);
      assert forall r, c :: InGrid(r, c) && !OffDiagonal(r, c) ==> s[r][c] == g[r][c];
    }
    if Extendable(g) {
      var s :| Solution(s) && forall r, c :: InGrid(r, c) && !OffDiagonal(r, c) ==> s[r][c] == g[r][c];
      assert Fills(seed, s, z);
    }
  }

  class SudokuGenerator {
    var board: array2<int>

    ghost predicate Wellformed()
      reads this
    {
      board.Length0 == Size && board.Length1 == Size
    }

    /** A generator starts from an empty board. */
    constructor ()
      ensures Wellformed() && fresh(board)
      ensures forall r, c :: InGrid(r, c) ==> board[r, c] == 0
    {
      board := new int[Size, Size]((_, _) => 0);
    }

    /**
     * Fills the board, then empties emptyCells of its cells. The random
     * stream of the cell removal is the sequence draws; count is how many
     * cells were still to be emptied when it ran out (0 when it sufficed)
     * and drawn how many of its draws were consumed.
     * The ghost results expose the complete board before removal and whether
     * fillRemaining succeeded, which the source discards.
     */
    method GeneratePuzzle(emptyCells: int, draws: seq<int>)
      returns (puzzle: array2<int>, count: int, ghost drawn: nat, ghost filled: bool, ghost solution: Board)
      requires Wellformed()
      requires forall k :: 0 <= k < |draws| ==> 0 <= draws[k] < Size * Size
      modifies board
      ensures puzzle == board
      ensures DiagonalSeeded(solution)
      ensures filled ==> Solution(solution)
      ensures !filled ==> forall r, c :: InGrid(r, c) && OffDiagonal(r, c) ==> solution[r][c] == old(board[r, c]) || solution[r][c] == 0
      ensures (forall r, c :: InGrid(r, c) && OffDiagonal(r, c) ==> old(board[r, c]) == 0) ==> (filled <==> Extendable(solution))
      ensures SubBoard(Cells(board), solution)
      ensures forall r, c :: InGrid(r, c) && board[r, c] != solution[r][c] ==> c < Size - 1
      ensures Removal(Cells(board), count, drawn) == RemoveFrom(solution, emptyCells, draws, 0)
      ensures drawn <= |draws| && (count == 0 || drawn == |draws|)
      ensures emptyCells >= 0 ==> 0 <= count <= emptyCells
      ensures emptyCells < 0 ==> count <= emptyCells && drawn == |draws|
      ensures |Cleared(solution, Cells(board))| == emptyCells - count <= drawn
      ensures filled ==> |ZeroCells(Cells(board))| == emptyCells - count
      ensures filled ==> Valid(Cells(board)) && Completion(Cells(board), solution)
    {
      filled := FillBoard();
      solution := Cells(board);
      var consumed;
      count, consumed := RemoveCells(emptyCells, draws);
      drawn := consumed;
      puzzle := board;
      if filled {
        SubBoardOfSolution(Cells(board), solution);
        ClearedOfFull(Cells(board), solution);
      }
    }

    /** Seeds the diagonal boxes, then fills the rest; ghost filled is the result of fillRemaining. */
    method FillBoard() returns (ghost filled: bool)
      requires Wellformed()
      modifies board
      ensures DiagonalSeeded(Cells(board))
      ensures filled ==> Solution(Cells(board))
      ensures !filled ==> forall r, c :: InGrid(r, c) && OffDiagonal(r, c) ==> board[r, c] == old(board[r, c]) || board[r, c] == 0
      ensures (forall r, c :: InGrid(r, c) && OffDiagonal(r, c) ==> old(board[r, c]) == 0) ==> (filled <==> Extendable(Cells(board)))
    {
      ghost var empty := forall r, c :: InGrid(r, c) && OffDiagonal(r, c) ==> board[r, c] == 0;
      FillDiagonalSubgrids();
      ghost var seeded := Cells(board);
      var ok := FillRemaining(0, BoxSize);
      filled := ok;
      PendingFromStart();
      SeedFrame(seeded, Cells(board));
      if ok {
        SeededFillIsSolution(seeded, Cells(board));
      }
      if empty {
        assert Blank(seeded, Pending(Pos(0, BoxSize)));
        FillableIffExtendable(seeded, Cells(board));
      }
    }

    /** Fills the boxes at (0, 0), (3, 3) and (6, 6), in that order. */
    method FillDiagonalSubgrids()
      requires Wellformed()
      modifies board
      ensures DiagonalSeeded(Cells(board))
      ensures forall r, c :: InGrid(r, c) && OffDiagonal(r, c) ==> board[r, c] == old(board[r, c])
    {
      var i := 0;
      while i < Size
        invariant i == 0 || i == 3 || i == 6 || i == 9
        invariant SeededUpTo(Cells(board), i)
        invariant forall r, c :: InGrid(r, c) && !Seeded(i, r, c) ==> board[r, c] == old(board[r, c])
      {
        ghost var before := Cells(board);
        FillSubgrid(i, i);
        SeedStep(before, Cells(board), i);
        i := i + BoxSize;
      }
      SeededAll(Cells(board));
    }

    /** Writes a permutation of 1..9 into the box at (row, col), drawing each digit among those not used yet. */
    method FillSubgrid(row: int, col: int)
      requires Wellformed() && 0 <= row <= Size - BoxSize && 0 <= col <= Size - BoxSize
      modifies board
      ensures BoxPermutation(Cells(board), row, col)
      ensures forall r, c :: InGrid(r, c) && !InBox(row, col, r, c) ==> board[r, c] == old(board[r, c])
    {
      var used := new bool[Size + 1]((_) => false);
      ghost var g0 := Cells(board);
      ghost var where: map<int, Cell> := map[];
      ghost var k := 0;
      for i := 0 to BoxSize
        invariant k == BoxSize * i
        invariant forall v :: 0 <= v <= Size ==> (used[v] <==> v in where)
        invariant Tracked(g0, Cells(board), where, row, col, k)
      {
        for j := 0 to BoxSize
          invariant k == BoxSize * i + j
          invariant forall v :: 0 <= v <= Size ==> (used[v] <==> v in where)
          invariant Tracked(g0, Cells(board), where, row, col, k)
        {
          var num;
          num, where := DrawCell(row, col, row + i, col + j, used, where, k, g0);
          k := k + 1;
        }
      }
      TrackedFull(g0, Cells(board), where, row, col, k);
    }

    /**
     * The body of fillSubgrid's loops: draws a digit not used yet in the box,
     * marks it used and writes it into the next cell (a, b) of the box.
     */
    method DrawCell(row: int, col: int, a: int, b: int, used: array<bool>, ghost where: map<int, Cell>, ghost k: int, ghost g0: Board)
      returns (num: int, ghost where': map<int, Cell>)
      requires Wellformed() && 0 <= row <= Size - BoxSize && 0 <= col <= Size - BoxSize && InBox(row, col, a, b)
      requires used.Length == Size + 1 && k == BoxSize * (a - row) + (b - col) && IsBoard(g0)
      requires forall v :: 0 <= v <= Size ==> (used[v] <==> v in where)
      requires Tracked(g0, Cells(board), where, row, col, k)
      modifies board, used
      ensures 1 <= num <= Size && !old(used[num]) && used[..] == old(used[..])[num := true]
      ensures where' == where[num := (a, b)] && Placed(old(Cells(board)), Cells(board), a, b, num)
      ensures forall v :: 0 <= v <= Size ==> (used[v] <==> v in where')
      ensures Tracked(g0, Cells(board), where', row, col, k + 1)
    {
      assert exists v :: 1 <= v <= Size && !used[v] by {
        DigitsCount(where.Keys);
        var v :| 1 <= v <= Size && v !in where.Keys;
        assert !used[v];
      }
      num :| 1 <= num <= Size && !used[num];
      used[num] := true;
      ghost var before := Cells(board);
      Put(a, b, num);
      TrackStep(g0, before, Cells(board), where, row, col, k, a, b, num);
      where' := where[num := (a, b)];
    }

    /**
     * Fills the pending off-diagonal cells from (i, j) on by backtracking,
     * trying 1..9 in ascending order at each and resetting a cell to 0 when
     * the cells after it cannot be filled.
     */
    method FillRemaining(i: int, j: int) returns (done: bool)
      requires Wellformed() && Reachable(i, j)
      modifies board
      decreases Size * Size - Pos(i, j), 0
      ensures Outcome(old(Cells(board)), Cells(board), Pending(Pos(i, j)), done)
    {
      var cursor := Advance(i, j);
      PendingStep(i, j);
      if cursor.Finished? {
        NothingPending(Cells(board));
        return true;
      }
      var row, col := cursor.row, cursor.col;
      ghost var g0 := Cells(board);
      ghost var z := Pending(Pos(i, j));
      ghost var rest := Pending(Pos(row, col + 1));
      for num := 1 to Size + 1
        invariant Tried(g0, Cells(board), z, row, col, num)
      {
        var ok := TryDigit(row, col, num, g0, z, rest);
        if ok {
          return true;
        }
      }
      NothingFits(g0, Cells(board), z, row, col);
      return false;
    }

    /**
     * One pass of fillRemaining's digit loop at the pending cell (row, col):
     * when num is safe there, writes it and fills the cells after it, and
     * resets the cell to 0 when they cannot be filled. The ghost g0 and z are
     * the board fillRemaining started from and the cells it has to fill.
     */
    method TryDigit(row: int, col: int, num: int, ghost g0: Board, ghost z: set<Cell>, ghost rest: set<Cell>) returns (ok: bool)
      requires Wellformed() && IsBoard(g0) && InGrid(row, col) && Reachable(row, col + 1) && 1 <= num <= Size
      requires (row, col) in z && rest == Pending(Pos(row, col + 1)) && rest == z - {(row, col)}
      requires Tried(g0, Cells(board), z, row, col, num)
      modifies board
      decreases Size * Size - Pos(row, col + 1), 1
      ensures ok ==> Outcome(g0, Cells(board), z, true)
      ensures !ok ==> Tried(g0, Cells(board), z, row, col, num + 1)
    {
      ghost var current := Cells(board);
      var safe := IsSafe(row, col, num);
      if safe {
        Put(row, col, num);
        ghost var g1 := Cells(board);
        ok := FillRemaining(row, col + 1);
        if ok {
          RemainingStep(g0, current, g1, row, col, num, Cells(board), z, rest);
          return;
        }
        ghost var g2 := Cells(board);
        Put(row, col, 0);
        ResetStep(g0, current, g1, g2, Cells(board), row, col, num, z, rest);
      } else {
        ok := false;
        UnsafeStep(g0, current, z, row, col, num);
      }
    }

    /** Writes v into the cell (row, col) and nothing else. */
    method Put(row: int, col: int, v: int)
      requires Wellformed() && InGrid(row, col)
      modifies board
      ensures Placed(old(Cells(board)), Cells(board), row, col, v)
    {
      board[row, col] := v;
    }

    /** The generator's own copy of the row, column and box check. */
    method IsSafe(row: int, col: int, num: int) returns (safe: bool)
      requires Wellformed() && InGrid(row, col)
      ensures safe == SafeAt(Cells(board), row, col, num)
    {
      for x := 0 to Size
        invariant forall k :: 0 <= k < x ==> board[row, k] != num && board[k, col] != num
      {
        if board[row, x] == num || board[x, col] == num {
          assert Cells(board)[row][x] == num || Cells(board)[x][col] == num;
          return false;
        }
      }
      var startRow, startCol := row - row % BoxSize, col - col % BoxSize;
      assert startRow == BoxStart(row) && startCol == BoxStart(col);
      for i := 0 to BoxSize
        invariant forall r, c :: startRow <= r < startRow + i && startCol <= c < startCol + BoxSize ==> board[r, c] != num
      {
        var r := i + startRow;
        for j := 0 to BoxSize
          invariant forall c :: startCol <= c < startCol + j ==> board[r, c] != num
        {
          if board[i + startRow, j + startCol] == num {
            assert Cells(board)[i + startRow][j + startCol] == num;
            return false;
          }
        }
      }
      return true;
    }

    /**
     * Empties drawn cells until numCells filled cells have been emptied. The
     * random stream is draws; the loop also stops when it is used up, with
     * count the number of cells still to empty and drawn the draws consumed.
     */
    method RemoveCells(numCells: int, draws: seq<int>) returns (count: int, drawn: nat)
      requires Wellformed()
      requires forall k :: 0 <= k < |draws| ==> 0 <= draws[k] < Size * Size
      modifies board
      ensures Removal(Cells(board), count, drawn) == RemoveFrom(old(Cells(board)), numCells, draws, 0)
      ensures drawn <= |draws| && (count == 0 || drawn == |draws|)
      ensures numCells >= 0 ==> 0 <= count <= numCells
      ensures numCells < 0 ==> count <= numCells && drawn == |draws|
      ensures SubBoard(Cells(board), old(Cells(board)))
      ensures forall r, c :: InGrid(r, c) && board[r, c] != old(board[r, c]) ==> c < Size - 1
      ensures |Cleared(old(Cells(board)), Cells(board))| == numCells - count <= drawn
    {
      ghost var g0 := Cells(board);
      count := numCells;
      drawn := 0;
      while count != 0 && drawn < |draws|
        invariant drawn <= |draws|
        invariant RemoveFrom(Cells(board), count, draws, drawn) == RemoveFrom(g0, numCells, draws, 0)
        decreases |draws| - drawn
      {
        var cellId := draws[drawn];
        var i := cellId / Size;
        var j := cellId % Size;
        if j != 0 {
          j := j - 1;
        }
        assert j == DrawColumn(cellId);
        ghost var before := Cells(board);
        RemoveFromStep(before, count, draws, drawn);
        if board[i, j] != 0 {
          count := count - 1;
          Put(i, j, 0);
          PlacedUpdate(before, Cells(board), i, j, 0);
        }
        drawn := drawn + 1;
      }
      RemoveFromClears(g0, numCells, draws, 0);
    }
  }

  /**
   * What fillRemaining leaves behind when it started from g0 with the cells
   * z to fill and returned done: the cells outside z are untouched; on
   * success z is filled in; on failure every cell is as it was or empty. When
   * the cells of z were all empty, it succeeds exactly when z can be filled,
   * and on failure the board is as it was.
   */
  ghost predicate Outcome(g0: Board, g: Board, z: set<Cell>, done: bool) {
    KeepsOutside(g0, g, z) &&
    (done ==> Fills(g0, g, z)) &&
    (!done ==> OldOrEmpty(g0, g)) &&
    (Blank(g0, z) ==> (done <==> Fillable(g0, z)) && (done || g == g0))
  }

  /**
   * The loop invariant of fillRemaining at the cell (row, col) of z before
   * trying num: what Outcome promises on failure, and, when z was empty, the
   * board as it was and no filling with a digit below num at (row, col).
   */
  ghost predicate Tried(g0: Board, g: Board, z: set<Cell>, row: int, col: int, num: int)
    requires InGrid(row, col)
  {
    KeepsOutside(g0, g, z) && OldOrEmpty(g0, g) &&
    (Blank(g0, z) ==> g == g0 && Ruled(g0, z, row, col, num))
  }

  /** With nothing pending, fillRemaining succeeds without writing. */
  lemma NothingPending(g: Board)
    requires IsBoard(g)
    ensures Outcome(g, g, {}, true)
  {
    assert Fills(g, g, {});
  }

  /**
   * A filling of the cells after (row, col), found once a safe digit was
   * written at (row, col), fills all of z from the board fillRemaining started from.
   */
  lemma RemainingStep(g0: Board, current: Board, g1: Board, row: int, col: int, v: int, s: Board, z: set<Cell>, rest: set<Cell>)
    requires IsBoard(g0) && InGrid(row, col) && (row, col) in z && rest == z - {(row, col)} && 1 <= v <= Size
    requires Tried(g0, current, z, row, col, v)
    requires Placed(current, g1, row, col, v) && SafeAt(current, row, col, v)
    requires Outcome(g1, s, rest, true)
    ensures Outcome(g0, s, z, true)
  {
    PlaceExtends(current, g1, row, col, v, s, z);
  }

  /**
   * Resetting (row, col) to 0 after the cells after it could not be filled
   * keeps the invariant and, when z was empty, rules out the digit tried.
   */
  lemma ResetStep(g0: Board, current: Board, g1: Board, g2: Board, g3: Board, row: int, col: int, v: int, z: set<Cell>, rest: set<Cell>)
    requires IsBoard(g0) && InGrid(row, col) && (row, col) in z && rest == z - {(row, col)}
    requires Tried(g0, current, z, row, col, v)
    requires Placed(current, g1, row, col, v)
    requires Outcome(g1, g2, rest, false)
    requires Placed(g2, g3, row, col, 0)
    ensures Tried(g0, g3, z, row, col, v + 1)
  {
    if Blank(g0, z) {
      BlankAfterPlace(g0, g1, row, col, v, z);
      UndoPlace(g0, g1, g3, row, col, v);
      FailedRuled(g0, g1, row, col, v, z);
    }
  }

  /** A digit that isSafe rejects keeps the invariant. */
  lemma UnsafeStep(g0: Board, g: Board, z: set<Cell>, row: int, col: int, num: int)
    requires IsBoard(g0) && IsBoard(g) && InGrid(row, col) && (row, col) in z && num != 0
    requires Tried(g0, g, z, row, col, num) && !SafeAt(g, row, col, num)
    ensures Tried(g0, g, z, row, col, num + 1)
  {
    if Blank(g0, z) {
      UnsafeRuled(g0, z, row, col, num);
    }
  }

  /** Every cell of z is empty in g. */
  ghost predicate Blank(g: Board, z: set<Cell>) {
    IsBoard(g) && forall r, c :: InGrid(r, c) && (r, c) in z ==> g[r][c] == 0
  }

  /** The cells z of g can be filled in. */
  ghost predicate Fillable(g: Board, z: set<Cell>) {
    exists s :: Fills(g, s, z)
  }

  /** No filling of the cells z of g0 has a digit below num at (row, col). */
  ghost predicate Ruled(g0: Board, z: set<Cell>, row: int, col: int, num: int)
    requires InGrid(row, col)
  {
    forall s :: Fills(g0, s, z) ==> !(1 <= s[row][col] < num)
  }

  /** Writing a digit into a cell of z leaves the rest of z empty. */
  lemma BlankAfterPlace(g0: Board, g1: Board, row: int, col: int, v: int, z: set<Cell>)
    requires Blank(g0, z) && Placed(g0, g1, row, col, v)
    ensures Blank(g1, z - {(row, col)})
  {
  }

  /** A digit that isSafe rejects at an empty cell of z is in no filling of z at that cell. */
  lemma UnsafeRuled(g0: Board, z: set<Cell>, row: int, col: int, num: int)
    requires Blank(g0, z) && InGrid(row, col) && (row, col) in z && num != 0
    requires !SafeAt(g0, row, col, num) && Ruled(g0, z, row, col, num)
    ensures Ruled(g0, z, row, col, num + 1)
  {
    SafeAtIffUnitFree(g0, row, col, num);
    var r, c :| InGrid(r, c) && SameUnit(row, col, r, c) && g0[r][c] == num;
    assert (r, c) !in z;
    forall s | Fills(g0, s, z)
      ensures s[row][col] != num
    {
      assert NoConflict(s, row, col);
    }
  }

  /** A digit after which the rest of z cannot be filled is in no filling of z at that cell. */
  lemma FailedRuled(g0: Board, g1: Board, row: int, col: int, num: int, z: set<Cell>)
    requires (row, col) in z && Placed(g0, g1, row, col, num)
    requires !Fillable(g1, z - {(row, col)}) && Ruled(g0, z, row, col, num)
    ensures Ruled(g0, z, row, col, num + 1)
  {
    forall s | Fills(g0, s, z) && s[row][col] == num
      ensures Fills(g1, s, z - {(row, col)})
    {
      PlaceNarrows(g0, g1, row, col, num, s, z);
    }
  }

  /** Once every digit has been tried at a cell of z, fillRemaining fails as Outcome says. */
  lemma NothingFits(g0: Board, g: Board, z: set<Cell>, row: int, col: int)
    requires IsBoard(g0) && InGrid(row, col) && (row, col) in z && Tried(g0, g, z, row, col, Size + 1)
    ensures Outcome(g0, g, z, false)
  {
  }

  /** Every cell outside z is as in g0. */
  ghost predicate KeepsOutside(g0: Board, g: Board, z: set<Cell>) {
    IsBoard(g0) && IsBoard(g) && forall r, c :: InGrid(r, c) && (r, c) !in z ==> g[r][c] == g0[r][c]
  }

  /** Every cell is as in g0 or empty. */
  ghost predicate OldOrEmpty(g0: Board, g: Board) {
    IsBoard(g0) && IsBoard(g) && forall r, c :: InGrid(r, c) ==> g[r][c] == g0[r][c] || g[r][c] == 0
  }

  /** The first k cells, in row-major order, of the box at (row, col): those fillSubgrid has written after k steps. */
  ghost predicate Written(row: int, col: int, k: int, r: int, c: int) {
    InBox(row, col, r, c) && BoxSize * (r - row) + (c - col) < k
  }

  /**
   * After k steps of fillSubgrid from g0, where maps each digit drawn so far
   * to the cell it was written in, those are exactly the first k cells of the
   * box, and every other cell is as in g0.
   */
  ghost predicate Tracked(g0: Board, g: Board, where: map<int, Cell>, row: int, col: int, k: int)
    requires IsBoard(g0) && IsBoard(g) && 0 <= row <= Size - BoxSize && 0 <= col <= Size - BoxSize
  {
    (forall r, c :: InGrid(r, c) && !Written(row, col, k, r, c) ==> g[r][c] == g0[r][c]) &&
    |where| == k && where.Keys <= Digits() &&
    (forall v :: v in where ==> Written(row, col, k, where[v].0, where[v].1) && g[where[v].0][where[v].1] == v) &&
    (forall r, c :: Written(row, col, k, r, c) ==> g[r][c] in where && where[g[r][c]] == (r, c))
  }

  /** Writing an unused digit v into the next cell (a, b) of the box extends the tracking by one. */
  lemma TrackStep(g0: Board, g: Board, h: Board, where: map<int, Cell>, row: int, col: int, k: int, a: int, b: int, v: int)
    requires 0 <= row <= Size - BoxSize && 0 <= col <= Size - BoxSize && InBox(row, col, a, b)
    requires k == BoxSize * (a - row) + (b - col)
    requires Placed(g, h, a, b, v) && 1 <= v <= Size && v !in where
    requires IsBoard(g0) && Tracked(g0, g, where, row, col, k)
    ensures Tracked(g0, h, where[v := (a, b)], row, col, k + 1)
  {
    var w := where[v := (a, b)];
    DigitsMembers();
    forall u | u in w
      ensures Written(row, col, k + 1, w[u].0, w[u].1) && h[w[u].0][w[u].1] == u
    {
      if u != v {
        assert Written(row, col, k, where[u].0, where[u].1);
      }
    }
    forall r, c | Written(row, col, k + 1, r, c)
      ensures h[r][c] in w && w[h[r][c]] == (r, c)
    {
      if (r, c) != (a, b) {
        assert Written(row, col, k, r, c);
        assert g[r][c] in where;
      }
    }
  }

  /** After all nine steps every digit has been written somewhere in the box, once. */
  lemma TrackedFull(g0: Board, g: Board, where: map<int, Cell>, row: int, col: int, k: int)
    requires IsBoard(g0) && IsBoard(g) && 0 <= row <= Size - BoxSize && 0 <= col <= Size - BoxSize
    requires k == Size && Tracked(g0, g, where, row, col, k)
    ensures BoxPermutation(g, row, col)
    ensures forall r, c :: InGrid(r, c) && !InBox(row, col, r, c) ==> g[r][c] == g0[r][c]
  {
    DigitsCount(where.Keys);
    DigitsMembers();
    forall r, c | InBox(row, col, r, c)
      ensures 1 <= g[r][c] <= Size
    {
      assert Written(row, col, Size, r, c);
    }
    forall r1, c1, r2, c2 | InBox(row, col, r1, c1) && InBox(row, col, r2, c2) && (r1 != r2 || c1 != c2)
      ensures g[r1][c1] != g[r2][c2]
    {
      assert Written(row, col, Size, r1, c1) && Written(row, col, Size, r2, c2);
    }
    forall v | 1 <= v <= Size
      ensures BoxHolds(g, row, col, v)
    {
      assert v in where.Keys;
      var p := where[v];
      assert InBox(row, col, p.0, p.1) && g[p.0][p.1] == v;
    }
  }

  /** The diagonal boxes above box row i hold permutations. */
  ghost predicate SeededUpTo(g: Board, i: int)
    requires IsBoard(g)
  {
    (i > 0 ==> BoxPermutation(g, 0, 0)) && (i > 3 ==> BoxPermutation(g, 3, 3)) && (i > 6 ==> BoxPermutation(g, 6, 6))
  }

  /** Filling the diagonal box at row i keeps the boxes filled before it. */
  lemma SeedStep(before: Board, after: Board, i: int)
    requires IsBoard(before) && IsBoard(after) && (i == 0 || i == 3 || i == 6)
    requires SeededUpTo(before, i) && BoxPermutation(after, i, i)
    requires forall r, c :: InGrid(r, c) && !InBox(i, i, r, c) ==> after[r][c] == before[r][c]
    ensures SeededUpTo(after, i + BoxSize)
  {
    if i > 0 {
      BoxFrame(before, after, 0, 0);
    }
    if i > 3 {
      BoxFrame(before, after, 3, 3);
    }
  }

  /** Once all three diagonal boxes are filled the board is seeded, and the off-diagonal cells were never touched. */
  lemma SeededAll(g: Board)
    requires IsBoard(g) && SeededUpTo(g, Size)
    ensures DiagonalSeeded(g)
    ensures forall r, c :: InGrid(r, c) && OffDiagonal(r, c) ==> !Seeded(Size, r, c)
  {
  }

  /** The diagonal boxes that fillDiagonalSubgrids has filled before box row i. */
  ghost predicate Seeded(i: int, r: int, c: int) {
    (i > 0 && InBox(0, 0, r, c)) || (i > 3 && InBox(3, 3, r, c)) || (i > 6 && InBox(6, 6, r, c))
  }
}
