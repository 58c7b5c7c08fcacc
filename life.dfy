/**
 * Conway's Game of Life (birth on 3 neighbours, survival on 2 or 3) on a toroidal board:
 * the top row neighbours the bottom row and the left column the right column.
 *
 * A board is a rectangular grid of cells, `g[i][j]` being row i, column j.
 */
module Life {
  import opened Periodic

  type Grid = seq<seq<bool>>

  /** Every row has `cols` cells. */
  predicate Rectangular(g: Grid, cols: nat)
  {
    forall i :: 0 <= i < |g| ==> |g[i]| == cols
  }

  /** The all-dead board. */
  function Dead(rows: nat, cols: nat): (g: Grid)
    ensures |g| == rows && Rectangular(g, cols)
    ensures forall i, j :: 0 <= i < rows && 0 <= j < cols ==> !g[i][j]
  {
    seq(rows, i => seq(cols, j => false))
  }

  /** Two boards of the same shape with the same cells are the same board. */
  lemma {:induction false} GridExtensionality(g: Grid, h: Grid, cols: nat)
    requires |g| == |h| && Rectangular(g, cols) && Rectangular(h, cols)
    requires forall i, j :: 0 <= i < |g| && 0 <= j < cols ==> g[i][j] == h[i][j]
    ensures g == h
  {
    forall i | 0 <= i < |g|
      ensures g[i] == h[i]
    {
      assert forall j :: 0 <= j < cols ==> g[i][j] == h[i][j];
    }
  }

  // ---------------------------------------------------------------- the rule

  /** The number of live cells among the 8 around (i, j), the board wrapping at every edge. */
  function Neighbours(g: Grid, cols: nat, i: int, j: int): (n: nat)
    requires Rectangular(g, cols) && 0 <= i < |g| && 0 <= j < cols
    ensures n <= 8
  {
    var up, down := LeftOf(i, |g|), RightOf(i, |g|);
    var left, right := LeftOf(j, cols), RightOf(j, cols);
    Bit(g[up][left]) + Bit(g[up][j]) + Bit(g[up][right])
      + Bit(g[i][left]) + Bit(g[i][right])
      + Bit(g[down][left]) + Bit(g[down][j]) + Bit(g[down][right])
  }

  /** The neighbour count is the sum over the 8 offsets `(di, dj) != (0, 0)` of the cell at
      `((i + di) mod rows, (j + dj) mod cols)`, with the modspace wrap. */
  lemma NeighboursAreWrapped(g: Grid, cols: nat, i: int, j: int)
    requires Rectangular(g, cols) && 0 <= i < |g| && 0 <= j < cols
    ensures var rows := |g|;
      Neighbours(g, cols, i, j)
        == Bit(g[Wrap(i - 1, rows)][Wrap(j - 1, cols)]) + Bit(g[Wrap(i - 1, rows)][Wrap(j, cols)])
         + Bit(g[Wrap(i - 1, rows)][Wrap(j + 1, cols)]) + Bit(g[Wrap(i, rows)][Wrap(j - 1, cols)])
         + Bit(g[Wrap(i, rows)][Wrap(j + 1, cols)]) + Bit(g[Wrap(i + 1, rows)][Wrap(j - 1, cols)])
         + Bit(g[Wrap(i + 1, rows)][Wrap(j, cols)]) + Bit(g[Wrap(i + 1, rows)][Wrap(j + 1, cols)])
  {
    WrapNeighbours(i, |g|);
    WrapNeighbours(j, cols);
    WrapIdentity(i, |g|);
    WrapIdentity(j, cols);
  }

  /** Conway's rule: born with exactly 3 neighbours, survives with 2 or 3. */
  function NextAlive(alive: bool, count: nat): bool
  {
    count == 3 || (alive && count == 2)
  }

  /** The next state of cell (i, j), read from the old board only. */
  function NextCell(g: Grid, cols: nat, i: int, j: int): bool
    requires Rectangular(g, cols) && 0 <= i < |g| && 0 <= j < cols
  {
    NextAlive(g[i][j], Neighbours(g, cols, i, j))
  }

  /** One synchronous generation of the whole board. */
  function NextGrid(g: Grid, cols: nat): (h: Grid)
    requires Rectangular(g, cols)
    ensures |h| == |g| && Rectangular(h, cols)
  {
    seq(|g|, i requires 0 <= i < |g| => seq(cols, j requires 0 <= j < cols => NextCell(g, cols, i, j)))
  }

  lemma NextGridCells(g: Grid, cols: nat)
    requires Rectangular(g, cols)
    ensures forall i, j :: 0 <= i < |g| && 0 <= j < cols ==> NextGrid(g, cols)[i][j] == NextCell(g, cols, i, j)
  {
  }

  /** A board that is entirely dead stays dead: no cell has 3 live neighbours. */
  lemma DeadStaysDead(rows: nat, cols: nat)
    ensures NextGrid(Dead(rows, cols), cols) == Dead(rows, cols)
  {
    var g := Dead(rows, cols);
    forall i, j | 0 <= i < rows && 0 <= j < cols
      ensures NextGrid(g, cols)[i][j] == g[i][j]
    {
      assert Neighbours(g, cols, i, j) == 0;
    }
    GridExtensionality(NextGrid(g, cols), g, cols);
  }

  /** A 4 x 4 board holding the 2 x 2 block in its centre. */
  function Block(): (g: Grid)
    ensures |g| == 4 && Rectangular(g, 4)
  {
    seq(4, i => seq(4, j => 1 <= i <= 2 && 1 <= j <= 2))
  }

  /** The block is a still life: each of its cells has 3 live neighbours and every other
      cell at most 2, so a step leaves the board as it is. */
  lemma BlockIsStill()
    ensures NextGrid(Block(), 4) == Block()
  {
    var g := Block();
    forall i, j | 0 <= i < 4 && 0 <= j < 4
      ensures NextGrid(g, 4)[i][j] == g[i][j]
    {
      var n := Neighbours(g, 4, i, j);
      if g[i][j] {
        assert n == 3;
      } else {
        assert n <= 2;
      }
    }
    GridExtensionality(NextGrid(g, 4), g, 4);
  }

  // ---------------------------------------------------------------- counting changes

  /** The number of positions where two rows differ. */
  function RowDiff(a: seq<bool>, b: seq<bool>): (n: nat)
    requires |a| == |b|
    ensures n <= |a|
  {
    if |a| == 0 then 0
    else RowDiff(a[..|a| - 1], b[..|b| - 1]) + (if a[|a| - 1] != b[|b| - 1] then 1 else 0)
  }

  /** The number of cells where two boards of the same shape differ. */
  function Hamming(g: Grid, h: Grid, cols: nat): nat
    requires |g| == |h| && Rectangular(g, cols) && Rectangular(h, cols)
  {
    if |g| == 0 then 0
    else Hamming(g[..|g| - 1], h[..|h| - 1], cols) + RowDiff(g[|g| - 1], h[|h| - 1])
  }

  /** Counting one more row adds that row's differences. */
  lemma HammingStep(g: Grid, h: Grid, cols: nat, i: nat)
    requires |g| == |h| && Rectangular(g, cols) && Rectangular(h, cols) && i < |g|
    ensures Hamming(g[..i + 1], h[..i + 1], cols) == Hamming(g[..i], h[..i], cols) + RowDiff(g[i], h[i])
  {
    assert g[..i + 1][..i] == g[..i];
    assert h[..i + 1][..i] == h[..i];
  }

  /** Rows differ nowhere exactly when they are equal. */
  lemma {:induction false} RowDiffZeroIffEqual(a: seq<bool>, b: seq<bool>)
    requires |a| == |b|
    ensures RowDiff(a, b) == 0 ==> a == b
    ensures a == b ==> RowDiff(a, b) == 0
  {
    if |a| > 0 {
      RowDiffZeroIffEqual(a[..|a| - 1], b[..|b| - 1]);
      if RowDiff(a, b) == 0 {
        assert a == a[..|a| - 1] + [a[|a| - 1]];
        assert b == b[..|b| - 1] + [b[|b| - 1]];
      }
    }
  }

  /** A step changed no cell exactly when the board is unchanged. */
  lemma {:induction false} HammingZeroIffEqual(g: Grid, h: Grid, cols: nat)
    requires |g| == |h| && Rectangular(g, cols) && Rectangular(h, cols)
    ensures Hamming(g, h, cols) == 0 ==> g == h
    ensures g == h ==> Hamming(g, h, cols) == 0
  {
    if |g| > 0 {
      var n := |g| - 1;
      HammingZeroIffEqual(g[..n], h[..n], cols);
      RowDiffZeroIffEqual(g[n], h[n]);
      if Hamming(g, h, cols) == 0 {
        assert g == g[..n] + [g[n]];
        assert h == h[..n] + [h[n]];
      }
    }
  }

  /** At most every cell changes: the count lies in `[0, rows * cols]`. */
  lemma {:induction false} HammingBound(g: Grid, h: Grid, cols: nat)
    requires |g| == |h| && Rectangular(g, cols) && Rectangular(h, cols)
    ensures Hamming(g, h, cols) <= |g| * cols
  {
    if |g| > 0 {
      var n := |g| - 1;
      HammingBound(g[..n], h[..n], cols);
      MulDistributes(n, 1, cols);
    }
  }

  // ---------------------------------------------------------------- placing an organism

  /** Cell (r, c) of an organism stored row by row, as `organism[r * orgCols + c]`. */
  function PatternAt(organism: seq<bool>, orgRows: nat, orgCols: nat, r: int, c: int): bool
    requires |organism| == orgRows * orgCols && 0 <= r < orgRows && 0 <= c < orgCols
  {
    RowMajorInRange(r, c, orgRows, orgCols);
    organism[r * orgCols + c]
  }

  /** The row-major index of an in-range cell is inside the pattern. */
  lemma RowMajorInRange(r: int, c: int, rows: nat, cols: nat)
    requires 0 <= r < rows && 0 <= c < cols
    ensures 0 <= r * cols + c < rows * cols
  {
    MulAtLeastOnce(rows - r, cols);
    MulDistributes(r, rows - r, cols);
    assert r * cols >= 0;
  }

  /**
   * The board after the organism is copied in, centred: its top-left cell lands at
   * `((rows - orgRows) / 2, (cols - orgCols) / 2)`.
   */
  function Overlay(g: Grid, cols: nat, orgRows: nat, orgCols: nat, organism: seq<bool>): (h: Grid)
    requires Rectangular(g, cols) && orgRows <= |g| && orgCols <= cols
    requires |organism| == orgRows * orgCols
    ensures |h| == |g| && Rectangular(h, cols)
  {
    var rowPad, colPad := (|g| - orgRows) / 2, (cols - orgCols) / 2;
    seq(|g|, i requires 0 <= i < |g| => seq(cols, j requires 0 <= j < cols =>
      if rowPad <= i < rowPad + orgRows && colPad <= j < colPad + orgCols
      then PatternAt(organism, orgRows, orgCols, i - rowPad, j - colPad)
      else g[i][j]))
  }

  /** Inside the centred rectangle the board holds the organism, row by row. */
  lemma OverlayPlacesOrganism(g: Grid, cols: nat, orgRows: nat, orgCols: nat, organism: seq<bool>, r: int, c: int)
    requires Rectangular(g, cols) && orgRows <= |g| && orgCols <= cols
    requires |organism| == orgRows * orgCols && 0 <= r < orgRows && 0 <= c < orgCols
    ensures var rowPad, colPad := (|g| - orgRows) / 2, (cols - orgCols) / 2;
      0 <= rowPad + r < |g| && 0 <= colPad + c < cols && 0 <= r * orgCols + c < |organism|
      && Overlay(g, cols, orgRows, orgCols, organism)[rowPad + r][colPad + c] == organism[r * orgCols + c]
  {
    RowMajorInRange(r, c, orgRows, orgCols);
    var rowPad, colPad := (|g| - orgRows) / 2, (cols - orgCols) / 2;
    var i, j := rowPad + r, colPad + c;
    assert i - rowPad == r && j - colPad == c;
    assert Overlay(g, cols, orgRows, orgCols, organism)[i][j] == PatternAt(organism, orgRows, orgCols, r, c);
  }

  /** Outside the centred rectangle every cell is unchanged. */
  lemma OverlayKeepsOutside(g: Grid, cols: nat, orgRows: nat, orgCols: nat, organism: seq<bool>, i: int, j: int)
    requires Rectangular(g, cols) && orgRows <= |g| && orgCols <= cols
    requires |organism| == orgRows * orgCols && 0 <= i < |g| && 0 <= j < cols
    requires var rowPad, colPad := (|g| - orgRows) / 2, (cols - orgCols) / 2;
      !(rowPad <= i < rowPad + orgRows && colPad <= j < colPad + orgCols)
    ensures Overlay(g, cols, orgRows, orgCols, organism)[i][j] == g[i][j]
  {
  }

  /** A symbol read as a cell, as C++ converts `char` to `bool`: any non-zero symbol is alive,
      the digit `'0'` included. */
  function Truthy(organism: seq<char>): (p: seq<bool>)
    ensures |p| == |organism|
    ensures forall k :: 0 <= k < |p| ==> (p[k] <==> organism[k] != 0 as char)
  {
    seq(|organism|, k requires 0 <= k < |organism| => organism[k] != 0 as char)
  }

  /** A cell written as a symbol, as C++ converts `bool` to `char`. */
  function Symbols(p: seq<bool>): (s: seq<char>)
    ensures |s| == |p|
  {
    seq(|p|, k requires 0 <= k < |p| => if p[k] then 1 as char else 0 as char)
  }

  /** The symbol overload places the same pattern as the cell overload: converting a pattern to
      symbols and reading it back gives the pattern. */
  lemma SymbolsReadBack(p: seq<bool>)
    ensures Truthy(Symbols(p)) == p
  {
  }

  /** The printable digits are both alive: `'0'` is not the zero symbol. */
  lemma DigitsAreAlive()
    ensures Truthy(['0', '1']) == [true, true]
  {
  }

  // ---------------------------------------------------------------- the step as written

  /** The survival test as written reads the corner cell (0, 0) for every cell. */
  function NextAliveAsWritten(g: Grid, count: nat): bool
    requires |g| >= 1 && |g[0]| >= 1
  {
    (count == 2 && g[0][0]) || count == 3
  }

  /**
   * The board the code's step produces for `rows, cols >= 2`: the neighbour counts are the
   * wrapped ones, but the survival test reads (0, 0); the edge columns of the middle rows are
   * never computed, and the lower-right block writes cell (rows - 1, 0) instead of
   * (rows - 1, cols - 1), which therefore stays dead.
   */
  function NextCellAsWritten(g: Grid, cols: nat, i: int, j: int): bool
    requires Rectangular(g, cols) && |g| >= 2 && cols >= 2 && 0 <= i < |g| && 0 <= j < cols
  {
    var rows := |g|;
    if 0 < i < rows - 1 && (j == 0 || j == cols - 1) then false
    else if i == rows - 1 && j == cols - 1 then false
    else if i == rows - 1 && j == 0 then
      NextAliveAsWritten(g, Neighbours(g, cols, i, 0)) || NextAliveAsWritten(g, Neighbours(g, cols, i, cols - 1))
    else NextAliveAsWritten(g, Neighbours(g, cols, i, j))
  }

  /** The lower-right cell is never alive after the step as written. */
  lemma AsWrittenCornerStaysDead(g: Grid, cols: nat)
    requires Rectangular(g, cols) && |g| >= 2 && cols >= 2
    ensures !NextCellAsWritten(g, cols, |g| - 1, cols - 1)
  {
  }

  /** A 3 x 3 board: the vertical bar in the middle column of rows 0 and 1, plus cell (1, 2). */
  function SurvivalWitness(): (g: Grid)
    ensures |g| == 3 && Rectangular(g, 3)
  {
    [[false, true, false], [false, true, true], [false, false, false]]
  }

  /** Cell (0, 1) has 2 live neighbours and is alive, so it survives; the code, reading the dead
      corner (0, 0), kills it. */
  lemma AsWrittenSurvivalCounterexample()
    ensures Neighbours(SurvivalWitness(), 3, 0, 1) == 2
    ensures NextCell(SurvivalWitness(), 3, 0, 1)
    ensures !NextCellAsWritten(SurvivalWitness(), 3, 0, 1)
  {
  }

  /** A 3 x 3 board with the 2 x 2 block in its lower-right corner minus the corner cell. */
  function CornerWitness(): (g: Grid)
    ensures |g| == 3 && Rectangular(g, 3)
  {
    [[false, false, false], [false, true, true], [false, true, false]]
  }

  /** The corner cell (2, 2) has 3 live neighbours and is born; the code leaves it dead. */
  lemma AsWrittenCornerCounterexample()
    ensures Neighbours(CornerWitness(), 3, 2, 2) == 3
    ensures NextCell(CornerWitness(), 3, 2, 2)
    ensures !NextCellAsWritten(CornerWitness(), 3, 2, 2)
  {
  }

  /** A 3 x 3 board with a vertical bar in the left column. */
  function EdgeWitness(): (g: Grid)
    ensures |g| == 3 && Rectangular(g, 3)
  {
    [[true, false, false], [true, false, false], [true, false, false]]
  }

  /** Cell (1, 0) is alive with 2 live neighbours and survives; the code never computes it. */
  lemma AsWrittenEdgeCounterexample()
    ensures Neighbours(EdgeWitness(), 3, 1, 0) == 2
    ensures NextCell(EdgeWitness(), 3, 1, 0)
    ensures !NextCellAsWritten(EdgeWitness(), 3, 1, 0)
  {
  }

  // ---------------------------------------------------------------- the board

  /** The cells of a two-dimensional array, row by row. */
  ghost function Cells(b: array2<bool>): (g: Grid)
    reads b
    ensures |g| == b.Length0 && Rectangular(g, b.Length1)
    ensures forall i, j :: 0 <= i < b.Length0 && 0 <= j < b.Length1 ==> g[i][j] == b[i, j]
  {
    seq(b.Length0, i requires 0 <= i < b.Length0 reads b =>
      seq(b.Length1, j requires 0 <= j < b.Length1 reads b => b[i, j]))
  }

  /** `GameOfLife`: a `rows` x `cols` board of cells. */
  class GameOfLife {
    const rows: nat
    const cols: nat
    var board: array2<bool>

    ghost predicate Valid()
      reads this
    {
      board.Length0 == rows && board.Length1 == cols
    }

    /** The board as a grid. */
    ghost function Grid(): (g: Grid)
      reads this, board
      requires Valid()
      ensures |g| == rows && Rectangular(g, cols)
    {
      Cells(board)
    }

    /** A board of the given size with every cell dead. */
    constructor (rows: nat, cols: nat)
      ensures Valid() && fresh(board)
      ensures this.rows == rows && this.cols == cols
      ensures Grid() == Dead(rows, cols)
    {
      this.rows := rows;
      this.cols := cols;
      board := new bool[rows, cols]((i, j) => false);
      new;
      GridExtensionality(Cells(board), Dead(rows, cols), cols);
    }

    /**
     * Copies the organism (`orgRows` x `orgCols` cells, row by row) into the centre of the
     * board, leaving every other cell as it was.
     */
    method AddOrganism(orgRows: nat, orgCols: nat, organism: seq<bool>)
      requires Valid() && orgRows <= rows && orgCols <= cols
      requires |organism| == orgRows * orgCols
      modifies board
      ensures Valid()
      ensures Grid() == Overlay(old(Grid()), cols, orgRows, orgCols, organism)
    {
      ghost var g := Grid();
      var rowPad := (rows - orgRows) / 2;
      var colPad := (cols - orgCols) / 2;
      var index := 0;
      var i := 0;
      while i < orgRows
        invariant 0 <= i <= orgRows && index == i * orgCols
        invariant forall a, b :: 0 <= a < rows && 0 <= b < cols ==>
          board[a, b] == (if rowPad <= a < rowPad + i && colPad <= b < colPad + orgCols
                          then PatternAt(organism, orgRows, orgCols, a - rowPad, b - colPad)
                          else g[a][b])
      {
        index := PlaceRow(orgRows, orgCols, organism, i, rowPad, colPad, index);
        MulDistributes(i, 1, orgCols);
        i := i + 1;
      }
      GridExtensionality(Grid(), Overlay(g, cols, orgRows, orgCols, organism), cols);
    }

    /** Copies row i of the organism into board row `rowPad + i`, from column `colPad` on,
        reading the organism from `index`; every other cell keeps its value. */
    method PlaceRow(orgRows: nat, orgCols: nat, organism: seq<bool>, i: nat, rowPad: nat, colPad: nat,
                    index: nat) returns (next: nat)
      requires Valid() && i < orgRows && rowPad + i < rows && colPad + orgCols <= cols
      requires |organism| == orgRows * orgCols && index == i * orgCols
      modifies board
      ensures next == index + orgCols
      ensures forall b :: 0 <= b < orgCols ==> board[rowPad + i, colPad + b] == PatternAt(organism, orgRows, orgCols, i, b)
      ensures forall a, b :: 0 <= a < rows && 0 <= b < cols && !(a == rowPad + i && colPad <= b < colPad + orgCols) ==>
        board[a, b] == old(board[a, b])
    {
      next := index;
      var j := 0;
      while j < orgCols
        invariant 0 <= j <= orgCols && next == i * orgCols + j
        invariant forall b :: 0 <= b < j ==> board[rowPad + i, colPad + b] == PatternAt(organism, orgRows, orgCols, i, b)
        invariant forall a, b :: 0 <= a < rows && 0 <= b < cols && !(a == rowPad + i && colPad <= b < colPad + j) ==>
          board[a, b] == old(board[a, b])
      {
        RowMajorInRange(i, j, orgRows, orgCols);
        board[rowPad + i, colPad + j] := organism[next];
        next := next + 1;
        j := j + 1;
      }
    }

    /** The symbol overload: a cell becomes alive exactly when its symbol is non-zero. */
    method AddOrganismSymbols(orgRows: nat, orgCols: nat, organism: seq<char>)
      requires Valid() && orgRows <= rows && orgCols <= cols
      requires |organism| == orgRows * orgCols
      modifies board
      ensures Valid()
      ensures Grid() == Overlay(old(Grid()), cols, orgRows, orgCols, Truthy(organism))
    {
      AddOrganism(orgRows, orgCols, Truthy(organism));
    }

    /** Sets every cell to dead. */
    method ResetBoard()
      requires Valid()
      modifies board
      ensures Valid() && Grid() == Dead(rows, cols)
    {
      var i := 0;
      while i < rows
        invariant 0 <= i <= rows
        invariant forall a, b :: 0 <= a < i && 0 <= b < cols ==> !board[a, b]
      {
        var j := 0;
        while j < cols
          invariant 0 <= j <= cols
          invariant forall a, b :: 0 <= a < i && 0 <= b < cols ==> !board[a, b]
          invariant forall b :: 0 <= b < j ==> !board[i, b]
        {
          board[i, j] := false;
          j := j + 1;
        }
        i := i + 1;
      }
      GridExtensionality(Grid(), Dead(rows, cols), cols);
    }

    /** Copies the board into `data`, which the caller owns; the board itself is unchanged. */
    method GetBoardSafe(data: array2<bool>)
      requires Valid() && data != board && data.Length0 == rows && data.Length1 == cols
      modifies data
      ensures Cells(data) == Grid()
    {
      var i := 0;
      while i < rows
        invariant 0 <= i <= rows
        invariant forall a, b :: 0 <= a < i && 0 <= b < cols ==> data[a, b] == board[a, b]
      {
        var j := 0;
        while j < cols
          invariant 0 <= j <= cols
          invariant forall a, b :: 0 <= a < i && 0 <= b < cols ==> data[a, b] == board[a, b]
          invariant forall b :: 0 <= b < j ==> data[i, b] == board[i, b]
        {
          data[i, j] := board[i, j];
          j := j + 1;
        }
        i := i + 1;
      }
      GridExtensionality(Cells(data), Grid(), cols);
    }

    /** The live neighbours of (i, j), the indices of the row above and below and the column
        left and right wrapping around the edges. */
    method CountNeighbours(i: nat, j: nat) returns (count: nat)
      requires Valid() && i < rows && j < cols
      ensures count == Neighbours(Grid(), cols, i, j)
    {
      var up := if i == 0 then rows - 1 else i - 1;
      var down := if i == rows - 1 then 0 else i + 1;
      var left := if j == 0 then cols - 1 else j - 1;
      var right := if j == cols - 1 then 0 else j + 1;
      count := Bit(board[up, left]) + Bit(board[up, j]) + Bit(board[up, right])
        + Bit(board[i, left]) + Bit(board[i, right])
        + Bit(board[down, left]) + Bit(board[down, j]) + Bit(board[down, right]);
    }

    /**
     * One generation: the next board is computed into a fresh, all-dead buffer from the
     * unchanged old board, the changed cells are counted, and the buffer replaces the board.
     * Returns the number of cells that changed.
     */
    method Step() returns (changed: nat)
      requires Valid()
      modifies this
      ensures Valid() && fresh(board)
      ensures Grid() == NextGrid(old(Grid()), cols)
      ensures changed == Hamming(old(Grid()), Grid(), cols)
    {
      ghost var g := Grid();
      var nextBoard := NextBoard();
      ghost var h := Cells(nextBoard);
      changed := CountChanges(nextBoard);
      board := nextBoard;
      assert Grid() == h;
    }

    /** The next generation in a fresh buffer, every cell from the old board only. */
    method NextBoard() returns (nextBoard: array2<bool>)
      requires Valid()
      ensures fresh(nextBoard) && nextBoard.Length0 == rows && nextBoard.Length1 == cols
      ensures Cells(nextBoard) == NextGrid(Grid(), cols)
    {
      ghost var g := Grid();
      nextBoard := new bool[rows, cols]((i, j) => false);
      var i := 0;
      while i < rows
        invariant 0 <= i <= rows
        invariant forall a, b :: 0 <= a < i && 0 <= b < cols ==> nextBoard[a, b] == NextCell(g, cols, a, b)
      {
        NextRow(nextBoard, i);
        i := i + 1;
      }
      NextGridCells(g, cols);
      GridExtensionality(Cells(nextBoard), NextGrid(g, cols), cols);
    }

    /** Fills row i of the buffer with the next generation of that row, leaving the other rows. */
    method NextRow(nextBoard: array2<bool>, i: nat)
      requires Valid() && nextBoard != board && i < rows
      requires nextBoard.Length0 == rows && nextBoard.Length1 == cols
      modifies nextBoard
      ensures forall b :: 0 <= b < cols ==> nextBoard[i, b] == NextCell(Grid(), cols, i, b)
      ensures forall a, b :: 0 <= a < rows && a != i && 0 <= b < cols ==> nextBoard[a, b] == old(nextBoard[a, b])
    {
      var j := 0;
      while j < cols
        invariant 0 <= j <= cols
        invariant forall b :: 0 <= b < j ==> nextBoard[i, b] == NextCell(Grid(), cols, i, b)
        invariant forall a, b :: 0 <= a < rows && a != i && 0 <= b < cols ==> nextBoard[a, b] == old(nextBoard[a, b])
      {
        var count := CountNeighbours(i, j);
        nextBoard[i, j] := count == 3 || (count == 2 && board[i, j]);
        j := j + 1;
      }
    }

    /** The number of cells where the board and `other` differ. */
    method CountChanges(other: array2<bool>) returns (count: nat)
      requires Valid() && other.Length0 == rows && other.Length1 == cols
      ensures count == Hamming(Grid(), Cells(other), cols)
    {
      ghost var g := Grid();
      ghost var h := Cells(other);
      count := 0;
      var i := 0;
      while i < rows
        invariant 0 <= i <= rows
        invariant count == Hamming(g[..i], h[..i], cols)
      {
        var n := RowChanges(other, i);
        count := count + n;
        HammingStep(g, h, cols, i);
        i := i + 1;
      }
      assert g[..rows] == g && h[..rows] == h;
    }

    /** The number of cells of row i where the board and `other` differ. */
    method RowChanges(other: array2<bool>, i: nat) returns (count: nat)
      requires Valid() && other.Length0 == rows && other.Length1 == cols && i < rows
      ensures count == RowDiff(Grid()[i], Cells(other)[i])
    {
      ghost var a := Grid()[i];
      ghost var b := Cells(other)[i];
      count := 0;
      var j := 0;
      while j < cols
        invariant 0 <= j <= cols
        invariant count == RowDiff(a[..j], b[..j])
      {
        if board[i, j] != other[i, j] {
          count := count + 1;
        }
        assert a[..j + 1][..j] == a[..j];
        assert b[..j + 1][..j] == b[..j];
        j := j + 1;
      }
      assert a[..cols] == a && b[..cols] == b;
    }
  }
}
