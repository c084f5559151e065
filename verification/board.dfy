/** Tiles, the rectangular grid they live in, and the adjacency counts the
    engine derives from a mine list. */
module Board {

  /** A grid position; components may lie outside the grid, as the
      neighbour offsets the engine generates often do. */
  datatype Cell = Cell(r: int, c: int)

  datatype Tile = Tile(isMine: bool, count: int, isOpen: bool)

  /** The board: a list of rows, each a list of tiles. */
  type Grid = seq<seq<Tile>>

  predicate WellFormed(g: Grid, rows: int, cols: int)
  {
    |g| == rows && forall i :: 0 <= i < |g| ==> |g[i]| == cols
  }

  predicate InGrid(x: Cell, rows: int, cols: int)
  {
    0 <= x.r < rows && 0 <= x.c < cols
  }

  function At(g: Grid, x: Cell): Tile
    requires 0 <= x.r < |g| && 0 <= x.c < |g[x.r]|
  {
    g[x.r][x.c]
  }

  /** `x` lies on the board `g` and its tile is open. */
  predicate OpenAt(g: Grid, x: Cell)
  {
    0 <= x.r < |g| && 0 <= x.c < |g[x.r]| && At(g, x).isOpen
  }

  /** The grid with the tile at `x` replaced by `t`. */
  function Put(g: Grid, x: Cell, t: Tile): (g': Grid)
    requires 0 <= x.r < |g| && 0 <= x.c < |g[x.r]|
    ensures |g'| == |g| && forall i :: 0 <= i < |g| ==> |g'[i]| == |g[i]|
    ensures At(g', x) == t
    ensures forall y: Cell :: 0 <= y.r < |g| && 0 <= y.c < |g[y.r]| && y != x ==> At(g', y) == At(g, y)
  {
    g[x.r := g[x.r][x.c := t]]
  }

  /** `y` lies in the 3x3 block centred on `x` (including `x` itself). */
  predicate Near(x: Cell, y: Cell)
  {
    -1 <= y.r - x.r <= 1 && -1 <= y.c - x.c <= 1
  }

  /** The nine cells of the 3x3 block around `x`, in the engine's scan order:
      row offset -1..1 outer, column offset -1..1 inner. */
  function Around(x: Cell): (s: seq<Cell>)
    ensures |s| == 9
    ensures forall k :: 0 <= k < 9 ==> Near(x, s[k])
    ensures forall y :: Near(x, y) ==> y in s
  {
    [Cell(x.r - 1, x.c - 1), Cell(x.r - 1, x.c), Cell(x.r - 1, x.c + 1),
     Cell(x.r, x.c - 1), Cell(x.r, x.c), Cell(x.r, x.c + 1),
     Cell(x.r + 1, x.c - 1), Cell(x.r + 1, x.c), Cell(x.r + 1, x.c + 1)]
  }

  predicate Distinct<T(==)>(s: seq<T>)
  {
    forall i, j :: 0 <= i < j < |s| ==> s[i] != s[j]
  }

  predicate AllInGrid(mines: seq<Cell>, rows: int, cols: int)
  {
    forall k :: 0 <= k < |mines| ==> InGrid(mines[k], rows, cols)
  }

  /** 1 when the mine list names `y`, else 0. */
  function Has(mines: seq<Cell>, y: Cell): nat
  {
    if y in mines then 1 else 0
  }

  /** The engine's count, term by term: the first `j + 1` column offsets of
      row offset `i` around `x`. */
  function RowSum(mines: seq<Cell>, x: Cell, i: int, j: int): nat
    requires -1 <= j <= 2
    decreases j + 1
  {
    if j == -1 then 0 else RowSum(mines, x, i, j - 1) + Has(mines, Cell(x.r + i, x.c + j - 1))
  }

  /** The first `i + 1` row offsets of the 3x3 block around `x`. */
  function BlockSum(mines: seq<Cell>, x: Cell, i: int): nat
    requires -1 <= i <= 2
    decreases i + 1
  {
    if i == -1 then 0 else BlockSum(mines, x, i - 1) + RowSum(mines, x, i - 1, 2)
  }

  /** One past the last offset of the block. A function rather than the
      literal 2, so that the verifier does not unfold the sums eagerly
      wherever a count is mentioned. */
  function BlockEnd(): int { 2 }

  /** How many of the nine offsets around `x` the mine list names. */
  function OffsetCount(mines: seq<Cell>, x: Cell): nat
  {
    BlockSum(mines, x, BlockEnd())
  }

  /** The count depends only on which cells the list names. */
  lemma {:induction false} RowSumSame(a: seq<Cell>, b: seq<Cell>, x: Cell, i: int, j: int)
    requires -1 <= j <= 2 && forall y :: Has(a, y) == Has(b, y)
    ensures RowSum(a, x, i, j) == RowSum(b, x, i, j)
    decreases j + 1
  {
    if j != -1 {
      RowSumSame(a, b, x, i, j - 1);
    }
  }

  lemma {:induction false} BlockSumSame(a: seq<Cell>, b: seq<Cell>, x: Cell, i: int)
    requires -1 <= i <= 2 && forall y :: Has(a, y) == Has(b, y)
    ensures BlockSum(a, x, i) == BlockSum(b, x, i)
    decreases i + 1
  {
    if i != -1 {
      BlockSumSame(a, b, x, i - 1);
      RowSumSame(a, b, x, i - 1, 2);
    }
  }

  /** Two lists naming the same cells give every cell the same count. */
  lemma OffsetCountSame(a: seq<Cell>, b: seq<Cell>, x: Cell)
    requires forall y :: y in a <==> y in b
    ensures OffsetCount(a, x) == OffsetCount(b, x)
  {
    assert forall y :: Has(a, y) == Has(b, y);
    BlockSumSame(a, b, x, BlockEnd());
  }

  /** Reference definition: how many entries of the mine list lie in the
      3x3 block around `x`. */
  function NearCount(mines: seq<Cell>, x: Cell): nat
  {
    if mines == [] then 0
    else (if Near(x, mines[0]) then 1 else 0) + NearCount(mines[1..], x)
  }

  lemma OffsetCountExpanded(mines: seq<Cell>, x: Cell)
    ensures OffsetCount(mines, x) ==
      Has(mines, Cell(x.r - 1, x.c - 1)) + Has(mines, Cell(x.r - 1, x.c)) + Has(mines, Cell(x.r - 1, x.c + 1)) +
      Has(mines, Cell(x.r, x.c - 1)) + Has(mines, Cell(x.r, x.c)) + Has(mines, Cell(x.r, x.c + 1)) +
      Has(mines, Cell(x.r + 1, x.c - 1)) + Has(mines, Cell(x.r + 1, x.c)) + Has(mines, Cell(x.r + 1, x.c + 1))
  {
  }

  /** Exactly one of the nine block cells around `x` is `m` when `m` is
      near `x`, and none otherwise. */
  lemma NineMatches(x: Cell, m: Cell)
    ensures (if Cell(x.r - 1, x.c - 1) == m then 1 else 0) + (if Cell(x.r - 1, x.c) == m then 1 else 0) +
            (if Cell(x.r - 1, x.c + 1) == m then 1 else 0) + (if Cell(x.r, x.c - 1) == m then 1 else 0) +
            (if Cell(x.r, x.c) == m then 1 else 0) + (if Cell(x.r, x.c + 1) == m then 1 else 0) +
            (if Cell(x.r + 1, x.c - 1) == m then 1 else 0) + (if Cell(x.r + 1, x.c) == m then 1 else 0) +
            (if Cell(x.r + 1, x.c + 1) == m then 1 else 0)
            == (if Near(x, m) then 1 else 0)
  {
  }

  lemma HasSplit(mines: seq<Cell>, y: Cell)
    requires mines != [] && mines[0] !in mines[1..]
    ensures Has(mines, y) == Has(mines[1..], y) + (if y == mines[0] then 1 else 0)
  {
    assert mines == [mines[0]] + mines[1..];
    assert y in mines <==> y == mines[0] || y in mines[1..];
  }

  /** With distinct mines, the engine's offset-by-offset count is the number
      of mines in the 3x3 block. */
  lemma {:induction false} OffsetCountIsNearCount(mines: seq<Cell>, x: Cell)
    requires Distinct(mines)
    ensures OffsetCount(mines, x) == NearCount(mines, x)
  {
    if mines != [] {
      var rest := mines[1..];
      assert Distinct(rest);
      assert mines[0] !in rest;
      OffsetCountIsNearCount(rest, x);
      OffsetCountExpanded(mines, x);
      OffsetCountExpanded(rest, x);
      HasSplit(mines, Cell(x.r - 1, x.c - 1));
      HasSplit(mines, Cell(x.r - 1, x.c));
      HasSplit(mines, Cell(x.r - 1, x.c + 1));
      HasSplit(mines, Cell(x.r, x.c - 1));
      HasSplit(mines, Cell(x.r, x.c));
      HasSplit(mines, Cell(x.r, x.c + 1));
      HasSplit(mines, Cell(x.r + 1, x.c - 1));
      HasSplit(mines, Cell(x.r + 1, x.c));
      HasSplit(mines, Cell(x.r + 1, x.c + 1));
      NineMatches(x, mines[0]);
    }
  }

  /** No mine near `x` exactly when the reference count is zero. */
  lemma {:induction false} NearCountZero(mines: seq<Cell>, x: Cell)
    ensures NearCount(mines, x) == 0 <==> forall k :: 0 <= k < |mines| ==> !Near(x, mines[k])
  {
    if mines != [] {
      NearCountZero(mines[1..], x);
      assert forall k :: 1 <= k < |mines| ==> mines[k] == mines[1..][k - 1];
    }
  }

  /** Each entry of a distinct mine list near `x` contributes one: at most
      nine, at most eight when `x` itself is not a mine. */
  lemma NearCountBound(mines: seq<Cell>, x: Cell)
    requires Distinct(mines)
    ensures NearCount(mines, x) <= 9
    ensures x !in mines ==> NearCount(mines, x) <= 8
  {
    OffsetCountIsNearCount(mines, x);
    OffsetCountExpanded(mines, x);
  }

  /** The board's `isMine` flags and the mine list describe the same cells. */
  ghost predicate Agrees(g: Grid, rows: int, cols: int, mines: seq<Cell>)
    requires WellFormed(g, rows, cols)
  {
    forall x :: InGrid(x, rows, cols) ==> (At(g, x).isMine <==> x in mines)
  }

  /** Every non-mine tile carries the engine's count of the mine list. */
  ghost predicate CountsMatch(g: Grid, rows: int, cols: int, mines: seq<Cell>)
    requires WellFormed(g, rows, cols)
  {
    forall x :: InGrid(x, rows, cols) && !At(g, x).isMine ==> At(g, x).count == OffsetCount(mines, x)
  }

  /** Some safe tile has count zero: a no-guess starting point. */
  ghost predicate HasSafeOpening(g: Grid, rows: int, cols: int)
    requires WellFormed(g, rows, cols)
  {
    exists x :: InGrid(x, rows, cols) && !At(g, x).isMine && At(g, x).count == 0
  }

  ghost predicate AllClosed(g: Grid, rows: int, cols: int)
    requires WellFormed(g, rows, cols)
  {
    forall x :: InGrid(x, rows, cols) ==> !At(g, x).isOpen
  }

  /** Closed safe tiles of one row (counted from the end, as a left-to-right
      scan accumulates them). */
  function RowClosed(row: seq<Tile>): nat
  {
    if row == [] then 0
    else RowClosed(row[..|row| - 1]) + (if !row[|row| - 1].isMine && !row[|row| - 1].isOpen then 1 else 0)
  }

  /** Closed safe tiles of the whole board. */
  function ClosedSafe(g: Grid): nat
  {
    if g == [] then 0 else ClosedSafe(g[..|g| - 1]) + RowClosed(g[|g| - 1])
  }

  /** Every tile is a mine or open. */
  predicate AllSafeOpen(g: Grid)
  {
    forall i, j :: 0 <= i < |g| && 0 <= j < |g[i]| ==> g[i][j].isMine || g[i][j].isOpen
  }

  lemma {:induction false} RowClosedZero(row: seq<Tile>)
    ensures RowClosed(row) == 0 <==> forall j :: 0 <= j < |row| ==> row[j].isMine || row[j].isOpen
  {
    if row != [] {
      var front := row[..|row| - 1];
      RowClosedZero(front);
      assert forall j :: 0 <= j < |front| ==> front[j] == row[j];
    }
  }

  /** The count of closed safe tiles is zero exactly when every safe tile is open. */
  lemma {:induction false} ClosedSafeZero(g: Grid)
    ensures ClosedSafe(g) == 0 <==> AllSafeOpen(g)
  {
    if g != [] {
      var front := g[..|g| - 1];
      ClosedSafeZero(front);
      RowClosedZero(g[|g| - 1]);
      assert forall i :: 0 <= i < |front| ==> front[i] == g[i];
    }
  }
}
