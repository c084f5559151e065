/** Board generation: size clamping, mine placement from a stream of random
    draws, board construction with adjacency counts, the no-guess retry loop
    and the forced safe opening. */
module Generation {
  import opened Board

  /** Board dimensions and requested mine count (the source's `cfg`). */
  datatype Dims = Dims(r: int, c: int, m: int)

  /** Attempts after which a no-guess board gets a forced opening. */
  const MaxAttempts := 100

  /** `Math.max(lo, Math.min(hi, v))`. */
  function Clamp(lo: int, hi: int, v: int): (r: int)
    ensures lo <= hi ==> lo <= r <= hi
    ensures lo <= v <= hi ==> r == v
    ensures v < lo ==> r == lo
    ensures lo <= hi < v ==> r == hi
    // with crossed bounds the lower one wins, as `Math.max` is applied last
    ensures hi < lo ==> r == lo
  {
    if hi < v then (if lo < hi then hi else lo) else (if lo < v then v else lo)
  }

  /** `parseInt(text) || fallback`: a raw value of 0 stands for an input that
      parsed to 0 or to NaN, both of which fall back to the default. */
  function OrDefault(raw: int, fallback: int): (r: int)
    ensures raw != 0 ==> r == raw
    ensures raw == 0 ==> r == fallback
  {
    if raw == 0 then fallback else raw
  }

  /** Custom board size: rows and columns clamped to 5..50 (default 20 by 30),
      mines clamped to 1..rows*cols-9 (default 100), which always leaves room
      for a cleared 3x3 opening. */
  function CustomDims(rawRows: int, rawCols: int, rawMines: int): (d: Dims)
    ensures 5 <= d.r <= 50 && 5 <= d.c <= 50
    ensures 1 <= d.m <= d.r * d.c - 9
    ensures 5 <= rawRows <= 50 ==> d.r == rawRows
    ensures 5 <= rawCols <= 50 ==> d.c == rawCols
    ensures rawMines != 0 && 1 <= rawMines <= d.r * d.c - 9 ==> d.m == rawMines
  {
    var r := Clamp(5, 50, OrDefault(rawRows, 20));
    var c := Clamp(5, 50, OrDefault(rawCols, 30));
    assert r * c >= 25 by { assert r >= 5 && c >= 5; }
    Dims(r, c, Clamp(1, r * c - 9, OrDefault(rawMines, 100)))
  }

  /** The number of different cells a list names. */
  function Spread(s: seq<Cell>): nat
  {
    |set y | y in s|
  }

  /** `mines.findIndex(m => m is y)`. */
  function IndexOf(s: seq<Cell>, y: Cell): (k: int)
    ensures -1 <= k < |s|
    ensures k == -1 <==> y !in s
    ensures k >= 0 ==> s[k] == y && forall l :: 0 <= l < k ==> s[l] != y
  {
    if s == [] then -1
    else if s[0] == y then 0
    else
      var k := IndexOf(s[1..], y);
      if k == -1 then -1 else k + 1
  }

  /** What `splice(k, 1)` leaves of a list. */
  lemma RemoveAt(s: seq<Cell>, k: int)
    requires 0 <= k < |s|
    ensures multiset(s[..k] + s[k + 1..]) == multiset(s) - multiset{s[k]}
    ensures forall y :: y in s[..k] + s[k + 1..] ==> y in s
    ensures forall y :: y in s && y != s[k] ==> y in s[..k] + s[k + 1..]
    ensures Distinct(s) ==> Distinct(s[..k] + s[k + 1..]) && s[k] !in s[..k] + s[k + 1..]
  {
    var t := s[..k] + s[k + 1..];
    RemoveAtMultiset(s, k);
    forall y | y in s && y != s[k] ensures y in t {
      assert y in multiset(s) - multiset{s[k]};
    }
    forall y | y in t ensures y in s {
      assert y in multiset(t);
    }
    if Distinct(s) {
      RemoveAtDistinct(s, k);
    }
  }

  lemma RemoveAtMultiset(s: seq<Cell>, k: int)
    requires 0 <= k < |s|
    ensures multiset(s[..k] + s[k + 1..]) == multiset(s) - multiset{s[k]}
  {
    assert s == s[..k] + [s[k]] + s[k + 1..];
    assert multiset(s) == multiset(s[..k]) + multiset{s[k]} + multiset(s[k + 1..]);
  }

  lemma RemoveAtDistinct(s: seq<Cell>, k: int)
    requires 0 <= k < |s| && Distinct(s)
    ensures Distinct(s[..k] + s[k + 1..]) && s[k] !in s[..k] + s[k + 1..]
  {
    var t := s[..k] + s[k + 1..];
    assert forall a :: 0 <= a < |t| ==> t[a] == s[if a < k then a else a + 1];
    forall a, b | 0 <= a < b < |t| ensures t[a] != t[b] {
      assert t[a] == s[if a < k then a else a + 1];
      assert t[b] == s[if b < k then b else b + 1];
    }
    forall i | 0 <= i < |t| ensures t[i] != s[k] {
      assert t[i] == s[if i < k then i else i + 1];
    }
  }

  lemma {:induction false} DistinctCard(s: seq<Cell>)
    requires Distinct(s)
    ensures |set y | y in s| == |s|
  {
    if s != [] {
      var rest := s[1..];
      assert Distinct(rest);
      DistinctCard(rest);
      assert (set y | y in s) == (set y | y in rest) + {s[0]};
      assert s[0] !in rest;
    }
  }

  /** The engine's 3x3 scan for one cell: how many of the nine offsets the
      mine list names; with distinct mines, the number of mines in the block. */
  method CountAround(mines: seq<Cell>, x: Cell) returns (count: nat)
    ensures count == OffsetCount(mines, x)
    ensures Distinct(mines) ==> count == NearCount(mines, x)
  {
    count := 0;
    for i := -1 to 2
      invariant count == BlockSum(mines, x, i)
    {
      for j := -1 to 2
        invariant count == BlockSum(mines, x, i) + RowSum(mines, x, i, j)
      {
        if Cell(x.r + i, x.c + j) in mines {
          count := count + 1;
        }
      }
    }
    if Distinct(mines) {
      OffsetCountIsNearCount(mines, x);
    }
  }

  /** The mines an attempt ends with when `placed` are down and `draws` are
      still to come: each drawn cell not yet placed is kept, in the order
      drawn, until `m` are kept or the draws run out. What is placed stays. */
  function PlacedFrom(placed: seq<Cell>, draws: seq<Cell>, m: int): (r: seq<Cell>)
    ensures placed <= r
    decreases |draws|
  {
    if |placed| >= m || draws == [] then placed
    else PlacedFrom(if draws[0] in placed then placed else placed + [draws[0]], draws[1..], m)
  }

  /** Drawing `draws[k]` moves the placement one draw on. */
  lemma PlacedStep(placed: seq<Cell>, draws: seq<Cell>, k: int, m: int)
    requires |placed| < m && 0 <= k < |draws|
    ensures PlacedFrom(placed, draws[k..], m) ==
      PlacedFrom(if draws[k] in placed then placed else placed + [draws[k]], draws[k + 1..], m)
  {
    assert draws[k..][0] == draws[k] && draws[k..][1..] == draws[k + 1..];
  }

  /** With `m` placed or the draws used up, the placement is final. */
  lemma PlacedDone(placed: seq<Cell>, draws: seq<Cell>, k: int, m: int)
    requires 0 <= k <= |draws| && (|placed| >= m || k == |draws|)
    ensures PlacedFrom(placed, draws[k..], m) == placed
  {
    if k == |draws| {
      assert draws[k..] == [];
    }
  }

  /** The mines one attempt places from its draws. */
  function Placed(draws: seq<Cell>, m: int): seq<Cell>
  {
    PlacedFrom([], draws, m)
  }

  /** One draw of the placement loop keeps its invariant. */
  lemma PlaceStep(mines: seq<Cell>, draws: seq<Cell>, k: int, rows: int, cols: int, m: int)
    requires 0 <= k < |draws| && |mines| < m && AllInGrid(draws, rows, cols)
    requires Distinct(mines) && AllInGrid(mines, rows, cols)
    requires forall y :: y in mines <==> y in draws[..k]
    requires PlacedFrom(mines, draws[k..], m) == Placed(draws, m)
    ensures var next := if draws[k] in mines then mines else mines + [draws[k]];
      Distinct(next) && AllInGrid(next, rows, cols) && |next| <= m &&
      (forall y :: y in next <==> y in draws[..k + 1]) &&
      PlacedFrom(next, draws[k + 1..], m) == Placed(draws, m)
  {
    PlacedStep(mines, draws, k, m);
    assert draws[..k + 1] == draws[..k] + [draws[k]];
  }

  /** One generation attempt's mine placement: draw cells from the random
      stream, keeping each one not already placed, until `m` are placed. */
  method PlaceMines(draws: seq<Cell>, rows: int, cols: int, m: int) returns (mines: seq<Cell>)
    requires AllInGrid(draws, rows, cols)
    requires Spread(draws) >= m
    ensures mines == Placed(draws, m)
    ensures |mines| == if m > 0 then m else 0
    ensures Distinct(mines) && AllInGrid(mines, rows, cols)
    ensures forall y :: y in mines ==> y in draws
  {
    mines := [];
    var k := 0;
    while |mines| < m && k < |draws|
      invariant 0 <= k <= |draws|
      invariant Distinct(mines) && AllInGrid(mines, rows, cols)
      invariant forall y :: y in mines <==> y in draws[..k]
      invariant |mines| <= m || mines == []
      invariant PlacedFrom(mines, draws[k..], m) == Placed(draws, m)
    {
      var y := draws[k];
      PlaceStep(mines, draws, k, rows, cols, m);
      if y !in mines {
        mines := mines + [y];
      }
      k := k + 1;
    }
    PlacedDone(mines, draws, k, m);
    if |mines| < m {
      assert draws[..k] == draws;
      assert (set y | y in mines) == (set y | y in draws);
      DistinctCard(mines);
    }
  }

  /** The tile generation gives cell `x`: a mine with count 0, or a safe tile
      carrying the engine's count; closed either way. */
  function FreshTile(mines: seq<Cell>, x: Cell): Tile
  {
    if x in mines then Tile(true, 0, false) else Tile(false, OffsetCount(mines, x), false)
  }

  /** Some tile of the row is safe with count 0. */
  predicate SafeZeroIn(row: seq<Tile>)
  {
    exists j :: 0 <= j < |row| && !row[j].isMine && row[j].count == 0
  }

  lemma SafeZeroPush(row: seq<Tile>, t: Tile)
    ensures SafeZeroIn(row + [t]) <==> SafeZeroIn(row) || (!t.isMine && t.count == 0)
  {
    var row' := row + [t];
    if SafeZeroIn(row) {
      var j :| 0 <= j < |row| && !row[j].isMine && row[j].count == 0;
      assert row'[j] == row[j];
    }
    if !t.isMine && t.count == 0 {
      assert row'[|row|] == t;
    }
    if SafeZeroIn(row') {
      var j :| 0 <= j < |row'| && !row'[j].isMine && row'[j].count == 0;
      if j < |row| {
        assert row[j] == row'[j];
      }
    }
  }

  /** Appending the fresh tile of column `c` extends a fresh row prefix. */
  lemma FreshRowStep(row: seq<Tile>, t: Tile, mines: seq<Cell>, r: int, c: int)
    requires |row| == c && forall j :: 0 <= j < c ==> row[j] == FreshTile(mines, Cell(r, j))
    requires t == FreshTile(mines, Cell(r, c))
    ensures forall j :: 0 <= j < c + 1 ==> (row + [t])[j] == FreshTile(mines, Cell(r, j))
  {
    forall j | 0 <= j < c + 1 ensures (row + [t])[j] == FreshTile(mines, Cell(r, j)) {
      if j < c {
        assert (row + [t])[j] == row[j];
      }
    }
  }

  /** One row of a fresh board, noting whether it holds a safe zero tile. */
  method BuildRow(mines: seq<Cell>, r: int, cols: int) returns (row: seq<Tile>, hasSafeOpening: bool)
    requires cols >= 0
    ensures |row| == cols
    ensures forall j :: 0 <= j < cols ==> row[j] == FreshTile(mines, Cell(r, j))
    ensures hasSafeOpening == SafeZeroIn(row)
  {
    row := [];
    hasSafeOpening := false;
    for c := 0 to cols
      invariant |row| == c
      invariant forall j :: 0 <= j < c ==> row[j] == FreshTile(mines, Cell(r, j))
      invariant hasSafeOpening == SafeZeroIn(row)
    {
      var isMine := Cell(r, c) in mines;
      var count := 0;
      if !isMine {
        count := CountAround(mines, Cell(r, c));
      }
      var t := Tile(isMine, count, false);
      assert t == FreshTile(mines, Cell(r, c));
      SafeZeroPush(row, t);
      FreshRowStep(row, t, mines, r, c);
      row := row + [t];
      hasSafeOpening := hasSafeOpening || (!isMine && count == 0);
    }
  }

  /** The first `r` rows of `g` are fresh rows of `cols` tiles for `mines`. */
  ghost predicate FreshRows(g: Grid, mines: seq<Cell>, r: int, cols: int)
  {
    WellFormed(g, r, cols) && forall i, j :: 0 <= i < r && 0 <= j < cols ==> g[i][j] == FreshTile(mines, Cell(i, j))
  }

  /** Some row of `g` holds a safe zero tile. */
  ghost predicate SafeZeroRow(g: Grid)
  {
    exists i :: 0 <= i < |g| && SafeZeroIn(g[i])
  }

  /** Appending the fresh row `r` extends a board of fresh rows by one. */
  lemma FreshRowsPush(g: Grid, row: seq<Tile>, mines: seq<Cell>, r: int, cols: int)
    requires FreshRows(g, mines, r, cols) && |row| == cols
    requires forall j :: 0 <= j < cols ==> row[j] == FreshTile(mines, Cell(r, j))
    ensures FreshRows(g + [row], mines, r + 1, cols)
  {
    var g' := g + [row];
    forall i | 0 <= i < |g'|
      ensures |g'[i]| == cols
    {
      if i < r { assert g'[i] == g[i]; } else { assert g'[i] == row; }
    }
    forall i, j | 0 <= i < r + 1 && 0 <= j < cols
      ensures g'[i][j] == FreshTile(mines, Cell(i, j))
    {
      if i < r { assert g'[i] == g[i]; } else { assert g'[i] == row; }
    }
  }

  /** Appending a row adds a safe zero exactly when the row holds one. */
  lemma SafeZeroRowPush(g: Grid, row: seq<Tile>)
    ensures SafeZeroRow(g + [row]) <==> SafeZeroRow(g) || SafeZeroIn(row)
  {
    var g' := g + [row];
    if SafeZeroRow(g') {
      var i :| 0 <= i < |g'| && SafeZeroIn(g'[i]);
      if i < |g| {
        assert g'[i] == g[i];
      } else {
        assert g'[i] == row;
      }
    }
    if SafeZeroRow(g) {
      var i :| 0 <= i < |g| && SafeZeroIn(g[i]);
      assert g'[i] == g[i];
    }
    if SafeZeroIn(row) {
      assert g'[|g|] == row;
    }
  }

  /** A board of fresh rows is the board the mine list describes. */
  lemma FreshBoard(g: Grid, mines: seq<Cell>, rows: int, cols: int)
    requires FreshRows(g, mines, rows, cols)
    ensures forall x :: InGrid(x, rows, cols) ==> At(g, x) == FreshTile(mines, x)
    ensures Agrees(g, rows, cols, mines) && CountsMatch(g, rows, cols, mines) && AllClosed(g, rows, cols)
  {
    assert forall x :: InGrid(x, rows, cols) ==> At(g, x) == g[x.r][x.c];
  }

  /** A safe zero tile lies in some row exactly when the board has one. */
  lemma SafeZeroBoard(g: Grid, rows: int, cols: int)
    requires WellFormed(g, rows, cols)
    ensures SafeZeroRow(g) <==> HasSafeOpening(g, rows, cols)
  {
    if SafeZeroRow(g) {
      var i :| 0 <= i < |g| && SafeZeroIn(g[i]);
      var j :| 0 <= j < |g[i]| && !g[i][j].isMine && g[i][j].count == 0;
      assert At(g, Cell(i, j)) == g[i][j];
    }
    if HasSafeOpening(g, rows, cols) {
      var x :| InGrid(x, rows, cols) && !At(g, x).isMine && At(g, x).count == 0;
      assert SafeZeroIn(g[x.r]);
    }
  }

  /** The fresh board for `mines` would have a safe tile with count 0. */
  ghost predicate FreshOpening(mines: seq<Cell>, rows: int, cols: int)
  {
    exists x :: InGrid(x, rows, cols) && !FreshTile(mines, x).isMine && FreshTile(mines, x).count == 0
  }

  /** `g` is, tile by tile, the fresh board for `mines`. */
  ghost predicate Fresh(g: Grid, mines: seq<Cell>, rows: int, cols: int)
    requires WellFormed(g, rows, cols)
  {
    forall x :: InGrid(x, rows, cols) ==> At(g, x) == FreshTile(mines, x)
  }

  lemma FreshOpens(g: Grid, mines: seq<Cell>, rows: int, cols: int)
    requires WellFormed(g, rows, cols) && Fresh(g, mines, rows, cols)
    ensures HasSafeOpening(g, rows, cols) <==> FreshOpening(mines, rows, cols)
  {
    if HasSafeOpening(g, rows, cols) {
      var x :| InGrid(x, rows, cols) && !At(g, x).isMine && At(g, x).count == 0;
      assert At(g, x) == FreshTile(mines, x);
    }
    if FreshOpening(mines, rows, cols) {
      var x :| InGrid(x, rows, cols) && !FreshTile(mines, x).isMine && FreshTile(mines, x).count == 0;
      assert At(g, x) == FreshTile(mines, x);
    }
  }

  /** Builds the rows x cols board for a mine list, noting whether some safe
      tile has count 0. */
  method BuildBoard(mines: seq<Cell>, rows: int, cols: int) returns (g: Grid, hasSafeOpening: bool)
    requires rows >= 0 && cols >= 0
    ensures WellFormed(g, rows, cols)
    ensures forall x :: InGrid(x, rows, cols) ==> At(g, x) == FreshTile(mines, x)
    ensures Agrees(g, rows, cols, mines) && CountsMatch(g, rows, cols, mines) && AllClosed(g, rows, cols)
    ensures hasSafeOpening <==> HasSafeOpening(g, rows, cols)
    ensures hasSafeOpening <==> FreshOpening(mines, rows, cols)
  {
    g := [];
    hasSafeOpening := false;
    for r := 0 to rows
      invariant FreshRows(g, mines, r, cols)
      invariant hasSafeOpening == SafeZeroRow(g)
    {
      var row, rowSafe := BuildRow(mines, r, cols);
      FreshRowsPush(g, row, mines, r, cols);
      SafeZeroRowPush(g, row);
      g := g + [row];
      hasSafeOpening := hasSafeOpening || rowSafe;
    }
    FreshBoard(g, mines, rows, cols);
    SafeZeroBoard(g, rows, cols);
    FreshOpens(g, mines, rows, cols);
  }

  /** Which cells of the 3x3 block around `x` the clearing scan has visited
      before offset (i, j). */
  predicate Visited(x: Cell, y: Cell, i: int, j: int)
  {
    Near(x, y) && (y.r - x.r < i || (y.r - x.r == i && y.c - x.c < j))
  }

  /** The board part of the clearing scan's progress: visited in-grid cells
      have lost their mine, all else is as it was. */
  ghost predicate BoardCleared(g0: Grid, g: Grid, rows: int, cols: int, x: Cell, i: int, j: int)
  {
    WellFormed(g0, rows, cols) && WellFormed(g, rows, cols) &&
    forall y :: InGrid(y, rows, cols) ==>
      At(g, y) == if Visited(x, y, i, j) then At(g0, y).(isMine := false) else At(g0, y)
  }

  /** The mine-list part of the clearing scan's progress: entries are only
      lost, entries outside the visited cells are kept, and a distinct list
      keeps no visited in-grid cell. */
  ghost predicate MinesCleared(mines0: seq<Cell>, mines: seq<Cell>, rows: int, cols: int, x: Cell, i: int, j: int)
  {
    multiset(mines) <= multiset(mines0) &&
    (forall y :: y in mines0 && !(InGrid(y, rows, cols) && Visited(x, y, i, j)) ==> y in mines) &&
    (Distinct(mines0) ==> Distinct(mines) && forall y :: y in mines ==> !(InGrid(y, rows, cols) && Visited(x, y, i, j)))
  }

  lemma VisitedStep(x: Cell, i: int, j: int)
    requires -1 <= i <= 1 && -1 <= j <= 1
    ensures forall z :: Visited(x, z, i, j + 1) <==> Visited(x, z, i, j) || z == Cell(x.r + i, x.c + j)
  {
    forall z ensures Visited(x, z, i, j + 1) <==> Visited(x, z, i, j) || z == Cell(x.r + i, x.c + j) {
      assert z == Cell(z.r, z.c);
    }
  }

  /** Dropping the entry for the in-grid cell `y` advances the mine-list
      part of the scan past `y`. */
  lemma MinesClearedRemove(mines0: seq<Cell>, mines: seq<Cell>, rows: int, cols: int, x: Cell, i: int, j: int, k: int)
    requires -1 <= i <= 1 && -1 <= j <= 1
    requires MinesCleared(mines0, mines, rows, cols, x, i, j)
    requires 0 <= k < |mines| && mines[k] == Cell(x.r + i, x.c + j) && InGrid(mines[k], rows, cols)
    ensures MinesCleared(mines0, mines[..k] + mines[k + 1..], rows, cols, x, i, j + 1)
  {
    var y, mines' := mines[k], mines[..k] + mines[k + 1..];
    VisitedStep(x, i, j);
    RemoveAt(mines, k);
    assert multiset(mines') <= multiset(mines);
    forall z | z in mines0 && !(InGrid(z, rows, cols) && Visited(x, z, i, j + 1)) ensures z in mines' {
      assert z in mines && z != y;
    }
    if Distinct(mines0) {
      forall z | z in mines' ensures !(InGrid(z, rows, cols) && Visited(x, z, i, j + 1)) {
        assert z in mines && z != y;
      }
    }
  }

  /** A cell outside the grid, or one the list does not name, leaves the
      list as it is and still advances the scan. */
  lemma MinesClearedSkip(mines0: seq<Cell>, mines: seq<Cell>, rows: int, cols: int, x: Cell, i: int, j: int)
    requires -1 <= i <= 1 && -1 <= j <= 1
    requires MinesCleared(mines0, mines, rows, cols, x, i, j)
    requires !InGrid(Cell(x.r + i, x.c + j), rows, cols) || Cell(x.r + i, x.c + j) !in mines
    ensures MinesCleared(mines0, mines, rows, cols, x, i, j + 1)
  {
    VisitedStep(x, i, j);
  }

  /** One step of the clearing scan, at offset (i, j) from `x`: drop the
      cell's entry from the mine list and its mine from the board. */
  method ClearCell(g0: Grid, mines0: seq<Cell>, g: Grid, mines: seq<Cell>, rows: int, cols: int, x: Cell, i: int, j: int)
    returns (g': Grid, mines': seq<Cell>)
    requires -1 <= i <= 1 && -1 <= j <= 1
    requires BoardCleared(g0, g, rows, cols, x, i, j) && MinesCleared(mines0, mines, rows, cols, x, i, j)
    ensures BoardCleared(g0, g', rows, cols, x, i, j + 1) && MinesCleared(mines0, mines', rows, cols, x, i, j + 1)
  {
    g', mines' := g, mines;
    var y := Cell(x.r + i, x.c + j);
    VisitedStep(x, i, j);
    if 0 <= y.r && 0 <= y.c && y.r < rows && y.c < cols {
      var k := IndexOf(mines, y);
      if k != -1 {
        MinesClearedRemove(mines0, mines, rows, cols, x, i, j, k);
        mines' := mines[..k] + mines[k + 1..];
      } else {
        MinesClearedSkip(mines0, mines, rows, cols, x, i, j);
      }
      g' := Put(g, y, At(g, y).(isMine := false));
    } else {
      MinesClearedSkip(mines0, mines, rows, cols, x, i, j);
    }
  }

  /** The progress of the recount scan: visited safe tiles carry the count
      of the mine list, everything else is as the clearing left it. */
  ghost predicate Recounted(cleared: Grid, g: Grid, rows: int, cols: int, mines: seq<Cell>, row: int, col: int)
  {
    WellFormed(cleared, rows, cols) && WellFormed(g, rows, cols) &&
    forall y :: InGrid(y, rows, cols) ==>
      At(g, y) == if (y.r < row || (y.r == row && y.c < col)) && !At(cleared, y).isMine
                  then At(cleared, y).(count := OffsetCount(mines, y)) else At(cleared, y)
  }

  /** The clearing scan over the 3x3 block around `x`. */
  method ClearBlock(g0: Grid, mines0: seq<Cell>, rows: int, cols: int, x: Cell) returns (g: Grid, mines: seq<Cell>)
    requires WellFormed(g0, rows, cols)
    ensures BoardCleared(g0, g, rows, cols, x, 2, -1) && MinesCleared(mines0, mines, rows, cols, x, 2, -1)
  {
    g, mines := g0, mines0;
    for i := -1 to 2
      invariant BoardCleared(g0, g, rows, cols, x, i, -1) && MinesCleared(mines0, mines, rows, cols, x, i, -1)
    {
      for j := -1 to 2
        invariant BoardCleared(g0, g, rows, cols, x, i, j) && MinesCleared(mines0, mines, rows, cols, x, i, j)
      {
        g, mines := ClearCell(g0, mines0, g, mines, rows, cols, x, i, j);
      }
      assert forall y :: Visited(x, y, i, 2) <==> Visited(x, y, i + 1, -1);
    }
  }

  /** Recounting the tile at (row, col), when it is safe, advances the scan
      past it. */
  lemma RecountStep(cleared: Grid, g: Grid, rows: int, cols: int, mines: seq<Cell>, row: int, col: int)
    requires Recounted(cleared, g, rows, cols, mines, row, col) && 0 <= row < rows && 0 <= col < cols
    ensures var y := Cell(row, col);
      !At(g, y).isMine ==> Recounted(cleared, Put(g, y, At(g, y).(count := OffsetCount(mines, y))), rows, cols, mines, row, col + 1)
    ensures At(g, Cell(row, col)).isMine ==> Recounted(cleared, g, rows, cols, mines, row, col + 1)
  {
  }

  /** A finished row is the start of the next one. */
  lemma RecountRow(cleared: Grid, g: Grid, rows: int, cols: int, mines: seq<Cell>, row: int)
    requires Recounted(cleared, g, rows, cols, mines, row, cols)
    ensures Recounted(cleared, g, rows, cols, mines, row + 1, 0)
  {
  }

  /** The recount scan: every safe tile gets the count of the mine list. */
  method RecountAll(cleared: Grid, rows: int, cols: int, mines: seq<Cell>) returns (g: Grid)
    requires WellFormed(cleared, rows, cols)
    ensures Recounted(cleared, g, rows, cols, mines, rows, 0)
  {
    g := cleared;
    for row := 0 to rows
      invariant Recounted(cleared, g, rows, cols, mines, row, 0)
    {
      assert |cleared[row]| == cols;
      for col := 0 to cols
        invariant Recounted(cleared, g, rows, cols, mines, row, col)
      {
        var y := Cell(row, col);
        RecountStep(cleared, g, rows, cols, mines, row, col);
        if !At(g, y).isMine {
          var count := CountAround(mines, y);
          g := Put(g, y, At(g, y).(count := count));
        }
      }
      RecountRow(cleared, g, rows, cols, mines, row);
    }
  }

  /** Clears every mine in the 3x3 block around `x` from the board and the
      mine list, then recomputes the count of every safe tile. */
  method ForceSafeOpening(g0: Grid, mines0: seq<Cell>, rows: int, cols: int, x: Cell)
    returns (g: Grid, mines: seq<Cell>)
    requires WellFormed(g0, rows, cols) && InGrid(x, rows, cols)
    ensures WellFormed(g, rows, cols)
    // the block is cleared; nothing else about mines or openness changes
    ensures forall y :: InGrid(y, rows, cols) ==>
      At(g, y).isMine == (At(g0, y).isMine && !Near(x, y)) && At(g, y).isOpen == At(g0, y).isOpen
    ensures forall y :: InGrid(y, rows, cols) && At(g, y).isMine ==> At(g, y).count == At(g0, y).count
    // every safe tile is recounted against the shrunken mine list
    ensures CountsMatch(g, rows, cols, mines)
    // the mine list only loses entries, and keeps all outside the block
    ensures multiset(mines) <= multiset(mines0)
    ensures forall y :: y in mines0 && !(InGrid(y, rows, cols) && Near(x, y)) ==> y in mines
    ensures Distinct(mines0) ==> Distinct(mines) && forall y :: y in mines ==> !(InGrid(y, rows, cols) && Near(x, y))
    ensures Distinct(mines0) && Agrees(g0, rows, cols, mines0) ==> Agrees(g, rows, cols, mines)
    // the chosen cell becomes a zero opening
    ensures !At(g, x).isMine
    ensures Distinct(mines0) && AllInGrid(mines0, rows, cols) ==> At(g, x).count == 0
  {
    var cleared;
    cleared, mines := ClearBlock(g0, mines0, rows, cols, x);
    BlockIsNear(g0, cleared, mines0, mines, rows, cols, x);
    g := RecountAll(cleared, rows, cols, mines);
    if Distinct(mines0) && Agrees(g0, rows, cols, mines0) {
      RecountAgrees(g0, cleared, g, mines0, mines, rows, cols, x);
    }
    if Distinct(mines0) && AllInGrid(mines0, rows, cols) {
      RecountZero(cleared, g, mines0, mines, rows, cols, x);
    }
  }

  /** After the full scan, the visited cells are exactly the block. */
  lemma BlockIsNear(g0: Grid, cleared: Grid, mines0: seq<Cell>, mines: seq<Cell>, rows: int, cols: int, x: Cell)
    requires BoardCleared(g0, cleared, rows, cols, x, 2, -1) && MinesCleared(mines0, mines, rows, cols, x, 2, -1)
    ensures forall y :: InGrid(y, rows, cols) ==>
      At(cleared, y) == if Near(x, y) then At(g0, y).(isMine := false) else At(g0, y)
    ensures multiset(mines) <= multiset(mines0)
    ensures forall y :: y in mines0 && !(InGrid(y, rows, cols) && Near(x, y)) ==> y in mines
    ensures Distinct(mines0) ==> Distinct(mines) && forall y :: y in mines ==> !(InGrid(y, rows, cols) && Near(x, y))
  {
    assert forall y :: Visited(x, y, 2, -1) <==> Near(x, y);
  }

  /** Clearing the block keeps a board in step with its shrunken mine list. */
  lemma RecountAgrees(g0: Grid, cleared: Grid, g: Grid, mines0: seq<Cell>, mines: seq<Cell>, rows: int, cols: int, x: Cell)
    requires WellFormed(g0, rows, cols) && Recounted(cleared, g, rows, cols, mines, rows, 0)
    requires forall y :: InGrid(y, rows, cols) ==> At(cleared, y).isMine == (At(g0, y).isMine && !Near(x, y))
    requires multiset(mines) <= multiset(mines0)
    requires forall y :: y in mines0 && !(InGrid(y, rows, cols) && Near(x, y)) ==> y in mines
    requires forall y :: y in mines ==> !(InGrid(y, rows, cols) && Near(x, y))
    requires Agrees(g0, rows, cols, mines0)
    ensures Agrees(g, rows, cols, mines)
  {
    forall y | InGrid(y, rows, cols) ensures At(g, y).isMine <==> y in mines {
      if y in mines {
        assert y in multiset(mines0);
      }
    }
  }

  /** With no mine left in the block, the chosen cell counts zero. */
  lemma RecountZero(cleared: Grid, g: Grid, mines0: seq<Cell>, mines: seq<Cell>, rows: int, cols: int, x: Cell)
    requires Recounted(cleared, g, rows, cols, mines, rows, 0) && InGrid(x, rows, cols)
    requires !At(cleared, x).isMine
    requires multiset(mines) <= multiset(mines0) && AllInGrid(mines0, rows, cols) && Distinct(mines)
    requires forall y :: y in mines ==> !(InGrid(y, rows, cols) && Near(x, y))
    ensures At(g, x).count == 0
  {
    forall k | 0 <= k < |mines| ensures !Near(x, mines[k]) {
      var y := mines[k];
      assert y in multiset(mines0);
      assert y in mines0;
    }
    OffsetCountIsNearCount(mines, x);
    NearCountZero(mines, x);
  }

  /** A freshly generated board with its mine list, after a forced opening,
      is still a consistent generated board, now with a zero opening at `x`
      and possibly fewer mines. */
  method ForcedOpening(g0: Grid, mines0: seq<Cell>, rows: int, cols: int, x: Cell) returns (g: Grid, mines: seq<Cell>)
    requires WellFormed(g0, rows, cols) && InGrid(x, rows, cols) && AllClosed(g0, rows, cols)
    requires Distinct(mines0) && AllInGrid(mines0, rows, cols) && Agrees(g0, rows, cols, mines0)
    ensures WellFormed(g, rows, cols) && AllClosed(g, rows, cols)
    ensures Distinct(mines) && AllInGrid(mines, rows, cols) && |mines| <= |mines0|
    ensures forall y :: y in mines ==> y in mines0
    // exactly the mines in the in-grid 3x3 block around `x` are cleared
    ensures forall y :: y in mines0 ==> (y in mines <==> !(InGrid(y, rows, cols) && Near(x, y)))
    ensures Agrees(g, rows, cols, mines) && CountsMatch(g, rows, cols, mines)
    ensures !At(g, x).isMine && At(g, x).count == 0
    ensures HasSafeOpening(g, rows, cols)
    // a fresh board stays the fresh board of its shrunken mine list
    ensures Fresh(g0, mines0, rows, cols) ==> Fresh(g, mines, rows, cols)
  {
    g, mines := ForceSafeOpening(g0, mines0, rows, cols, x);
    assert InGrid(x, rows, cols) && !At(g, x).isMine && At(g, x).count == 0;
    assert AllClosed(g, rows, cols);
    SubMultiset(mines, mines0);
    if Fresh(g0, mines0, rows, cols) {
      forall y | InGrid(y, rows, cols) ensures At(g, y) == FreshTile(mines, y) {
        assert At(g0, y) == FreshTile(mines0, y);
      }
    }
  }

  lemma SubMultiset(a: seq<Cell>, b: seq<Cell>)
    requires multiset(a) <= multiset(b)
    ensures |a| <= |b|
    ensures forall y :: y in a ==> y in b
  {
    assert multiset(b) == multiset(a) + (multiset(b) - multiset(a));
    forall y | y in a ensures y in b {
      assert y in multiset(a);
    }
  }

  /** What `startGame`'s loop settles on for `draws`. Attempt `attempt` is
      the first one accepted: without no-guess the very first, with no-guess
      the first whose fresh board has a safe tile with count 0, and its fresh
      board is kept as drawn. When none of the 101 attempts has one
      (`fallback`), the last attempt's board is kept with an opening forced
      at `forced`: of that attempt's mines, exactly those in the in-grid 3x3
      block around `forced` are cleared, and the board is the fresh board of
      the mines left. */
  ghost predicate Outcome(g: Grid, mines: seq<Cell>, attempt: int, fallback: bool, rows: int, cols: int,
                          m: int, noGuess: bool, draws: seq<seq<Cell>>, forced: Cell)
    requires WellFormed(g, rows, cols)
  {
    0 <= attempt < |draws| && attempt <= MaxAttempts &&
    (!noGuess ==> attempt == 0 && !fallback) &&
    (noGuess ==> forall b :: 0 <= b < attempt ==> !FreshOpening(Placed(draws[b], m), rows, cols)) &&
    (!fallback ==>
      mines == Placed(draws[attempt], m) && Fresh(g, mines, rows, cols) &&
      (noGuess ==> FreshOpening(mines, rows, cols))) &&
    (fallback ==>
      attempt == MaxAttempts && !FreshOpening(Placed(draws[attempt], m), rows, cols) &&
      (forall y :: y in mines ==> y in Placed(draws[attempt], m)) &&
      (forall y :: y in Placed(draws[attempt], m) ==> (y in mines <==> !(InGrid(y, rows, cols) && Near(forced, y)))) &&
      Fresh(g, mines, rows, cols) &&
      InGrid(forced, rows, cols) && !At(g, forced).isMine && At(g, forced).count == 0)
  }

  /** The opening is forced only when every one of the 101 attempts lacked
      one, and only under no-guess. */
  lemma FallbackExhausted(g: Grid, mines: seq<Cell>, attempt: int, rows: int, cols: int,
                          m: int, noGuess: bool, draws: seq<seq<Cell>>, forced: Cell)
    requires WellFormed(g, rows, cols) && Outcome(g, mines, attempt, true, rows, cols, m, noGuess, draws, forced)
    ensures noGuess && |draws| > MaxAttempts
    ensures forall b :: 0 <= b <= MaxAttempts ==> !FreshOpening(Placed(draws[b], m), rows, cols)
  {
    assert attempt == MaxAttempts && noGuess;
    forall b | 0 <= b <= MaxAttempts ensures !FreshOpening(Placed(draws[b], m), rows, cols) {
      if b < MaxAttempts {
        assert b < attempt;
      }
    }
  }

  /** Generation is a function of the draws and the forced cell: two
      outcomes for the same inputs take the same attempt and the same board,
      with the same mine list when no opening was forced and the same set of
      mines when one was. */
  lemma OutcomeDetermined(g1: Grid, mines1: seq<Cell>, a1: int, f1: bool, g2: Grid, mines2: seq<Cell>, a2: int, f2: bool,
                          rows: int, cols: int, m: int, noGuess: bool, draws: seq<seq<Cell>>, forced: Cell)
    requires WellFormed(g1, rows, cols) && Outcome(g1, mines1, a1, f1, rows, cols, m, noGuess, draws, forced)
    requires WellFormed(g2, rows, cols) && Outcome(g2, mines2, a2, f2, rows, cols, m, noGuess, draws, forced)
    ensures f1 == f2 && a1 == a2 && g1 == g2
    ensures forall y :: y in mines1 <==> y in mines2
    ensures !f1 ==> mines1 == mines2
  {
    if f1 == f2 {
      assert a1 == a2;
      if f1 {
        var placed := Placed(draws[a1], m);
        forall y ensures y in mines1 <==> y in mines2 {
          if y in mines1 || y in mines2 {
            assert y in placed;
          }
        }
      }
      forall x | InGrid(x, rows, cols) ensures FreshTile(mines1, x) == FreshTile(mines2, x) {
        OffsetCountSame(mines1, mines2, x);
      }
      forall i | 0 <= i < rows ensures g1[i] == g2[i] {
        forall j | 0 <= j < cols ensures g1[i][j] == g2[i][j] {
          assert At(g1, Cell(i, j)) == At(g2, Cell(i, j));
        }
      }
    }
  }

  /** An attempt accepted as drawn settles the outcome. */
  lemma Accepted(g: Grid, mines: seq<Cell>, attempt: int, rows: int, cols: int,
                 m: int, noGuess: bool, draws: seq<seq<Cell>>, forced: Cell)
    requires WellFormed(g, rows, cols) && 0 <= attempt < |draws| && attempt <= MaxAttempts
    requires !noGuess ==> attempt == 0
    requires noGuess ==> forall b :: 0 <= b < attempt ==> !FreshOpening(Placed(draws[b], m), rows, cols)
    requires mines == Placed(draws[attempt], m) && forall x :: InGrid(x, rows, cols) ==> At(g, x) == FreshTile(mines, x)
    requires noGuess ==> FreshOpening(mines, rows, cols)
    ensures Outcome(g, mines, attempt, false, rows, cols, m, noGuess, draws, forced)
  {
  }

  /** The forced opening after the last attempt settles the outcome. */
  lemma Forced(g: Grid, mines: seq<Cell>, mines0: seq<Cell>, rows: int, cols: int,
               m: int, draws: seq<seq<Cell>>, forced: Cell)
    requires WellFormed(g, rows, cols) && MaxAttempts < |draws| && mines0 == Placed(draws[MaxAttempts], m)
    requires forall b :: 0 <= b < MaxAttempts ==> !FreshOpening(Placed(draws[b], m), rows, cols)
    requires !FreshOpening(mines0, rows, cols)
    requires forall y :: y in mines ==> y in mines0
    requires forall y :: y in mines0 ==> (y in mines <==> !(InGrid(y, rows, cols) && Near(forced, y)))
    requires Fresh(g, mines, rows, cols)
    requires InGrid(forced, rows, cols) && !At(g, forced).isMine && At(g, forced).count == 0
    ensures Outcome(g, mines, MaxAttempts, true, rows, cols, m, true, draws, forced)
  {
  }

  /** `startGame`'s generation loop: build a board from the attempt's draws;
      without no-guess accept it; with no-guess accept it once some safe tile
      has count 0, and after the last attempt force an opening at `forced`. */
  method Generate(rows: int, cols: int, m: int, noGuess: bool, draws: seq<seq<Cell>>, forced: Cell)
    returns (g: Grid, mines: seq<Cell>, ghost attempt: nat, ghost fallback: bool)
    requires rows >= 0 && cols >= 0
    requires 0 < |draws| && (noGuess ==> |draws| > MaxAttempts)
    requires forall a :: 0 <= a < |draws| ==> AllInGrid(draws[a], rows, cols) && Spread(draws[a]) >= m
    requires noGuess ==> InGrid(forced, rows, cols)
    ensures WellFormed(g, rows, cols) && AllClosed(g, rows, cols)
    ensures Distinct(mines) && AllInGrid(mines, rows, cols)
    ensures Agrees(g, rows, cols, mines) && CountsMatch(g, rows, cols, mines)
    ensures noGuess ==> HasSafeOpening(g, rows, cols)
    ensures |mines| <= (if m > 0 then m else 0)
    // exactly `m` mines unless the opening had to be forced
    ensures !fallback ==> |mines| == (if m > 0 then m else 0)
    ensures Outcome(g, mines, attempt, fallback, rows, cols, m, noGuess, draws, forced)
  {
    g, mines := [], [];
    attempt, fallback := 0, false;
    var attempts := 0;
    while true
      invariant 0 <= attempts <= MaxAttempts
      invariant !noGuess ==> attempts == 0
      invariant noGuess ==> forall b :: 0 <= b < attempts ==> !FreshOpening(Placed(draws[b], m), rows, cols)
      decreases MaxAttempts - attempts
    {
      mines := PlaceMines(draws[attempts], rows, cols, m);
      var hasSafeOpening;
      g, hasSafeOpening := BuildBoard(mines, rows, cols);
      attempt := attempts;
      attempts := attempts + 1;
      if noGuess && !hasSafeOpening {
        forall b | 0 <= b < attempts ensures !FreshOpening(Placed(draws[b], m), rows, cols) {
          if b == attempt {
            assert Placed(draws[b], m) == mines;
          }
        }
      }
      if noGuess {
        if hasSafeOpening {
          Accepted(g, mines, attempt, rows, cols, m, noGuess, draws, forced);
          break;
        }
        if attempts > MaxAttempts {
          ghost var mines0 := mines;
          g, mines := ForcedOpening(g, mines, rows, cols, forced);
          assert attempt == MaxAttempts;
          Forced(g, mines, mines0, rows, cols, m, draws, forced);
          fallback := true;
          break;
        }
      } else {
        Accepted(g, mines, attempt, rows, cols, m, noGuess, draws, forced);
        break;
      }
    }
  }
}
