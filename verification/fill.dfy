/** Flood fill: the explicit-stack expansion that opens a safe cell and,
    through cells of count 0, its connected surroundings. */
module Fill {
  import opened Board

  /** One opened cell as the UPDATE_GRID delta reports it: where, and the tile
      after opening. */
  datatype Change = Change(at: Cell, tile: Tile)

  /** Both boards are rows x cols, mines and counts agree, and no tile open
      in `g0` is closed in `g`. */
  ghost predicate SameLayout(g0: Grid, g: Grid, rows: int, cols: int)
  {
    WellFormed(g0, rows, cols) && WellFormed(g, rows, cols) &&
    forall y :: InGrid(y, rows, cols) ==>
      At(g, y).isMine == At(g0, y).isMine && At(g, y).count == At(g0, y).count &&
      (At(g0, y).isOpen ==> At(g, y).isOpen)
  }

  /** The tile at `y` was closed in `g0` and is open in `g`. */
  ghost predicate NewlyOpened(g0: Grid, g: Grid, rows: int, cols: int, y: Cell)
    requires WellFormed(g0, rows, cols) && WellFormed(g, rows, cols)
  {
    InGrid(y, rows, cols) && !At(g0, y).isOpen && At(g, y).isOpen
  }

  /** Some opened cell of count 0 lies next to `y`, so expansion reached `y`. */
  ghost predicate Reached(changes: seq<Change>, y: Cell)
  {
    exists l :: 0 <= l < |changes| && changes[l].tile.count == 0 && Near(changes[l].at, y)
  }

  /** The k-th opened cell was reached from an earlier opened cell of count 0. */
  ghost predicate FedBy(changes: seq<Change>, k: int)
    requires 0 <= k < |changes|
  {
    exists l :: 0 <= l < k && changes[l].tile.count == 0 && Near(changes[l].at, changes[k].at)
  }

  /** The deltas list each newly opened cell exactly once, with its tile as
      it now is, and nothing else. */
  ghost predicate ChangesExact(g0: Grid, g: Grid, rows: int, cols: int, changes: seq<Change>)
    requires WellFormed(g0, rows, cols) && WellFormed(g, rows, cols)
  {
    (forall k :: 0 <= k < |changes| ==>
      NewlyOpened(g0, g, rows, cols, changes[k].at) && !At(g0, changes[k].at).isMine &&
      changes[k].tile == At(g, changes[k].at)) &&
    (forall k, l :: 0 <= k < l < |changes| ==> changes[k].at != changes[l].at) &&
    (forall y :: NewlyOpened(g0, g, rows, cols, y) ==> exists k :: 0 <= k < |changes| && changes[k].at == y)
  }

  /** The start cell is one the fill opens: in the grid, closed and safe. */
  ghost predicate Openable(g0: Grid, rows: int, cols: int, start: Cell)
    requires WellFormed(g0, rows, cols)
  {
    InGrid(start, rows, cols) && !At(g0, start).isOpen && !At(g0, start).isMine
  }

  /** The loop invariant of the fill, bundled. */
  ghost predicate FillInv(g0: Grid, g: Grid, rows: int, cols: int, start: Cell, changes: seq<Change>, stack: seq<Cell>)
  {
    SameLayout(g0, g, rows, cols) &&
    ChangesExact(g0, g, rows, cols, changes) &&
    // expansion starts at `start` and continues only from cells of count 0
    (|changes| > 0 ==> changes[0].at == start) &&
    (forall k :: 0 < k < |changes| ==> FedBy(changes, k)) &&
    (forall i :: 0 <= i < |stack| ==> (|changes| == 0 && stack[i] == start) || Reached(changes, stack[i])) &&
    // every safe neighbour of an opened zero cell is open or still pending
    (forall k, y :: (0 <= k < |changes| && changes[k].tile.count == 0 && InGrid(y, rows, cols) &&
      Near(changes[k].at, y) && !At(g0, y).isMine) ==> At(g, y).isOpen || y in stack) &&
    // before anything opens, nothing has changed
    (|changes| == 0 ==> g == g0 && (stack == [start] || (stack == [] && !Openable(g0, rows, cols, start))))
  }

  /** The closed safe cells: what is left for the fill to open. */
  function ClosedSafeCells(g: Grid, rows: int, cols: int): set<Cell>
    requires WellFormed(g, rows, cols)
  {
    set r, c | 0 <= r < rows && 0 <= c < cols && !g[r][c].isMine && !g[r][c].isOpen :: Cell(r, c)
  }

  lemma OpeningShrinks(g: Grid, rows: int, cols: int, x: Cell)
    requires WellFormed(g, rows, cols) && InGrid(x, rows, cols) && !At(g, x).isOpen && !At(g, x).isMine
    ensures WellFormed(Put(g, x, At(g, x).(isOpen := true)), rows, cols)
    ensures ClosedSafeCells(Put(g, x, At(g, x).(isOpen := true)), rows, cols) < ClosedSafeCells(g, rows, cols)
  {
    var g' := Put(g, x, At(g, x).(isOpen := true));
    assert x in ClosedSafeCells(g, rows, cols);
    assert x !in ClosedSafeCells(g', rows, cols);
    forall y | y in ClosedSafeCells(g', rows, cols) ensures y in ClosedSafeCells(g, rows, cols) {
      assert At(g', y) == At(g, y);
    }
  }

  /** Popping a cell that is off the grid, open or a mine keeps the invariant. */
  lemma SkipKeeps(g0: Grid, g: Grid, rows: int, cols: int, start: Cell, changes: seq<Change>, stack: seq<Cell>)
    requires stack != [] && FillInv(g0, g, rows, cols, start, changes, stack)
    requires var cur := stack[|stack| - 1];
      !InGrid(cur, rows, cols) || At(g, cur).isOpen || At(g, cur).isMine
    ensures FillInv(g0, g, rows, cols, start, changes, stack[..|stack| - 1])
  {
    var cur, rest := stack[|stack| - 1], stack[..|stack| - 1];
    assert forall i :: 0 <= i < |rest| ==> rest[i] == stack[i];
    forall k, y | 0 <= k < |changes| && changes[k].tile.count == 0 && InGrid(y, rows, cols) &&
      Near(changes[k].at, y) && !At(g0, y).isMine
      ensures At(g, y).isOpen || y in rest
    {
      if !At(g, y).isOpen {
        assert y in stack;
        assert y != cur;
        var i :| 0 <= i < |stack| && stack[i] == y;
        assert rest[i] == y;
      }
    }
  }

  lemma ReachedGrows(changes: seq<Change>, ch: Change, y: Cell)
    requires Reached(changes, y)
    ensures Reached(changes + [ch], y)
  {
    var l :| 0 <= l < |changes| && changes[l].tile.count == 0 && Near(changes[l].at, y);
    assert (changes + [ch])[l] == changes[l];
  }

  /** The precondition of an opening step: the popped cell is in the grid,
      closed and safe. */
  ghost predicate OpenStep(g0: Grid, g: Grid, rows: int, cols: int, start: Cell, changes: seq<Change>, stack: seq<Cell>)
  {
    stack != [] && FillInv(g0, g, rows, cols, start, changes, stack) &&
    InGrid(stack[|stack| - 1], rows, cols) && !At(g, stack[|stack| - 1]).isOpen && !At(g, stack[|stack| - 1]).isMine
  }

  /** The board after an opening step. */
  function Opened(g: Grid, rows: int, cols: int, cur: Cell): (g': Grid)
    requires WellFormed(g, rows, cols) && InGrid(cur, rows, cols)
    ensures WellFormed(g', rows, cols)
  {
    Put(g, cur, At(g, cur).(isOpen := true))
  }

  /** The stack after an opening step: the popped cell is gone and, for a
      count of 0, its block is pushed. */
  function Pushed(rest: seq<Cell>, cur: Cell, t: Tile): seq<Cell>
  {
    if t.count == 0 then rest + Around(cur) else rest
  }

  lemma OpenLayout(g0: Grid, g: Grid, rows: int, cols: int, start: Cell, changes: seq<Change>, stack: seq<Cell>)
    requires OpenStep(g0, g, rows, cols, start, changes, stack)
    ensures var cur := stack[|stack| - 1];
      var g' := Opened(g, rows, cols, cur);
      SameLayout(g0, g', rows, cols) && ChangesExact(g0, g', rows, cols, changes + [Change(cur, At(g', cur))])
  {
    var cur := stack[|stack| - 1];
    var g' := Opened(g, rows, cols, cur);
    var changes' := changes + [Change(cur, At(g', cur))];
    assert forall k :: 0 <= k < |changes| ==> changes'[k] == changes[k];
    forall y | NewlyOpened(g0, g', rows, cols, y)
      ensures exists k :: 0 <= k < |changes'| && changes'[k].at == y
    {
      if y == cur {
        assert changes'[|changes|].at == y;
      } else {
        assert NewlyOpened(g0, g, rows, cols, y);
        var k :| 0 <= k < |changes| && changes[k].at == y;
        assert changes'[k].at == y;
      }
    }
    forall k | 0 <= k < |changes| ensures changes[k].at != cur {
      assert At(g, changes[k].at).isOpen;
    }
  }

  lemma OpenFed(g0: Grid, g: Grid, rows: int, cols: int, start: Cell, changes: seq<Change>, stack: seq<Cell>, t: Tile)
    requires OpenStep(g0, g, rows, cols, start, changes, stack)
    ensures var changes' := changes + [Change(stack[|stack| - 1], t)];
      changes'[0].at == start && forall k :: 0 < k < |changes'| ==> FedBy(changes', k)
  {
    var cur := stack[|stack| - 1];
    var changes' := changes + [Change(cur, t)];
    assert forall k :: 0 <= k < |changes| ==> changes'[k] == changes[k];
    if |changes| == 0 {
      assert cur == start;
    } else {
      assert Reached(changes, cur);
      var l :| 0 <= l < |changes| && changes[l].tile.count == 0 && Near(changes[l].at, cur);
      assert changes'[l] == changes[l];
      assert FedBy(changes', |changes|);
    }
    forall k | 0 < k < |changes'| ensures FedBy(changes', k) {
      if k < |changes| {
        assert FedBy(changes, k);
        var l :| 0 <= l < k && changes[l].tile.count == 0 && Near(changes[l].at, changes[k].at);
        assert changes'[l] == changes[l];
      }
    }
  }

  lemma OpenPending(g0: Grid, g: Grid, rows: int, cols: int, start: Cell, changes: seq<Change>, stack: seq<Cell>, t: Tile)
    requires OpenStep(g0, g, rows, cols, start, changes, stack)
    ensures var cur := stack[|stack| - 1];
      var stack' := Pushed(stack[..|stack| - 1], cur, t);
      forall i :: 0 <= i < |stack'| ==> Reached(changes + [Change(cur, t)], stack'[i])
  {
    var cur, rest := stack[|stack| - 1], stack[..|stack| - 1];
    var ch := Change(cur, t);
    var changes' := changes + [ch];
    var stack' := Pushed(rest, cur, t);
    forall i | 0 <= i < |stack'| ensures Reached(changes', stack'[i]) {
      if i < |rest| {
        assert stack'[i] == rest[i] == stack[i];
        ReachedGrows(changes, ch, rest[i]);
      } else {
        assert changes'[|changes|] == ch;
        assert Near(cur, stack'[i]);
      }
    }
  }

  lemma OpenClosure(g0: Grid, g: Grid, rows: int, cols: int, start: Cell, changes: seq<Change>, stack: seq<Cell>)
    requires OpenStep(g0, g, rows, cols, start, changes, stack)
    ensures var cur := stack[|stack| - 1];
      var g' := Opened(g, rows, cols, cur);
      var changes' := changes + [Change(cur, At(g', cur))];
      var stack' := Pushed(stack[..|stack| - 1], cur, At(g', cur));
      forall k, y :: (0 <= k < |changes'| && changes'[k].tile.count == 0 && InGrid(y, rows, cols) &&
        Near(changes'[k].at, y) && !At(g0, y).isMine) ==> At(g', y).isOpen || y in stack'
  {
    var cur, rest := stack[|stack| - 1], stack[..|stack| - 1];
    var g' := Opened(g, rows, cols, cur);
    var changes' := changes + [Change(cur, At(g', cur))];
    var stack' := Pushed(rest, cur, At(g', cur));
    forall k, y | 0 <= k < |changes'| && changes'[k].tile.count == 0 && InGrid(y, rows, cols) &&
      Near(changes'[k].at, y) && !At(g0, y).isMine
      ensures At(g', y).isOpen || y in stack'
    {
      if y != cur && !At(g', y).isOpen {
        if k < |changes| {
          ClosureOld(g0, g, rows, cols, start, changes, stack, k, y, At(g', cur));
        } else {
          ClosureNew(rest, cur, At(g', cur), y);
        }
      }
    }
  }

  /** A cell pending before the step, other than the popped one, is still pending. */
  lemma ClosureOld(g0: Grid, g: Grid, rows: int, cols: int, start: Cell, changes: seq<Change>, stack: seq<Cell>, k: int, y: Cell, t: Tile)
    requires OpenStep(g0, g, rows, cols, start, changes, stack)
    requires 0 <= k < |changes| && changes[k].tile.count == 0 && InGrid(y, rows, cols)
    requires Near(changes[k].at, y) && !At(g0, y).isMine
    requires y != stack[|stack| - 1] && !At(g, y).isOpen
    ensures y in Pushed(stack[..|stack| - 1], stack[|stack| - 1], t)
  {
    var rest := stack[..|stack| - 1];
    assert y in stack;
    var i :| 0 <= i < |stack| && stack[i] == y;
    assert rest[i] == y;
    assert Pushed(rest, stack[|stack| - 1], t)[i] == y;
  }

  /** A neighbour of a just-opened zero cell is pushed. */
  lemma ClosureNew(rest: seq<Cell>, cur: Cell, t: Tile, y: Cell)
    requires t.count == 0 && Near(cur, y)
    ensures y in Pushed(rest, cur, t)
  {
    assert y in Around(cur);
    var i :| 0 <= i < 9 && Around(cur)[i] == y;
    assert Pushed(rest, cur, t)[|rest| + i] == y;
  }

  /** Opening the popped cell, recording its delta and, for count 0, pushing
      its block keeps the invariant. */
  lemma OpenKeeps(g0: Grid, g: Grid, rows: int, cols: int, start: Cell, changes: seq<Change>, stack: seq<Cell>)
    requires OpenStep(g0, g, rows, cols, start, changes, stack)
    ensures var cur := stack[|stack| - 1];
      var g' := Opened(g, rows, cols, cur);
      FillInv(g0, g', rows, cols, start, changes + [Change(cur, At(g', cur))],
              Pushed(stack[..|stack| - 1], cur, At(g', cur)))
  {
    var cur := stack[|stack| - 1];
    var g' := Opened(g, rows, cols, cur);
    OpenLayout(g0, g, rows, cols, start, changes, stack);
    OpenFed(g0, g, rows, cols, start, changes, stack, At(g', cur));
    OpenPending(g0, g, rows, cols, start, changes, stack, At(g', cur));
    OpenClosure(g0, g, rows, cols, start, changes, stack);
  }

  /** What `floodFill` promises about the board `g` it leaves and the deltas
      `changes` it reports, starting from `g0` at `start`. */
  ghost predicate FillSpec(g0: Grid, g: Grid, rows: int, cols: int, start: Cell, changes: seq<Change>)
  {
    // mines and counts are untouched and no tile closes
    SameLayout(g0, g, rows, cols) &&
    // each newly opened cell is safe and has exactly one delta, and every delta is such a cell
    ChangesExact(g0, g, rows, cols, changes) &&
    (forall y :: NewlyOpened(g0, g, rows, cols, y) ==> !At(g0, y).isMine) &&
    // a closed safe start cell is opened first; any other start changes nothing
    (Openable(g0, rows, cols, start) ==> |changes| > 0 && changes[0].at == start && At(g, start).isOpen) &&
    (!Openable(g0, rows, cols, start) ==> changes == [] && g == g0) &&
    // expansion continues only from cells of count 0 ...
    (forall k :: 0 < k < |changes| ==> FedBy(changes, k)) &&
    // ... and from each of them reaches every safe neighbour
    (forall k, y :: (0 <= k < |changes| && changes[k].tile.count == 0 && InGrid(y, rows, cols) &&
      Near(changes[k].at, y) && !At(g0, y).isMine) ==> At(g, y).isOpen)
  }

  /** `floodFill(r, c)`: pop a cell; skip it if off the grid, open or a mine;
      otherwise open it, record its delta, and if its count is 0 push the
      nine cells of its block. */
  method FloodFill(g0: Grid, rows: int, cols: int, start: Cell) returns (g: Grid, changes: seq<Change>)
    requires WellFormed(g0, rows, cols)
    ensures FillSpec(g0, g, rows, cols, start, changes)
  {
    g, changes := g0, [];
    var stack := [start];
    while stack != []
      invariant FillInv(g0, g, rows, cols, start, changes, stack)
      decreases ClosedSafeCells(g, rows, cols), |stack|
    {
      var cur := stack[|stack| - 1];
      if cur.r < 0 || cur.c < 0 || cur.r >= rows || cur.c >= cols {
        SkipKeeps(g0, g, rows, cols, start, changes, stack);
        stack := stack[..|stack| - 1];
        continue;
      }
      var t := At(g, cur);
      if t.isOpen || t.isMine {
        SkipKeeps(g0, g, rows, cols, start, changes, stack);
        stack := stack[..|stack| - 1];
        continue;
      }
      OpenKeeps(g0, g, rows, cols, start, changes, stack);
      OpeningShrinks(g, rows, cols, cur);
      t := t.(isOpen := true);
      g := Put(g, cur, t);
      changes := changes + [Change(cur, t)];
      stack := stack[..|stack| - 1];
      if t.count == 0 {
        stack := stack + Around(cur);
      }
    }
    assert forall y :: NewlyOpened(g0, g, rows, cols, y) ==> !At(g0, y).isMine by {
      forall y | NewlyOpened(g0, g, rows, cols, y) ensures !At(g0, y).isMine {
        var k :| 0 <= k < |changes| && changes[k].at == y;
      }
    }
  }
}
