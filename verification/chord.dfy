/** Chording support: the in-grid neighbours of a tile in scan order, the
    flags among them, and the neighbours a chord submits as moves. */
module Chord {
  import opened Board

  /** The cell at offset (i, j) from `x`, when it is in the grid and not
      `x` itself. */
  function Keep(x: Cell, i: int, j: int, rows: int, cols: int): seq<Cell>
  {
    var y := Cell(x.r + i, x.c + j);
    if (i == 0 && j == 0) || !InGrid(y, rows, cols) then [] else [y]
  }

  /** Column offsets -1 .. j-1 of row offset `i`. */
  function RingRow(x: Cell, rows: int, cols: int, i: int, j: int): (s: seq<Cell>)
    requires -1 <= j <= 2
    ensures forall k :: 0 <= k < |s| ==> InGrid(s[k], rows, cols)
    decreases j + 1
  {
    if j == -1 then [] else RingRow(x, rows, cols, i, j - 1) + Keep(x, i, j - 1, rows, cols)
  }

  /** Row offsets -1 .. i-1, each with all three column offsets. */
  function RingUpTo(x: Cell, rows: int, cols: int, i: int): (s: seq<Cell>)
    requires -1 <= i <= 2
    ensures forall k :: 0 <= k < |s| ==> InGrid(s[k], rows, cols)
    decreases i + 1
  {
    if i == -1 then [] else RingUpTo(x, rows, cols, i - 1) + RingRow(x, rows, cols, i - 1, BlockEnd())
  }

  /** The in-grid 8-neighbours of `x`, in the engine's scan order. */
  function Neighbours(x: Cell, rows: int, cols: int): (ns: seq<Cell>)
    ensures forall k :: 0 <= k < |ns| ==> InGrid(ns[k], rows, cols)
  {
    RingUpTo(x, rows, cols, BlockEnd())
  }

  /** Strictly increasing in row-major order. */
  predicate Ascending(s: seq<Cell>)
  {
    forall a, b :: 0 <= a < b < |s| ==> s[a].r < s[b].r || (s[a].r == s[b].r && s[a].c < s[b].c)
  }

  lemma AscendingDistinct(s: seq<Cell>)
    requires Ascending(s)
    ensures Distinct(s)
  {
  }

  lemma AscendingJoin(s: seq<Cell>, t: seq<Cell>)
    requires Ascending(s) && Ascending(t)
    requires forall a, b :: 0 <= a < |s| && 0 <= b < |t| ==> s[a].r < t[b].r || (s[a].r == t[b].r && s[a].c < t[b].c)
    ensures Ascending(s + t)
  {
    forall a, b | 0 <= a < b < |s + t|
      ensures (s + t)[a].r < (s + t)[b].r || ((s + t)[a].r == (s + t)[b].r && (s + t)[a].c < (s + t)[b].c)
    {
      if b < |s| {
        assert (s + t)[a] == s[a] && (s + t)[b] == s[b];
      } else if a < |s| {
        assert (s + t)[a] == s[a] && (s + t)[b] == t[b - |s|];
      } else {
        assert (s + t)[a] == t[a - |s|] && (s + t)[b] == t[b - |s|];
      }
    }
  }

  /** The neighbour test the engine applies at offset (i, j). */
  predicate Wanted(x: Cell, y: Cell, rows: int, cols: int)
  {
    InGrid(y, rows, cols) && y != x
  }

  /** What `Keep` holds: the one cell at the offset, if wanted. */
  lemma KeepShape(x: Cell, rows: int, cols: int, i: int, j: int)
    ensures |Keep(x, i, j, rows, cols)| <= 1
    ensures forall y :: y in Keep(x, i, j, rows, cols) <==> y == Cell(x.r + i, x.c + j) && Wanted(x, y, rows, cols)
  {
  }

  /** The cells row offset `i` contributes up to column offset j - 1. */
  predicate InRow(x: Cell, y: Cell, rows: int, cols: int, i: int, j: int)
  {
    y.r == x.r + i && x.c - 1 <= y.c < x.c + j && Wanted(x, y, rows, cols)
  }

  /** The cells row offsets -1 .. i-1 contribute. */
  predicate InRows(x: Cell, y: Cell, rows: int, cols: int, i: int)
  {
    x.r - 1 <= y.r < x.r + i && x.c - 1 <= y.c <= x.c + 1 && Wanted(x, y, rows, cols)
  }

  /** Row offset `i` up to column offset j - 1 holds exactly the wanted
      cells there. */
  lemma {:induction false} RingRowMembers(x: Cell, rows: int, cols: int, i: int, j: int)
    requires -1 <= j <= 2
    ensures forall y :: y in RingRow(x, rows, cols, i, j) <==> InRow(x, y, rows, cols, i, j)
    decreases j + 1
  {
    if j != -1 {
      RingRowMembers(x, rows, cols, i, j - 1);
      var front, last := RingRow(x, rows, cols, i, j - 1), Keep(x, i, j - 1, rows, cols);
      assert RingRow(x, rows, cols, i, j) == front + last;
      KeepShape(x, rows, cols, i, j - 1);
      forall y ensures y in front + last <==> InRow(x, y, rows, cols, i, j) {
        assert y in front + last <==> y in front || y in last;
      }
    }
  }

  /** Row offset `i` up to column offset j - 1 lies in that row, left of
      column offset j, in increasing column order. */
  lemma {:induction false} RingRowOrder(x: Cell, rows: int, cols: int, i: int, j: int)
    requires -1 <= j <= 2
    ensures var s := RingRow(x, rows, cols, i, j);
      Ascending(s) && forall k :: 0 <= k < |s| ==> s[k].r == x.r + i && s[k].c < x.c + j
    decreases j + 1
  {
    if j != -1 {
      RingRowOrder(x, rows, cols, i, j - 1);
      var front, last := RingRow(x, rows, cols, i, j - 1), Keep(x, i, j - 1, rows, cols);
      assert RingRow(x, rows, cols, i, j) == front + last;
      assert forall b :: 0 <= b < |last| ==> last[b] == Cell(x.r + i, x.c + j - 1);
      forall a, b | 0 <= a < |front| && 0 <= b < |last|
        ensures front[a].r == last[b].r && front[a].c < last[b].c
      {
      }
      AscendingJoin(front, last);
    }
  }

  /** The neighbour list is the three row offsets' cells, one row after
      another. */
  lemma NeighboursByRow(x: Cell, rows: int, cols: int)
    ensures Neighbours(x, rows, cols) ==
      RingRow(x, rows, cols, -1, BlockEnd()) + RingRow(x, rows, cols, 0, BlockEnd()) + RingRow(x, rows, cols, 1, BlockEnd())
  {
    assert RingUpTo(x, rows, cols, 0) == RingRow(x, rows, cols, -1, BlockEnd());
  }

  /** The neighbour list holds exactly the in-grid cells of the 3x3 block
      around `x` other than `x`, each once, in row-major order. */
  lemma NeighboursMeaning(x: Cell, rows: int, cols: int)
    ensures forall y :: y in Neighbours(x, rows, cols) <==> InGrid(y, rows, cols) && Near(x, y) && y != x
    ensures Ascending(Neighbours(x, rows, cols)) && Distinct(Neighbours(x, rows, cols))
  {
    var top, mid, bot := RingRow(x, rows, cols, -1, BlockEnd()), RingRow(x, rows, cols, 0, BlockEnd()), RingRow(x, rows, cols, 1, BlockEnd());
    NeighboursByRow(x, rows, cols);
    RingRowMembers(x, rows, cols, -1, BlockEnd());
    RingRowMembers(x, rows, cols, 0, BlockEnd());
    RingRowMembers(x, rows, cols, 1, BlockEnd());
    RingRowOrder(x, rows, cols, -1, BlockEnd());
    RingRowOrder(x, rows, cols, 0, BlockEnd());
    RingRowOrder(x, rows, cols, 1, BlockEnd());
    forall a, b | 0 <= a < |top| && 0 <= b < |mid| ensures top[a].r < mid[b].r {}
    AscendingJoin(top, mid);
    forall a, b | 0 <= a < |top + mid| && 0 <= b < |bot| ensures (top + mid)[a].r < bot[b].r {
      if a < |top| {
        assert (top + mid)[a] == top[a];
      } else {
        assert (top + mid)[a] == mid[a - |top|];
      }
    }
    AscendingJoin(top + mid, bot);
    AscendingDistinct(top + mid + bot);
    forall y ensures y in top + mid + bot <==> InGrid(y, rows, cols) && Near(x, y) && y != x {
      assert y in top + mid + bot <==> y in top || y in mid || y in bot;
    }
  }

  /** How many entries of `ns` are flagged. */
  function FlagCount(ns: seq<Cell>, flagged: set<Cell>): nat
  {
    if ns == [] then 0
    else FlagCount(ns[..|ns| - 1], flagged) + (if ns[|ns| - 1] in flagged then 1 else 0)
  }

  /** For a list without repeats the flag count is the number of flagged
      cells it names. */
  lemma {:induction false} FlagCountMeaning(ns: seq<Cell>, flagged: set<Cell>)
    requires Distinct(ns)
    ensures FlagCount(ns, flagged) == |set y | y in ns && y in flagged|
  {
    if ns != [] {
      var front, last := ns[..|ns| - 1], ns[|ns| - 1];
      assert Distinct(front);
      FlagCountMeaning(front, flagged);
      assert ns == front + [last];
      assert last !in front;
      var before := set y | y in front && y in flagged;
      if last in flagged {
        assert (set y | y in ns && y in flagged) == before + {last};
      } else {
        assert (set y | y in ns && y in flagged) == before;
      }
    }
  }

  /** Flags among column offsets -1 .. j-1 of row offset `i`. */
  function FlagRow(x: Cell, rows: int, cols: int, flagged: set<Cell>, i: int, j: int): nat
    requires -1 <= j <= 2
    decreases j + 1
  {
    if j == -1 then 0
    else FlagRow(x, rows, cols, flagged, i, j - 1) + (if Keep(x, i, j - 1, rows, cols) != [] && Cell(x.r + i, x.c + j - 1) in flagged then 1 else 0)
  }

  /** Flags among row offsets -1 .. i-1. */
  function FlagUpTo(x: Cell, rows: int, cols: int, flagged: set<Cell>, i: int): nat
    requires -1 <= i <= 2
    decreases i + 1
  {
    if i == -1 then 0 else FlagUpTo(x, rows, cols, flagged, i - 1) + FlagRow(x, rows, cols, flagged, i - 1, BlockEnd())
  }

  lemma {:induction false} FlagRowCount(x: Cell, rows: int, cols: int, flagged: set<Cell>, i: int, j: int)
    requires -1 <= j <= 2
    ensures FlagRow(x, rows, cols, flagged, i, j) == FlagCount(RingRow(x, rows, cols, i, j), flagged)
    decreases j + 1
  {
    if j != -1 {
      FlagRowCount(x, rows, cols, flagged, i, j - 1);
      var front, k := RingRow(x, rows, cols, i, j - 1), Keep(x, i, j - 1, rows, cols);
      if k == [] {
        assert front + k == front;
      } else {
        FlagCountPush(front, k[0], flagged);
      }
    }
  }

  /** The count the scan accumulates row by row is the flag count of the
      neighbour list. */
  lemma FlagUpToCount(x: Cell, rows: int, cols: int, flagged: set<Cell>)
    ensures FlagUpTo(x, rows, cols, flagged, BlockEnd()) == FlagCount(Neighbours(x, rows, cols), flagged)
  {
    var top, mid, bot := RingRow(x, rows, cols, -1, BlockEnd()), RingRow(x, rows, cols, 0, BlockEnd()), RingRow(x, rows, cols, 1, BlockEnd());
    NeighboursByRow(x, rows, cols);
    FlagRowCount(x, rows, cols, flagged, -1, BlockEnd());
    FlagRowCount(x, rows, cols, flagged, 0, BlockEnd());
    FlagRowCount(x, rows, cols, flagged, 1, BlockEnd());
    FlagCountJoin(top, mid, flagged);
    FlagCountJoin(top + mid, bot, flagged);
    assert FlagUpTo(x, rows, cols, flagged, 0) == FlagRow(x, rows, cols, flagged, -1, BlockEnd());
  }

  /** `attemptChord`'s scan: walk the 3x3 offsets, skip the centre, keep the
      in-grid cells and count the flagged ones. */
  method ScanNeighbours(x: Cell, rows: int, cols: int, flagged: set<Cell>) returns (flags: nat, ns: seq<Cell>)
    ensures ns == Neighbours(x, rows, cols)
    ensures flags == FlagCount(ns, flagged)
  {
    flags, ns := 0, [];
    for i := -1 to 2
      invariant ns == RingUpTo(x, rows, cols, i)
      invariant flags == FlagUpTo(x, rows, cols, flagged, i)
    {
      ghost var before := ns;
      for j := -1 to 2
        invariant ns == before + RingRow(x, rows, cols, i, j)
        invariant flags == FlagUpTo(x, rows, cols, flagged, i) + FlagRow(x, rows, cols, flagged, i, j)
      {
        ScanStep(x, rows, cols, flagged, i, j, before, ns);
        if i == 0 && j == 0 {
          continue;
        }
        var nr, nc := x.r + i, x.c + j;
        if nr >= 0 && nc >= 0 && nr < rows && nc < cols {
          if Cell(nr, nc) in flagged {
            flags := flags + 1;
          }
          ns := ns + [Cell(nr, nc)];
        }
      }
      RowDone(x, rows, cols, flagged, i);
    }
    FlagUpToCount(x, rows, cols, flagged);
  }

  /** A finished row offset extends both the list and the count. */
  lemma RowDone(x: Cell, rows: int, cols: int, flagged: set<Cell>, i: int)
    requires -1 <= i <= 1
    ensures RingUpTo(x, rows, cols, i + 1) == RingUpTo(x, rows, cols, i) + RingRow(x, rows, cols, i, BlockEnd())
    ensures FlagUpTo(x, rows, cols, flagged, i + 1) == FlagUpTo(x, rows, cols, flagged, i) + FlagRow(x, rows, cols, flagged, i, BlockEnd())
  {
  }

  /** One offset of the scan, in the terms of its branches: the centre and
      off-grid offsets leave the row and its count as they are, an in-grid
      offset appends its cell and counts it when flagged. */
  lemma ScanStep(x: Cell, rows: int, cols: int, flagged: set<Cell>, i: int, j: int, before: seq<Cell>, ns: seq<Cell>)
    requires -1 <= j <= 1 && ns == before + RingRow(x, rows, cols, i, j)
    ensures var y := Cell(x.r + i, x.c + j);
      if (i == 0 && j == 0) || !InGrid(y, rows, cols) then
        ns == before + RingRow(x, rows, cols, i, j + 1) &&
        FlagRow(x, rows, cols, flagged, i, j + 1) == FlagRow(x, rows, cols, flagged, i, j)
      else
        ns + [y] == before + RingRow(x, rows, cols, i, j + 1) &&
        FlagRow(x, rows, cols, flagged, i, j + 1) == FlagRow(x, rows, cols, flagged, i, j) + (if y in flagged then 1 else 0)
  {
    var k := Keep(x, i, j, rows, cols);
    assert RingRow(x, rows, cols, i, j + 1) == RingRow(x, rows, cols, i, j) + k;
    assert FlagRow(x, rows, cols, flagged, i, j + 1) ==
      FlagRow(x, rows, cols, flagged, i, j) + (if k != [] && Cell(x.r + i, x.c + j) in flagged then 1 else 0);
    if k == [] {
      assert ns + k == ns;
    }
  }

  lemma {:induction false} FlagCountJoin(a: seq<Cell>, b: seq<Cell>, flagged: set<Cell>)
    ensures FlagCount(a + b, flagged) == FlagCount(a, flagged) + FlagCount(b, flagged)
    decreases |b|
  {
    if b != [] {
      var front := b[..|b| - 1];
      FlagCountJoin(a, front, flagged);
      assert (a + b)[..|a + b| - 1] == a + front;
    } else {
      assert a + b == a;
    }
  }

  lemma FlagCountPush(ns: seq<Cell>, y: Cell, flagged: set<Cell>)
    ensures FlagCount(ns + [y], flagged) == FlagCount(ns, flagged) + (if y in flagged then 1 else 0)
  {
    assert (ns + [y])[..|ns|] == ns;
  }

  /** The neighbours that are closed and unflagged on board `g`: what a
      chord submits when the board does not change in between. Built from
      the end, as a left-to-right walk over `ns` extends it. */
  function Targets(g: Grid, flagged: set<Cell>, ns: seq<Cell>): (ts: seq<Cell>)
    requires forall k :: 0 <= k < |ns| ==> 0 <= ns[k].r < |g| && 0 <= ns[k].c < |g[ns[k].r]|
    ensures |ts| <= |ns|
    ensures forall y :: y in ts <==> y in ns && !At(g, y).isOpen && y !in flagged
  {
    if ns == [] then []
    else
      var y := ns[|ns| - 1];
      Targets(g, flagged, ns[..|ns| - 1]) + (if !At(g, y).isOpen && y !in flagged then [y] else [])
  }
}
