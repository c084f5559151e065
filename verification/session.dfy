/** The game session: the state one peer keeps (roster, configuration, board,
    turn, flag markers, mine counter) and the host's and guests' operations on
    it. What a peer sends is appended to its outbox. */
module Session {
  import opened Board
  import opened Generation
  import opened Fill
  import opened Rules
  import opened Chord

  datatype Option<T> = None | Some(value: T)

  /** A preset board size, by name, or the custom size. */
  datatype Size = Preset(key: string) | Custom

  datatype Config = Config(size: Size, mode: Mode, max: int, noGuess: bool)

  /** The messages the peers exchange. */
  datatype Msg =
    | Error(text: string)
    | LobbyUpdate(players: seq<Player>, config: Config)
    | GameStart(board: Grid, turnIndex: int, mines: int, rows: int, cols: int)
    | UpdateGrid(r: int, c: int, tile: Tile)
    | TurnChange(idx: int)
    | Flag(r: int, c: int)
    | GameOver(win: bool, text: string)
    | Notice(text: string)
    | Move(r: int, c: int)

  /** A message and where it goes: to every open connection, to one peer,
      or to the host. */
  datatype Envelope = Broadcast(msg: Msg) | ToPeer(peer: string, msg: Msg) | ToHost(msg: Msg)

  /** Everything of a session that its operations change, as one value. */
  datatype State = State(players: seq<Player>, config: Config, rows: int, cols: int, board: Grid,
                         turnIndex: int, minesLeft: int, gameActive: bool, flagged: set<Cell>,
                         mineCounter: int, outbox: seq<Envelope>)

  predicate HasId(ps: seq<Player>, id: string)
  {
    exists k :: 0 <= k < |ps| && ps[k].id == id
  }

  /** `players.find(p => p.id === id)`: the first entry with that id. */
  function FirstWithId(ps: seq<Player>, id: string): (k: int)
    requires HasId(ps, id)
    ensures 0 <= k < |ps| && ps[k].id == id
    ensures forall l :: 0 <= l < k ==> ps[l].id != id
  {
    if ps[0].id == id then 0
    else
      assert HasId(ps[1..], id) by {
        var k :| 0 <= k < |ps| && ps[k].id == id;
        assert ps[1..][k - 1] == ps[k];
      }
      1 + FirstWithId(ps[1..], id)
  }

  /** The name `checkWin` reports for the player who opened a mine. */
  function VictimName(ps: seq<Player>, id: string): string
  {
    if HasId(ps, id) then ps[FirstWithId(ps, id)].name else ""
  }

  /** The roster with the first player of id `id` marked eliminated. */
  function Eliminate(ps: seq<Player>, id: string): (qs: seq<Player>)
    ensures SameRoster(ps, qs)
    ensures HasId(ps, id) ==> qs[FirstWithId(ps, id)].eliminated
    // everyone else, and everyone when nobody has the id, keeps their entry
    ensures forall k :: 0 <= k < |ps| && (!HasId(ps, id) || k != FirstWithId(ps, id)) ==> qs[k] == ps[k]
  {
    if HasId(ps, id) then
      var k := FirstWithId(ps, id);
      ps[k := ps[k].(eliminated := true)]
    else ps
  }

  /** Two rosters that differ at most in who is eliminated. */
  predicate SameRoster(ps: seq<Player>, qs: seq<Player>)
  {
    |ps| == |qs| && forall k :: 0 <= k < |ps| ==> qs[k].(eliminated := ps[k].eliminated) == ps[k]
  }

  /** `players.filter(p => p.id !== id)`. */
  function Without(ps: seq<Player>, id: string): (qs: seq<Player>)
    ensures |qs| <= |ps|
  {
    if ps == [] then []
    else (if ps[0].id == id then [] else [ps[0]]) + Without(ps[1..], id)
  }

  /** The filter keeps exactly the entries of other ids. */
  lemma {:induction false} WithoutMembers(ps: seq<Player>, id: string)
    ensures forall p :: p in Without(ps, id) <==> p in ps && p.id != id
  {
    if ps != [] {
      WithoutMembers(ps[1..], id);
      assert forall p :: p in ps <==> p == ps[0] || p in ps[1..];
    }
  }

  /** Filtering works piece by piece, so the kept entries stay in order. */
  lemma {:induction false} WithoutJoin(a: seq<Player>, b: seq<Player>, id: string)
    ensures Without(a + b, id) == Without(a, id) + Without(b, id)
  {
    if a == [] {
      assert a + b == b;
    } else {
      var head := if a[0].id == id then [] else [a[0]];
      WithoutJoin(a[1..], b, id);
      assert (a + b)[0] == a[0] && (a + b)[1..] == a[1..] + b;
      assert Without(a + b, id) == head + Without(a[1..] + b, id);
      assert Without(a, id) == head + Without(a[1..], id);
    }
  }

  /** Removing an id nobody has changes nothing. */
  lemma {:induction false} WithoutAbsent(ps: seq<Player>, id: string)
    requires !HasId(ps, id)
    ensures Without(ps, id) == ps
  {
    if ps != [] {
      assert !HasId(ps[1..], id) by {
        forall k | 0 <= k < |ps[1..]| ensures ps[1..][k].id != id {
          assert ps[1..][k] == ps[k + 1];
        }
      }
      WithoutAbsent(ps[1..], id);
    }
  }

  /** The roster with every `eliminated` cleared, as a new game leaves it. */
  function Revived(ps: seq<Player>): (qs: seq<Player>)
    ensures SameRoster(ps, qs)
    ensures forall k :: 0 <= k < |qs| ==> !qs[k].eliminated
  {
    if ps == [] then []
    else [ps[0].(eliminated := false)] + Revived(ps[1..])
  }

  /** After a new game nobody is out: the live players are the whole roster. */
  lemma {:induction false} RevivedLive(ps: seq<Player>)
    ensures Live(Revived(ps)) == Revived(ps)
  {
    if ps != [] {
      var qs := Revived(ps);
      RevivedLive(ps[1..]);
      assert qs[1..] == Revived(ps[1..]);
    }
  }

  /** A flag marker toggled on cell `x`. */
  function Toggle(s: set<Cell>, x: Cell): (t: set<Cell>)
    ensures x in t <==> x !in s
    ensures forall y :: y != x ==> (y in t <==> y in s)
    ensures |t| == if x in s then |s| - 1 else |s| + 1
  {
    if x in s then s - {x} else s + {x}
  }

  /** Toggling twice restores the markers. */
  lemma ToggleTwice(s: set<Cell>, x: Cell)
    ensures Toggle(Toggle(s, x), x) == s
  {
  }

  /** Row-major index `r * cols + c` of an in-grid cell gives back the cell. */
  lemma GridIndex(r: int, c: int, cols: int)
    requires 0 <= c < cols
    ensures (r * cols + c) / cols == r && (r * cols + c) % cols == c
  {
    var x := r * cols + c;
    var q, m := x / cols, x % cols;
    assert cols * (q - r) == c - m;
    MulAwayFromZero(cols, q - r);
  }

  /** A row-major index inside a rows x cols grid names an in-grid cell. */
  lemma IndexCell(idx: int, rows: int, cols: int)
    requires rows >= 0 && cols >= 0 && 0 <= idx < rows * cols
    ensures cols > 0 && InGrid(Cell(idx / cols, idx % cols), rows, cols)
  {
    assert cols != 0;
    var q := idx / cols;
    MulAwayFromZero(cols, q - rows + 1);
  }

  /** The tile a FLAG message at (r, c) marks on a guest: the child at
      row-major index `r * cols + c` of its rows x cols grid, if there is one. */
  function FlagTarget(r: int, c: int, rows: int, cols: int): (o: Option<Cell>)
    requires rows >= 0 && cols >= 0
    ensures o.Some? ==> InGrid(o.value, rows, cols)
  {
    var idx := r * cols + c;
    if 0 <= idx < rows * cols then IndexCell(idx, rows, cols); Some(Cell(idx / cols, idx % cols)) else None
  }

  /** For an in-grid cell, the marker lands on that very cell. */
  lemma FlagTargetExact(r: int, c: int, rows: int, cols: int)
    requires rows >= 0 && cols >= 0 && InGrid(Cell(r, c), rows, cols)
    ensures FlagTarget(r, c, rows, cols) == Some(Cell(r, c))
  {
    GridIndex(r, c, cols);
    MulAwayFromZero(cols, rows - r);
  }

  /** The UPDATE_GRID broadcasts of a list of deltas, in order. */
  function Deltas(changes: seq<Change>): (out: seq<Envelope>)
    ensures |out| == |changes|
  {
    if changes == [] then []
    else
      var ch := changes[|changes| - 1];
      Deltas(changes[..|changes| - 1]) + [Broadcast(UpdateGrid(ch.at.r, ch.at.c, ch.tile))]
  }

  /** `f` is `f0` without the cells of the first `k` deltas. */
  ghost predicate Unflagged(f0: set<Cell>, f: set<Cell>, changes: seq<Change>, k: int)
    requires 0 <= k <= |changes|
  {
    forall y :: y in f <==> y in f0 && !(exists l :: 0 <= l < k && changes[l].at == y)
  }

  lemma UnflagStep(f: set<Cell>, f0: set<Cell>, changes: seq<Change>, k: int)
    requires 0 <= k < |changes| && Unflagged(f0, f, changes, k)
    ensures Unflagged(f0, f - {changes[k].at}, changes, k + 1)
  {
  }

  /** The MOVE requests a guest sends for a list of cells, in order. */
  function MovesTo(cells: seq<Cell>): (out: seq<Envelope>)
    ensures |out| == |cells|
  {
    if cells == [] then []
    else
      var y := cells[|cells| - 1];
      MovesTo(cells[..|cells| - 1]) + [ToHost(Move(y.r, y.c))]
  }

  lemma MovesToPush(cells: seq<Cell>, y: Cell)
    ensures MovesTo(cells + [y]) == MovesTo(cells) + [ToHost(Move(y.r, y.c))]
  {
    assert (cells + [y])[..|cells|] == cells;
  }

  /** The MOVE requests of a guest's chord over `ns`, in order: one per
      closed tile without a flag marker. Nothing else is sent meanwhile, so
      they are appended to the outbox together. */
  method Requests(g: Grid, flagged: set<Cell>, ns: seq<Cell>) returns (moves: seq<Envelope>, ghost submitted: seq<Cell>)
    requires forall k :: 0 <= k < |ns| ==> 0 <= ns[k].r < |g| && 0 <= ns[k].c < |g[ns[k].r]|
    ensures moves == MovesTo(Targets(g, flagged, ns))
    ensures submitted == Targets(g, flagged, ns)
  {
    moves, submitted := [], [];
    for k := 0 to |ns|
      invariant submitted == Targets(g, flagged, ns[..k]) && moves == MovesTo(submitted)
    {
      var n := ns[k];
      assert ns[..k + 1][..k] == ns[..k];
      if !At(g, n).isOpen && n !in flagged {
        moves := moves + [ToHost(Move(n.r, n.c))];
        MovesToPush(submitted, n);
        submitted := submitted + [n];
      }
    }
    assert ns[..|ns|] == ns;
  }

  /** What a move broadcasts after its grid updates: GAME_OVER when the
      verdict ends the game, then TURN_CHANGE when the turn advanced. */
  function Closing(v: Verdict, advanced: bool, idx: int): (out: seq<Envelope>)
    ensures |out| == (if v.Over? then 1 else 0) + (if advanced then 1 else 0)
    // GAME_OVER comes first, TURN_CHANGE last, both to everyone
    ensures v.Over? ==> out[0] == Broadcast(GameOver(v.win, v.msg))
    ensures advanced ==> out[|out| - 1] == Broadcast(TurnChange(idx))
  {
    (if v.Over? then [Broadcast(GameOver(v.win, v.msg))] else []) +
    (if advanced then [Broadcast(TurnChange(idx))] else [])
  }

  /** A peer's replica after one message from the host: the lobby, a new
      board (rebuilt without flag markers), one overwritten tile (an open
      tile loses its marker), the turn, or a flag marker on the tile at the
      message's row-major index; anything else leaves it as it is. */
  function Received(s: State, m: Msg): (s': State)
    requires s.rows >= 0 && s.cols >= 0 && WellFormed(s.board, s.rows, s.cols)
    requires m.UpdateGrid? ==> InGrid(Cell(m.r, m.c), s.rows, s.cols)
    // a guest sends nothing back and never touches `gameActive`
    ensures s'.outbox == s.outbox && s'.gameActive == s.gameActive
    // only LOBBY_UPDATE changes the roster and settings
    ensures !m.LobbyUpdate? ==> s'.players == s.players && s'.config == s.config
    // only GAME_START replaces the board's size and the mine total; the replica stays well formed
    ensures !m.GameStart? ==>
      (s'.rows == s.rows && s'.cols == s.cols && s'.minesLeft == s.minesLeft && WellFormed(s'.board, s'.rows, s'.cols))
    // a new board starts without markers, its counter at the mine total
    ensures m.GameStart? ==> s'.flagged == {} && s'.mineCounter == s'.minesLeft
  {
    match m
    case LobbyUpdate(ps, cfg) => s.(players := ps, config := cfg)
    case GameStart(b, t, n, r, c) =>
      s.(board := b, turnIndex := t, minesLeft := n, rows := r, cols := c, flagged := {}, mineCounter := n)
    case UpdateGrid(r, c, tile) =>
      s.(board := Put(s.board, Cell(r, c), tile),
         flagged := if tile.isOpen then s.flagged - {Cell(r, c)} else s.flagged)
    case TurnChange(idx) => s.(turnIndex := idx)
    case Flag(r, c) =>
      (match FlagTarget(r, c, s.rows, s.cols)
       case None => s
       case Some(y) => s.(flagged := Toggle(s.flagged, y), mineCounter := s.mineCounter + (if y in s.flagged then 1 else -1)))
    case _ => s
  }

  /** A FLAG message toggles one marker: the one on its own tile when that
      is in the grid, the counter moves against it, and the same message
      again undoes it. */
  lemma FlagMessage(s: State, r: int, c: int)
    requires s.rows >= 0 && s.cols >= 0 && WellFormed(s.board, s.rows, s.cols)
    ensures var s' := Received(s, Flag(r, c));
      s'.mineCounter + |s'.flagged| == s.mineCounter + |s.flagged| &&
      Received(s', Flag(r, c)) == s
    ensures InGrid(Cell(r, c), s.rows, s.cols) ==>
      Received(s, Flag(r, c)) == s.(flagged := Toggle(s.flagged, Cell(r, c)),
        mineCounter := s.mineCounter + (if Cell(r, c) in s.flagged then 1 else -1))
  {
    if InGrid(Cell(r, c), s.rows, s.cols) {
      FlagTargetExact(r, c, s.rows, s.cols);
    }
    match FlagTarget(r, c, s.rows, s.cols)
    case None =>
    case Some(y) =>
      var s' := s.(flagged := Toggle(s.flagged, y), mineCounter := s.mineCounter + (if y in s.flagged then 1 else -1));
      assert Received(s, Flag(r, c)) == s';
      ToggleTwice(s.flagged, y);
      assert Received(s', Flag(r, c)) == s;
  }

  /** `startGame`'s board generation for the size `d`, summed up as a dealt
      board and its number of mines. */
  method Deal(d: Dims, noGuess: bool, draws: seq<seq<Cell>>, forced: Cell) returns (g: Grid, count: int)
    requires d.r >= 0 && d.c >= 0
    requires 0 < |draws| && (noGuess ==> |draws| > MaxAttempts) &&
      (forall a :: 0 <= a < |draws| ==> AllInGrid(draws[a], d.r, d.c) && Spread(draws[a]) >= d.m) &&
      (noGuess ==> InGrid(forced, d.r, d.c))
    ensures WellFormed(g, d.r, d.c) && Dealt(g, d.r, d.c, count, d.m, noGuess, draws, forced)
  {
    var mines;
    ghost var attempt, fallback;
    g, mines, attempt, fallback := Generate(d.r, d.c, d.m, noGuess, draws, forced);
    count := |mines|;
  }

  /** A closed, unflagged neighbour of `x` holds a mine. */
  ghost predicate Exposed(g: Grid, flagged: set<Cell>, rows: int, cols: int, x: Cell)
    requires WellFormed(g, rows, cols)
  {
    exists y :: InGrid(y, rows, cols) && Near(x, y) && y != x && !At(g, y).isOpen && y !in flagged && At(g, y).isMine
  }

  /** Moves only open tiles and drop the markers of the tiles they open. */
  ghost predicate Progress(g0: Grid, f0: set<Cell>, g: Grid, f: set<Cell>, rows: int, cols: int)
  {
    SameLayout(g0, g, rows, cols) &&
    forall y :: y in f <==> y in f0 && !NewlyOpened(g0, g, rows, cols, y)
  }

  lemma ProgressTrans(g0: Grid, f0: set<Cell>, g1: Grid, f1: set<Cell>, g2: Grid, f2: set<Cell>, rows: int, cols: int)
    requires Progress(g0, f0, g1, f1, rows, cols) && Progress(g1, f1, g2, f2, rows, cols)
    ensures Progress(g0, f0, g2, f2, rows, cols)
  {
  }

  /** No mine becomes exposed by progress. */
  lemma ExposedShrinks(g0: Grid, f0: set<Cell>, g: Grid, f: set<Cell>, rows: int, cols: int, x: Cell)
    requires Progress(g0, f0, g, f, rows, cols)
    ensures Exposed(g, f, rows, cols, x) ==> Exposed(g0, f0, rows, cols, x)
  {
    if Exposed(g, f, rows, cols, x) {
      var y :| InGrid(y, rows, cols) && Near(x, y) && y != x && !At(g, y).isOpen && y !in f && At(g, y).isMine;
      assert !NewlyOpened(g0, g, rows, cols, y);
    }
  }

  /** Each of the first `k` cells of `ns` is open in `g` or was marked in `f0`. */
  ghost predicate Covered(g: Grid, f0: set<Cell>, ns: seq<Cell>, k: int)
    requires 0 <= k <= |ns|
  {
    forall l :: 0 <= l < k ==> OpenAt(g, ns[l]) || ns[l] in f0
  }

  /** Moves keep the cells covered, so far and with the new cell `ns[k]` open. */
  lemma CoveredKeeps(g1: Grid, f1: set<Cell>, g2: Grid, f2: set<Cell>, rows: int, cols: int, f0: set<Cell>, ns: seq<Cell>, k: int)
    requires 0 <= k < |ns| && Covered(g1, f0, ns, k) && Progress(g1, f1, g2, f2, rows, cols)
    requires InGrid(ns[k], rows, cols) && At(g2, ns[k]).isOpen
    ensures Covered(g2, f0, ns, k + 1)
  {
  }

  /** A cell already open, or still marked (and so marked from the start),
      is covered as it is. */
  lemma CoveredSkip(g0: Grid, f0: set<Cell>, g: Grid, f: set<Cell>, rows: int, cols: int, ns: seq<Cell>, k: int)
    requires 0 <= k < |ns| && Covered(g, f0, ns, k) && Progress(g0, f0, g, f, rows, cols)
    requires InGrid(ns[k], rows, cols) && (At(g, ns[k]).isOpen || ns[k] in f)
    ensures Covered(g, f0, ns, k + 1)
  {
  }

  /** Once all of `ns` is covered, every closed unmarked cell of it is open. */
  lemma CoveredTargets(g0: Grid, f0: set<Cell>, g: Grid, ns: seq<Cell>)
    requires forall k :: 0 <= k < |ns| ==> 0 <= ns[k].r < |g0| && 0 <= ns[k].c < |g0[ns[k].r]|
    requires Covered(g, f0, ns, |ns|)
    ensures forall y :: y in Targets(g0, f0, ns) ==> OpenAt(g, y)
  {
    forall y | y in Targets(g0, f0, ns) ensures OpenAt(g, y) {
      var l :| 0 <= l < |ns| && ns[l] == y;
    }
  }

  lemma PutSame(g: Grid, x: Cell)
    requires 0 <= x.r < |g| && 0 <= x.c < |g[x.r]|
    ensures Put(g, x, At(g, x)) == g
  {
    assert g[x.r][x.c := g[x.r][x.c]] == g[x.r];
  }

  /** Rosters of the same shape chain. */
  lemma SameRosterTrans(ps: seq<Player>, qs: seq<Player>, rs: seq<Player>)
    requires SameRoster(ps, qs) && SameRoster(qs, rs)
    ensures SameRoster(ps, rs)
  {
    forall k | 0 <= k < |ps| ensures rs[k].(eliminated := ps[k].eliminated) == ps[k] {
      assert qs[k].(eliminated := ps[k].eliminated) == ps[k];
      assert rs[k].(eliminated := qs[k].eliminated) == qs[k];
    }
  }

  /** The host's state is in shape for `processMove` on `x`: a well-formed
      board holding `x`, and in turn mode a turn index inside the roster
      whenever `x` is closed. */
  ghost predicate MoveReady(s: State, x: Cell)
  {
    s.rows >= 0 && s.cols >= 0 && WellFormed(s.board, s.rows, s.cols) && InGrid(x, s.rows, s.cols) &&
    (!At(s.board, x).isOpen && s.config.mode == Turn ==> 0 <= s.turnIndex < |s.players|)
  }

  /** `processMove` returns at once: the tile is open, or in turn mode it is
      not `pid`'s turn. */
  predicate Ignored(s: State, x: Cell, pid: string)
    requires MoveReady(s, x)
  {
    At(s.board, x).isOpen || (s.config.mode == Turn && s.players[s.turnIndex].id != pid)
  }

  /** `processMove(x, pid)` takes the host's state `s` to `s'`. When it
      returns at once nothing changes. Otherwise the layout, size, settings
      and counters stay; the tiles it opens lose their markers; a mine opens
      that tile alone, puts the first player with id `pid` out and is
      broadcast; a safe tile is flood filled, one UPDATE_GRID per opened
      tile; then the verdict on the new board may end the game, and a game
      still on in turn mode passes the turn. */
  ghost predicate Moved(s: State, s': State, x: Cell, pid: string)
    requires MoveReady(s, x)
  {
    if Ignored(s, x, pid) then s' == s
    else
      var boom := At(s.board, x).isMine;
      s'.config == s.config && s'.rows == s.rows && s'.cols == s.cols &&
      s'.minesLeft == s.minesLeft && s'.mineCounter == s.mineCounter &&
      Progress(s.board, s.flagged, s'.board, s'.flagged, s.rows, s.cols) &&
      s'.players == (if boom then Eliminate(s.players, pid) else s.players) &&
      var v := Decide(ClosedSafe(s'.board), boom, VictimName(s.players, pid), s.config.mode, s'.players);
      var advanced := s'.gameActive && s.config.mode == Turn;
      s'.gameActive == (s.gameActive && !v.Over?) &&
      s'.turnIndex == (if advanced then NextTurn(s'.players, s.turnIndex) else s.turnIndex) &&
      (boom ==>
        var t := At(s.board, x).(isOpen := true);
        s'.board == Put(s.board, x, t) &&
        s'.outbox == s.outbox + [Broadcast(UpdateGrid(x.r, x.c, t))] + Closing(v, advanced, s'.turnIndex)) &&
      (!boom ==>
        exists changes :: FillSpec(s.board, s'.board, s.rows, s.cols, x, changes) &&
          s'.outbox == s.outbox + Deltas(changes) + Closing(v, advanced, s'.turnIndex))
  }

  /** One step of the host's chord walk at neighbour `n`: `processMove(n, pid)`
      when `n` is closed and without a marker in `s`, nothing otherwise. */
  ghost predicate WalkStep(s: State, s': State, n: Cell, pid: string)
  {
    s.rows >= 0 && s.cols >= 0 && WellFormed(s.board, s.rows, s.cols) && InGrid(n, s.rows, s.cols) &&
    if !At(s.board, n).isOpen && n !in s.flagged then MoveReady(s, n) && Moved(s, s', n, pid)
    else s' == s
  }

  /** `trace` holds the host's states over the first `k` steps of a chord
      walk over `ns`, one step per neighbour. */
  ghost predicate Walked(trace: seq<State>, ns: seq<Cell>, pid: string, k: int)
    requires 0 <= k <= |ns|
  {
    |trace| == k + 1 && forall i :: 0 <= i < k ==> WalkStep(trace[i], trace[i + 1], ns[i], pid)
  }

  lemma WalkedPush(trace: seq<State>, ns: seq<Cell>, pid: string, k: int, s': State)
    requires 0 <= k < |ns| && Walked(trace, ns, pid, k) && WalkStep(trace[k], s', ns[k], pid)
    ensures Walked(trace + [s'], ns, pid, k + 1)
  {
    var t := trace + [s'];
    forall i | 0 <= i < k + 1 ensures WalkStep(t[i], t[i + 1], ns[i], pid) {
      assert t[i] == trace[i];
      if i < k {
        assert t[i + 1] == trace[i + 1];
      }
    }
  }

  /** In turn mode, a chord walk of a host not on turn changes nothing: every
      move it makes returns at once. */
  lemma {:induction false} WalkIdle(trace: seq<State>, ns: seq<Cell>, pid: string)
    requires Walked(trace, ns, pid, |ns|)
    requires trace[0].config.mode == Turn && 0 <= trace[0].turnIndex < |trace[0].players|
    requires trace[0].players[trace[0].turnIndex].id != pid
    ensures trace[|ns|] == trace[0]
  {
    var k := 0;
    while k < |ns|
      invariant 0 <= k <= |ns| && trace[k] == trace[0]
    {
      assert WalkStep(trace[k], trace[k + 1], ns[k], pid);
      k := k + 1;
    }
  }

  /** One peer's session. `isHost`, `myId`, `colors` and `presets` are fixed
      when the peer is set up. */
  class Game {
    const isHost: bool
    const myId: string
    /** The roster colours, handed out in turn. */
    const colors: seq<string>
    /** The preset board sizes by name. */
    const presets: map<string, Dims>

    var players: seq<Player>
    var config: Config
    var rows: int
    var cols: int
    var board: Grid
    var turnIndex: int
    var minesLeft: int
    var gameActive: bool
    /** The tiles showing a flag marker. */
    var flagged: set<Cell>
    /** The mine counter on display. */
    var mineCounter: int
    /** Messages sent so far, oldest first. */
    var outbox: seq<Envelope>

    function Snapshot(): State
      reads this
    {
      State(players, config, rows, cols, board, turnIndex, minesLeft, gameActive, flagged, mineCounter, outbox)
    }

    predicate Valid()
      reads this
    {
      rows >= 0 && cols >= 0 && WellFormed(board, rows, cols) && |colors| > 0 &&
      forall k :: k in presets ==> presets[k].r >= 0 && presets[k].c >= 0
    }

    /** Flag markers sit on closed in-grid tiles only (the host's markers;
        a guest's follow the host's FLAG broadcasts). */
    ghost predicate FlagsClosed()
      reads this
      requires Valid()
    {
      forall y :: y in flagged ==> InGrid(y, rows, cols) && !At(board, y).isOpen
    }

    constructor(isHost: bool, myId: string, colors: seq<string>, presets: map<string, Dims>)
      requires |colors| > 0
      requires forall k :: k in presets ==> presets[k].r >= 0 && presets[k].c >= 0
      ensures Valid()
      ensures this.isHost == isHost && this.myId == myId && this.colors == colors && this.presets == presets
      ensures Snapshot() == State([], Config(Preset("medium"), Turn, 4, false), 0, 0, [], 0, 0, false, {}, 0, [])
    {
      this.isHost := isHost;
      this.myId := myId;
      this.colors := colors;
      this.presets := presets;
      players := [];
      config := Config(Preset("medium"), Turn, 4, false);
      rows, cols, board := 0, 0, [];
      turnIndex, minesLeft, gameActive := 0, 0, false;
      flagged, mineCounter, outbox := {}, 0, [];
    }

    /** The host's answer to an incoming connection: refused with an error
        while the lobby is full or a game is running. */
    method AdmitConnection(peer: string) returns (accepted: bool)
      requires Valid()
      modifies this
      ensures Valid()
      ensures accepted <==> |players| < config.max && !gameActive
      ensures accepted ==> Snapshot() == old(Snapshot())
      ensures !accepted ==> Snapshot() == old(Snapshot()).(outbox := old(outbox) + [ToPeer(peer, Error("Full/Active"))])
    {
      if |players| >= config.max || gameActive {
        outbox := outbox + [ToPeer(peer, Error("Full/Active"))];
        return false;
      }
      return true;
    }

    /** Append one player, coloured by its seat, and publish the lobby. */
    method AddPlayer(id: string, name: string, host: bool)
      requires Valid()
      modifies this
      ensures Valid()
      ensures Snapshot() == old(Snapshot()).(
        players := old(players) + [Player(id, name, colors[|old(players)| % |colors|], host, true, false)],
        outbox := old(outbox) + [Broadcast(LobbyUpdate(players, config))])
    {
      var p := Player(id, name, colors[|players| % |colors|], host, true, false);
      players := players + [p];
      outbox := outbox + [Broadcast(LobbyUpdate(players, config))];
    }

    /** A guest's JOIN: it is added under its peer id with its name cut to
        twelve characters. */
    method Join(peer: string, name: string)
      requires Valid()
      modifies this
      ensures Valid()
      ensures var shown := if |name| <= 12 then name else name[..12];
        Snapshot() == old(Snapshot()).(
          players := old(players) + [Player(peer, shown, colors[|old(players)| % |colors|], false, true, false)],
          outbox := old(outbox) + [Broadcast(LobbyUpdate(players, config))])
    {
      AddPlayer(peer, if |name| <= 12 then name else name[..12], false);
    }

    /** Drop every entry with that id; tell the others, by a notice during a
        game and by a lobby update otherwise. */
    method RemovePlayer(id: string)
      requires Valid()
      modifies this
      ensures Valid()
      ensures Snapshot() == old(Snapshot()).(
        players := Without(old(players), id),
        outbox := old(outbox) + [Broadcast(if gameActive then Notice("Disconnect") else LobbyUpdate(players, config))])
    {
      players := Without(players, id);
      if gameActive {
        outbox := outbox + [Broadcast(Notice("Disconnect"))];
      } else {
        outbox := outbox + [Broadcast(LobbyUpdate(players, config))];
      }
    }

    /** The size a new game gets: the clamped custom inputs or the preset. */
    function Dimensions(rawRows: int, rawCols: int, rawMines: int): (d: Dims)
      reads this
      requires Valid() && (config.size.Preset? ==> config.size.key in presets)
      ensures d.r >= 0 && d.c >= 0
      // a custom board is 5 to 50 each way, with at least 1 mine and 9 safe tiles
      ensures config.size.Custom? ==> 5 <= d.r <= 50 && 5 <= d.c <= 50 && 1 <= d.m <= d.r * d.c - 9
    {
      if config.size.Custom? then CustomDims(rawRows, rawCols, rawMines) else presets[config.size.key]
    }

    /** Deal a new board and start the game: everyone back in, the first
        seat to move, the board published and the grid rebuilt without
        flag markers. `draws` and `forced` stand for the random choices. */
    method StartGame(rawRows: int, rawCols: int, rawMines: int, draws: seq<seq<Cell>>, forced: Cell)
      requires Valid()
      requires config.size.Preset? ==> config.size.key in presets
      requires var d := Dimensions(rawRows, rawCols, rawMines);
        0 < |draws| && (config.noGuess ==> |draws| > MaxAttempts) &&
        (forall a :: 0 <= a < |draws| ==> AllInGrid(draws[a], d.r, d.c) && Spread(draws[a]) >= d.m) &&
        (config.noGuess ==> InGrid(forced, d.r, d.c))
      modifies this
      ensures Valid() && FlagsClosed()
      ensures var d := old(Dimensions(rawRows, rawCols, rawMines));
        rows == d.r && cols == d.c && Dealt(board, rows, cols, minesLeft, d.m, config.noGuess, draws, forced)
      ensures Snapshot() == old(Snapshot()).(
        players := Revived(old(players)), rows := rows, cols := cols, board := board,
        turnIndex := 0, minesLeft := minesLeft, gameActive := true, flagged := {}, mineCounter := minesLeft,
        outbox := old(outbox) + [Broadcast(GameStart(board, 0, minesLeft, rows, cols))])
    {
      var d := Dimensions(rawRows, rawCols, rawMines);
      var g, count := Deal(d, config.noGuess, draws, forced);
      Begin(g, d.r, d.c, count);
    }

    /** Install a dealt board of `count` mines and announce it. */
    method Begin(g: Grid, r: int, c: int, count: int)
      requires r >= 0 && c >= 0 && WellFormed(g, r, c) && |colors| > 0
      requires forall k :: k in presets ==> presets[k].r >= 0 && presets[k].c >= 0
      modifies this
      ensures Valid() && FlagsClosed()
      ensures players == Revived(old(players)) && config == old(config)
      ensures rows == r && cols == c && board == g && turnIndex == 0 && minesLeft == count && gameActive
      ensures flagged == {} && mineCounter == count && outbox == old(outbox) + [Broadcast(GameStart(g, 0, count, r, c))]
    {
      players, rows, cols, board, turnIndex, minesLeft, gameActive, flagged, mineCounter, outbox :=
        Revived(players), r, c, g, 0, count, true, {}, count, outbox + [Broadcast(GameStart(g, 0, count, r, c))];
    }

    /** A rematch is a new game, started by the host only. */
    method StartRematch(rawRows: int, rawCols: int, rawMines: int, draws: seq<seq<Cell>>, forced: Cell)
      requires Valid()
      requires isHost ==> config.size.Preset? ==> config.size.key in presets
      requires isHost ==> var d := Dimensions(rawRows, rawCols, rawMines);
        0 < |draws| && (config.noGuess ==> |draws| > MaxAttempts) &&
        (forall a :: 0 <= a < |draws| ==> AllInGrid(draws[a], d.r, d.c) && Spread(draws[a]) >= d.m) &&
        (config.noGuess ==> InGrid(forced, d.r, d.c))
      modifies this
      ensures Valid()
      ensures !isHost ==> Snapshot() == old(Snapshot())
      ensures isHost ==> FlagsClosed()
      ensures isHost ==> var d := old(Dimensions(rawRows, rawCols, rawMines));
        rows == d.r && cols == d.c && Dealt(board, rows, cols, minesLeft, d.m, config.noGuess, draws, forced)
      ensures isHost ==> Snapshot() == old(Snapshot()).(
        players := Revived(old(players)), rows := rows, cols := cols, board := board,
        turnIndex := 0, minesLeft := minesLeft, gameActive := true, flagged := {}, mineCounter := minesLeft,
        outbox := old(outbox) + [Broadcast(GameStart(board, 0, minesLeft, rows, cols))])
    {
      if isHost {
        StartGame(rawRows, rawCols, rawMines, draws, forced);
      }
    }

    /** UPDATE_GRID on this peer's replica: the tile is overwritten and, once
        open, loses its flag marker. */
    method ApplyUpdate(x: Cell, t: Tile)
      requires Valid() && InGrid(x, rows, cols)
      modifies this
      ensures Valid()
      ensures Snapshot() == Received(old(Snapshot()), UpdateGrid(x.r, x.c, t))
    {
      board := Put(board, x, t);
      if t.isOpen {
        flagged := flagged - {x};
      }
    }

    /** The host's report of a flood fill: each delta applied to its own
        replica and broadcast, in order. */
    method Publish(changes: seq<Change>)
      requires Valid()
      requires forall k :: 0 <= k < |changes| ==>
        InGrid(changes[k].at, rows, cols) && At(board, changes[k].at) == changes[k].tile && changes[k].tile.isOpen
      modifies this
      ensures Valid()
      ensures Snapshot() == old(Snapshot()).(flagged := flagged, outbox := old(outbox) + Deltas(changes))
      ensures forall y :: y in flagged <==> y in old(flagged) && !(exists k :: 0 <= k < |changes| && changes[k].at == y)
    {
      for k := 0 to |changes|
        invariant Valid()
        invariant Snapshot() == old(Snapshot()).(flagged := flagged, outbox := old(outbox) + Deltas(changes[..k]))
        invariant Unflagged(old(flagged), flagged, changes, k)
      {
        var ch := changes[k];
        PutSame(board, ch.at);
        UnflagStep(flagged, old(flagged), changes, k);
        ApplyUpdate(ch.at, ch.tile);
        outbox := outbox + [Broadcast(UpdateGrid(ch.at.r, ch.at.c, ch.tile))];
        assert changes[..k + 1][..k] == changes[..k];
      }
      assert changes[..|changes|] == changes;
    }

    /** `endGameAll`: the game stops and everyone hears the outcome. */
    method EndGameAll(win: bool, text: string)
      requires Valid()
      modifies this
      ensures Valid()
      ensures Snapshot() == old(Snapshot()).(gameActive := false, outbox := old(outbox) + [Broadcast(GameOver(win, text))])
    {
      gameActive := false;
      outbox := outbox + [Broadcast(GameOver(win, text))];
    }

    /** Count the closed safe tiles and end the game when the verdict says so. */
    method CheckWin(boom: bool, victim: string)
      requires Valid()
      modifies this
      ensures Valid()
      ensures var v := Decide(ClosedSafe(board), boom, victim, config.mode, players);
        Snapshot() == old(Snapshot()).(gameActive := old(gameActive) && !v.Over?, outbox := old(outbox) + Closing(v, false, 0))
    {
      var safe := CountClosedSafe(board);
      var v := Decide(safe, boom, victim, config.mode, players);
      if v.Over? {
        EndGameAll(v.win, v.msg);
      }
    }

    /** In turn mode, pass the turn on and announce it. */
    method AdvanceTurn()
      requires Valid()
      requires config.mode == Turn ==> 0 < |players| && 0 <= turnIndex
      modifies this
      ensures Valid() && config == old(config) && players == old(players)
      ensures config.mode != Turn ==> Snapshot() == old(Snapshot())
      ensures config.mode == Turn ==>
        0 <= turnIndex < |players| &&
        Snapshot() == old(Snapshot()).(turnIndex := old(NextTurn(players, turnIndex)), outbox := old(outbox) + [Broadcast(TurnChange(turnIndex))])
    {
      if config.mode != Turn {
        return;
      }
      turnIndex := NextTurnIndex(players, turnIndex);
      outbox := outbox + [Broadcast(TurnChange(turnIndex))];
    }

    /** A move onto a mine: the tile opens here and for everyone, and the
        first player with id `pid` is out. `victim` is that player's name. */
    method Detonate(x: Cell, pid: string) returns (victim: string)
      requires Valid() && InGrid(x, rows, cols) && !At(board, x).isOpen && HasId(players, pid)
      modifies this
      ensures Valid()
      ensures victim == old(VictimName(players, pid))
      ensures Progress(old(board), old(flagged), board, flagged, rows, cols)
      ensures old(FlagsClosed()) ==> FlagsClosed()
      ensures var t := old(At(board, x)).(isOpen := true);
        Snapshot() == old(Snapshot()).(players := Eliminate(old(players), pid), board := Put(old(board), x, t),
          flagged := old(flagged) - {x}, outbox := old(outbox) + [Broadcast(UpdateGrid(x.r, x.c, t))])
    {
      var tile := At(board, x).(isOpen := true);
      victim := players[FirstWithId(players, pid)].name;
      players := Eliminate(players, pid);
      ApplyUpdate(x, tile);
      outbox := outbox + [Broadcast(UpdateGrid(x.r, x.c, tile))];
    }

    /** A move onto a safe tile: the flood fill from `x`, each of its deltas
        applied here and broadcast. */
    method Reveal(x: Cell) returns (ghost changes: seq<Change>)
      requires Valid()
      modifies this
      ensures Valid()
      ensures FillSpec(old(board), board, rows, cols, x, changes)
      ensures Snapshot() == old(Snapshot()).(board := board, flagged := flagged, outbox := old(outbox) + Deltas(changes))
      ensures Progress(old(board), old(flagged), board, flagged, rows, cols)
      ensures old(FlagsClosed()) ==> FlagsClosed()
    {
      var g, chs := FloodFill(board, rows, cols, x);
      board := g;
      Publish(chs);
      changes := chs;
    }

    /** The end of every move that opened something: `checkWin`, then, only
        while the game is still on, `advanceTurn`. */
    method Conclude(boom: bool, victim: string)
      requires Valid()
      requires config.mode == Turn ==> 0 < |players| && 0 <= turnIndex
      modifies this
      ensures Valid()
      ensures old(0 <= turnIndex < |players|) ==> 0 <= turnIndex < |players|
      ensures var v := old(Decide(ClosedSafe(board), boom, victim, config.mode, players));
        var advanced := old(gameActive && config.mode == Turn) && !v.Over?;
        Snapshot() == old(Snapshot()).(gameActive := old(gameActive) && !v.Over?,
          turnIndex := if advanced then old(NextTurn(players, turnIndex)) else old(turnIndex),
          outbox := old(outbox) + Closing(v, advanced, turnIndex))
    {
      CheckWin(boom, victim);
      if gameActive {
        AdvanceTurn();
      }
    }

    /** Player `pid` opens tile `x` (the host's authority over a move). */
    method ProcessMove(x: Cell, pid: string)
      requires Valid() && InGrid(x, rows, cols)
      requires !At(board, x).isOpen && config.mode == Turn ==> 0 <= turnIndex < |players|
      requires !At(board, x).isOpen && At(board, x).isMine && config.mode != Turn ==> HasId(players, pid)
      modifies this
      ensures Valid() && rows == old(rows) && cols == old(cols) && config == old(config)
      ensures minesLeft == old(minesLeft) && mineCounter == old(mineCounter)
      ensures SameRoster(old(players), players)
      // open tiles stay open, mines and counts never change, opened tiles lose their markers
      ensures Progress(old(board), old(flagged), board, flagged, rows, cols)
      ensures old(FlagsClosed()) ==> FlagsClosed()
      ensures old(0 <= turnIndex < |players|) ==> 0 <= turnIndex < |players|
      ensures !old(Ignored(Snapshot(), x, pid)) ==> At(board, x).isOpen
      ensures Moved(old(Snapshot()), Snapshot(), x, pid)
    {
      var tile := At(board, x);
      if tile.isOpen {
        return;
      }
      if config.mode == Turn && players[turnIndex].id != pid {
        return;
      }
      if tile.isMine {
        assert HasId(players, pid) by {
          if config.mode == Turn {
            assert players[turnIndex].id == pid;
          }
        }
        var victim := Detonate(x, pid);
        Conclude(true, victim);
      } else {
        ghost var changes := Reveal(x);
        Conclude(false, "");
        assert FillSpec(old(board), board, rows, cols, x, changes);
      }
    }

    /** The host's move on a chord's neighbour `n` of `x`, a closed tile
        without a flag marker: a move by the host's own id. Outside turn mode
        it opens `n`. */
    method ChordMove(x: Cell, n: Cell)
      requires Valid() && isHost && InGrid(n, rows, cols) && Near(x, n) && n != x
      requires !At(board, n).isOpen && n !in flagged
      requires config.mode == Turn ==> 0 <= turnIndex < |players|
      requires config.mode != Turn && Exposed(board, flagged, rows, cols, x) ==> HasId(players, myId)
      modifies this
      ensures Valid() && rows == old(rows) && cols == old(cols) && config == old(config)
      ensures Progress(old(board), old(flagged), board, flagged, rows, cols)
      ensures config.mode == Turn ==> 0 <= turnIndex < |players|
      ensures config.mode != Turn && Exposed(board, flagged, rows, cols, x) ==> HasId(players, myId)
      ensures config.mode != Turn ==> At(board, n).isOpen
      ensures minesLeft == old(minesLeft) && mineCounter == old(mineCounter) && SameRoster(old(players), players)
      ensures Moved(old(Snapshot()), Snapshot(), n, myId)
    {
      assert config.mode != Turn && At(board, n).isMine ==> Exposed(board, flagged, rows, cols, x);
      ghost var g0, f0, p0 := board, flagged, players;
      ProcessMove(n, myId);
      ExposedShrinks(g0, f0, board, flagged, rows, cols, x);
      if HasId(p0, myId) {
        var k := FirstWithId(p0, myId);
        assert players[k].id == myId;
      }
    }

    /** Chording on the open tile `x`: when the flag markers around it match
        its count (`ready`), every closed unflagged neighbour (`targets`) is
        opened, by the host directly or by a guest's MOVE requests.
        `submitted` lists the neighbours acted on. */
    method AttemptChord(x: Cell) returns (ghost ready: bool, ghost targets: seq<Cell>, ghost submitted: seq<Cell>, ghost trace: seq<State>)
      requires Valid() && InGrid(x, rows, cols)
      requires isHost && config.mode == Turn ==> 0 <= turnIndex < |players|
      requires isHost && config.mode != Turn && Exposed(board, flagged, rows, cols, x) ==> HasId(players, myId)
      modifies this
      ensures ready == old(ChordReady(x)) && targets == old(ChordTargets(x))
      ensures Valid() && rows == old(rows) && cols == old(cols) && config == old(config)
      ensures !ready ==> Snapshot() == old(Snapshot()) && submitted == []
      // never a flagged or an open neighbour
      ensures forall y :: y in submitted ==> y in targets
      ensures !isHost ==> Snapshot() == old(Snapshot()).(outbox := old(outbox) + MovesTo(submitted))
      ensures !isHost && ready ==> submitted == targets
      ensures isHost ==> Progress(old(board), old(flagged), board, flagged, rows, cols)
      ensures isHost ==> minesLeft == old(minesLeft) && mineCounter == old(mineCounter) && SameRoster(old(players), players)
      // the host walks the neighbours in order, a `processMove` by its own id on each one still closed and unmarked
      ensures isHost && ready ==> var ns := Neighbours(x, rows, cols);
        Walked(trace, ns, myId, |ns|) && trace[0] == old(Snapshot()) && trace[|ns|] == Snapshot()
      // in turn mode a host not on turn changes nothing
      ensures isHost && old(config.mode == Turn && players[turnIndex].id != myId) ==> Snapshot() == old(Snapshot())
      // outside turn mode the host opens every closed unflagged neighbour
      ensures isHost && config.mode != Turn && ready ==>
        forall y :: y in targets ==> OpenAt(board, y)
    {
      ready, targets := ChordReady(x), ChordTargets(x);
      var t := At(board, x);
      var flags, ns := ScanNeighbours(x, rows, cols, flagged);
      if flags != t.count {
        return ready, targets, [], [];
      }
      NeighboursMeaning(x, rows, cols);
      submitted, trace := OpenNeighbours(x, ns);
    }

    /** The chord's trigger: the flag markers around `x` match its count. */
    predicate ChordReady(x: Cell)
      reads this
      requires Valid() && InGrid(x, rows, cols)
    {
      FlagCount(Neighbours(x, rows, cols), flagged) == At(board, x).count
    }

    /** The neighbours of `x` a chord acts on: closed and without a marker. */
    function ChordTargets(x: Cell): seq<Cell>
      reads this
      requires Valid() && InGrid(x, rows, cols)
    {
      Targets(board, flagged, Neighbours(x, rows, cols))
    }

    /** The chord's walk over the neighbours `ns` of `x`: each one still
        closed and without a flag marker is opened, by the host directly or
        by a guest's MOVE request. The walk is written once per role, which
        is fixed for a peer. */
    method OpenNeighbours(x: Cell, ns: seq<Cell>) returns (ghost submitted: seq<Cell>, ghost trace: seq<State>)
      requires Valid()
      requires forall k :: 0 <= k < |ns| ==> 0 <= ns[k].r < rows && 0 <= ns[k].c < cols && Near(x, ns[k]) && ns[k] != x
      requires isHost && config.mode == Turn ==> 0 <= turnIndex < |players|
      requires isHost && config.mode != Turn && Exposed(board, flagged, rows, cols, x) ==> HasId(players, myId)
      modifies this
      ensures Valid() && rows == old(rows) && cols == old(cols) && config == old(config)
      ensures forall y :: y in submitted ==> y in old(Targets(board, flagged, ns))
      ensures !isHost ==> submitted == old(Targets(board, flagged, ns))
      ensures !isHost ==> Snapshot() == old(Snapshot()).(outbox := old(outbox) + MovesTo(submitted))
      ensures isHost ==> Progress(old(board), old(flagged), board, flagged, rows, cols)
      ensures isHost ==> minesLeft == old(minesLeft) && mineCounter == old(mineCounter) && SameRoster(old(players), players)
      ensures isHost ==> Walked(trace, ns, myId, |ns|) && trace[0] == old(Snapshot()) && trace[|ns|] == Snapshot()
      ensures isHost && old(config.mode == Turn && players[turnIndex].id != myId) ==> Snapshot() == old(Snapshot())
      ensures isHost && config.mode != Turn ==> forall y :: y in old(Targets(board, flagged, ns)) ==> OpenAt(board, y)
    {
      if isHost {
        submitted, trace := HostWalk(x, ns);
      } else {
        trace := [];
        submitted := GuestWalk(ns);
      }
    }

    /** A guest's walk: one MOVE request to the host per closed, unflagged
        neighbour, in order; nothing else changes. */
    method GuestWalk(ns: seq<Cell>) returns (ghost submitted: seq<Cell>)
      requires Valid()
      requires forall k :: 0 <= k < |ns| ==> 0 <= ns[k].r < rows && 0 <= ns[k].c < cols
      modifies this
      ensures submitted == old(Targets(board, flagged, ns))
      ensures Snapshot() == old(Snapshot()).(outbox := old(outbox) + MovesTo(submitted))
    {
      var moves;
      moves, submitted := Requests(board, flagged, ns);
      outbox := outbox + moves;
    }

    /** The host's walk: a move by its own id on each neighbour that is still
        closed and unflagged when the walk reaches it. Outside turn mode that
        opens every neighbour closed and unflagged at the start. */
    method HostWalk(x: Cell, ns: seq<Cell>) returns (ghost submitted: seq<Cell>, ghost trace: seq<State>)
      requires Valid() && isHost
      requires forall k :: 0 <= k < |ns| ==> 0 <= ns[k].r < rows && 0 <= ns[k].c < cols && Near(x, ns[k]) && ns[k] != x
      requires config.mode == Turn ==> 0 <= turnIndex < |players|
      requires config.mode != Turn && Exposed(board, flagged, rows, cols, x) ==> HasId(players, myId)
      modifies this
      ensures Valid() && rows == old(rows) && cols == old(cols) && config == old(config)
      ensures minesLeft == old(minesLeft) && mineCounter == old(mineCounter) && SameRoster(old(players), players)
      // each neighbour in turn gets a `processMove` by the host when still closed and unmarked
      ensures Walked(trace, ns, myId, |ns|) && trace[0] == old(Snapshot()) && trace[|ns|] == Snapshot()
      ensures forall y :: y in submitted ==> y in old(Targets(board, flagged, ns))
      ensures Progress(old(board), old(flagged), board, flagged, rows, cols)
      ensures old(config.mode == Turn && players[turnIndex].id != myId) ==> Snapshot() == old(Snapshot())
      ensures config.mode != Turn ==> forall y :: y in old(Targets(board, flagged, ns)) ==> OpenAt(board, y)
    {
      ghost var s0 := Snapshot();
      ghost var targets := Targets(board, flagged, ns);
      submitted, trace := [], [s0];
      for k := 0 to |ns|
        invariant Valid() && Along(x, s0, ns, k)
        invariant Walked(trace, ns, myId, k) && trace[0] == s0 && trace[k] == Snapshot()
        invariant forall y :: y in submitted ==> y in targets
      {
        var n := ns[k];
        var moved := WalkAt(x, ns, k, s0);
        WalkedPush(trace, ns, myId, k, Snapshot());
        trace := trace + [Snapshot()];
        if moved {
          submitted := submitted + [n];
        }
      }
      if config.mode != Turn {
        CoveredTargets(s0.board, s0.flagged, board, ns);
      } else if s0.players[s0.turnIndex].id != myId {
        WalkIdle(trace, ns, myId);
      }
    }

    /** What holds of the host's walk from `s0` once it has passed the first
        `k` neighbours in `ns`: only the board, the markers and the roster's
        eliminations moved, by progress; and outside turn mode each of them
        is open or was marked at the start. */
    ghost predicate Along(x: Cell, s0: State, ns: seq<Cell>, k: int)
      reads this
      requires Valid() && 0 <= k <= |ns|
    {
      rows == s0.rows && cols == s0.cols && config == s0.config &&
      minesLeft == s0.minesLeft && mineCounter == s0.mineCounter && SameRoster(s0.players, players) &&
      Progress(s0.board, s0.flagged, board, flagged, rows, cols) &&
      (config.mode == Turn ==> 0 <= turnIndex < |players|) &&
      (config.mode != Turn && Exposed(board, flagged, rows, cols, x) ==> HasId(players, myId)) &&
      (config.mode != Turn ==> Covered(board, s0.flagged, ns, k))
    }

    /** One step of the host's walk, at `ns[k]`: a move on it when it is
        closed and unmarked (`moved`), nothing otherwise. */
    method WalkAt(x: Cell, ns: seq<Cell>, k: int, ghost s0: State) returns (moved: bool)
      requires Valid() && isHost && 0 <= k < |ns|
      requires InGrid(ns[k], rows, cols) && Near(x, ns[k]) && ns[k] != x
      requires Along(x, s0, ns, k)
      modifies this
      ensures Valid() && Along(x, s0, ns, k + 1)
      ensures moved == old(!At(board, ns[k]).isOpen && ns[k] !in flagged)
      ensures WalkStep(old(Snapshot()), Snapshot(), ns[k], myId)
    {
      var n := ns[k];
      moved := !At(board, n).isOpen && n !in flagged;
      if moved {
        ghost var g1, f1, p1 := board, flagged, players;
        ChordMove(x, n);
        ProgressTrans(s0.board, s0.flagged, g1, f1, board, flagged, rows, cols);
        SameRosterTrans(s0.players, p1, players);
        if config.mode != Turn {
          CoveredKeeps(g1, f1, board, flagged, rows, cols, s0.flagged, ns, k);
        }
      } else if config.mode != Turn {
        CoveredSkip(s0.board, s0.flagged, board, flagged, rows, cols, ns, k);
      }
    }

    /** The host toggles a flag marker on a closed tile and tells everyone;
        the counter moves the other way. */
    method ToggleFlag(x: Cell)
      requires Valid() && InGrid(x, rows, cols)
      modifies this
      ensures Valid()
      ensures old(At(board, x).isOpen) || !isHost ==> Snapshot() == old(Snapshot())
      ensures !old(At(board, x).isOpen) && isHost ==>
        Snapshot() == old(Snapshot()).(
          flagged := Toggle(old(flagged), x),
          mineCounter := old(mineCounter) + (if x in old(flagged) then 1 else -1),
          outbox := old(outbox) + [Broadcast(Flag(x.r, x.c))])
      // the counter and the markers always add up to the same total
      ensures mineCounter + |flagged| == old(mineCounter + |flagged|)
      ensures old(FlagsClosed()) ==> FlagsClosed()
    {
      if At(board, x).isOpen || !isHost {
        return;
      }
      mineCounter := mineCounter + (if x in flagged then 1 else -1);
      flagged := Toggle(flagged, x);
      outbox := outbox + [Broadcast(Flag(x.r, x.c))];
    }

    /** A guest's handling of the host's messages. */
    method HandleClientData(m: Msg)
      requires Valid()
      requires m.GameStart? ==> m.rows >= 0 && m.cols >= 0 && WellFormed(m.board, m.rows, m.cols)
      requires m.UpdateGrid? ==> InGrid(Cell(m.r, m.c), rows, cols)
      modifies this
      ensures Valid()
      ensures Snapshot() == Received(old(Snapshot()), m)
    {
      match m
      case LobbyUpdate(ps, cfg) =>
        players, config := ps, cfg;
      case GameStart(b, t, n, r, c) =>
        board, turnIndex, minesLeft, rows, cols := b, t, n, r, c;
        flagged, mineCounter := {}, minesLeft;
      case UpdateGrid(r, c, tile) =>
        ApplyUpdate(Cell(r, c), tile);
      case TurnChange(idx) =>
        turnIndex := idx;
      case Flag(r, c) =>
        ReceiveFlag(r, c);
      case _ =>
    }

    /** A guest's handling of FLAG: the marker named by the row-major
        index moves, and so does the counter. */
    method ReceiveFlag(r: int, c: int)
      requires Valid()
      modifies this
      ensures Valid()
      ensures Snapshot() == Received(old(Snapshot()), Flag(r, c))
    {
      var target := FlagTarget(r, c, rows, cols);
      if target.Some? {
        var y := target.value;
        mineCounter := mineCounter + (if y in flagged then 1 else -1);
        flagged := Toggle(flagged, y);
      }
    }
  }

  /** A dealt board: rows x cols, all closed, with a mine list of `count`
      distinct in-grid cells that the tiles and their counts agree with, and
      the outcome of `startGame`'s loop for `draws`. That is exactly `m`
      mines (at least 0) from the first accepted attempt, unless no-guess
      had to force an opening (`fallback`), which clears exactly the mines in
      the 3x3 block around `forced`. */
  ghost predicate Dealt(g: Grid, rows: int, cols: int, count: int, m: int, noGuess: bool, draws: seq<seq<Cell>>, forced: Cell)
  {
    WellFormed(g, rows, cols) && AllClosed(g, rows, cols) &&
    (noGuess ==> HasSafeOpening(g, rows, cols)) &&
    exists mines, attempt, fallback ::
      Distinct(mines) && AllInGrid(mines, rows, cols) && |mines| == count &&
      Agrees(g, rows, cols, mines) && CountsMatch(g, rows, cols, mines) &&
      count <= (if m > 0 then m else 0) && (!fallback ==> count == (if m > 0 then m else 0)) &&
      Outcome(g, mines, attempt, fallback, rows, cols, m, noGuess, draws, forced)
  }
}
