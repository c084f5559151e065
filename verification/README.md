# Minewars engine, modelled in Dafny

Minewars is a multiplayer Minesweeper played between browser peers. One
peer hosts and owns the authoritative board. Guests keep a replica that the
host's messages update. This project models the game engine of
`js/game.js`. It covers the following:

- The lobby roster: join capacity, joining, leaving and colour assignment.
- Board generation:
  - size clamping;
  - distinct mine placement from a stream of random draws;
  - adjacency counts;
  - the no-guess retry loop, bounded at 101 attempts;
  - the forced 3x3 safe opening.
- A move (`processMove`): detonation or flood fill, then the win/loss
  verdict (`checkWin`), then the turn hand-off (`advanceTurn`).
- Chording (`attemptChord`) and the host's flag markers (`rightClickTile`).
- The guest's message handler (`handleClientData`).

Modules:

- **`Board`** (`board.dfy`): cells, tiles, the grid and the engine's 3x3
  adjacency count. The count is proved equal to a reference count of the
  mine list.
- **`Generation`** (`generation.dfy`): `startGame`'s generation loop and
  `forceSafeOpening`. These are written as loops over values, proved against
  what a dealt board must satisfy: every tile agrees with the mine list, the
  counts match, all tiles are closed, and under no-guess there is a safe
  opening.
- **`Fill`** (`fill.dfy`): the explicit-stack flood fill, proved against a
  specification of the board and deltas it leaves.
- **`Rules`** (`rules.dfy`): the players still in, `checkWin`'s verdict and
  `advanceTurn`'s circular scan. The scan is proved to stop on the next live
  seat, skipping only eliminated ones.
- **`Chord`** (`chord.dfy`): the neighbour scan and flag count of a chord,
  and the neighbours a chord acts on.
- **`Session`** (`session.dfy`): the `Game` class, holding the state of
  one peer. Its fields are the following:
  - the roster and configuration;
  - the board and its size;
  - the turn index, mine total and game-active flag;
  - the flag markers, as an explicit set;
  - the mine counter display;
  - an outbox of the messages the peer sent, in order.

  The host's and guest's operations are methods on the class. Most state
  the whole new state as an update of `Snapshot()`, the record of all the
  fields. A move (`ProcessMove`) is related to its old state by the
  predicate `Moved`. A host's chord is stated as a trace of states, one
  `Moved` step per neighbour still closed and unmarked when reached.
  `Received` is the guest's replica update as a function on states.

Randomness, the size presets and the colour table enter as parameters:

- `draws` holds one finite list of random cells per attempt.
- `forced` is the random cell of a forced opening.
- `presets` and `colors` are the `PRESETS` and `COLORS` tables.

## Model

| member | source | states |
|---|---|---|
| Board.Put | js/game.js:77 | the tile at the cell is replaced, the grid keeps its shape, and every other in-grid tile is unchanged |
| Board.Around | js/game.js:338 | the nine pushed cells are exactly the 3x3 block around the cell |
| Board.OffsetCountIsNearCount | js/game.js:171 | for a list without repeats, the nine-offset count equals the number of mines in the 3x3 block |
| Board.NearCountZero | js/game.js:171 | the count is 0 exactly when no mine lies in the block |
| Board.NearCountBound | js/game.js:171 | a count never exceeds 9, and for a non-mine cell never exceeds 8 |
| Board.OffsetCountExpanded | js/game.js:171 | the count is the sum of the nine per-offset hits, in scan order |
| Board.OffsetCountSame | js/game.js:171 | the count depends only on which cells the mine list names, not on their order or repeats |
| Board.RowClosedZero | js/game.js:344 | a row has no closed safe tile exactly when each tile is a mine or open |
| Board.ClosedSafeZero | js/game.js:344 | the `safe` tally is 0 exactly when every safe tile is open |
| Generation.Clamp | js/game.js:146-148 | `Math.max(lo, Math.min(hi, v))`: within bounds, identity inside, the bound outside, and the lower bound when the bounds cross |
| Generation.OrDefault | js/game.js:141-143 | a zero parse (0 or NaN) takes the default, any other value is kept |
| Generation.CustomDims | js/game.js:139-148 | rows and columns lie in 5..50 and mines in 1..rows*cols-9; in-range inputs are kept |
| Generation.IndexOf | js/game.js:209 | `findIndex`: -1 exactly when absent, else the first matching position |
| Generation.RemoveAt | js/game.js:210 | `splice(k, 1)` removes one occurrence, keeps every other entry, and keeps a list distinct |
| Generation.DistinctCard | js/game.js:159-161 | a list without repeats names as many different cells as it is long |
| Generation.CountAround | js/game.js:171 | the 3x3 loop computes the offset count, which is the block count for a distinct list |
| Generation.PlaceMines | js/game.js:158-162 | the placement of the draws: exactly `m` (or 0) distinct in-grid mines, each one of the draws |
| Generation.PlacedFrom | js/game.js:159-162 | the cells already placed stay placed, in order, as the remaining draws are taken |
| Generation.PlacedStep | js/game.js:160-161 | taking one more draw moves the placement one draw on: a repeat is skipped, a new cell is appended |
| Generation.PlacedDone | js/game.js:159 | once `m` are placed or the draws run out, the placement is final |
| Generation.SafeZeroPush | js/game.js:173 | a row has a safe zero exactly when its prefix has one or the new tile is one |
| Generation.BuildRow | js/game.js:168-174 | each tile is the fresh tile of the mine list; the flag is set exactly when the row has a safe zero |
| Generation.FreshRowsPush | js/game.js:175 | appending a row of fresh tiles keeps the board fresh |
| Generation.FreshBoard | js/game.js:167-176 | a fresh board agrees with the mine list, its counts match, and it is all closed |
| Generation.SafeZeroBoard | js/game.js:164-176 | the row-by-row flag is exactly "some safe tile has count 0" |
| Generation.BuildBoard | js/game.js:163-176 | a rows x cols board of fresh, closed tiles consistent with the mines; `hasSafeOpening` holds exactly when the mine list leaves a safe cell with count 0 |
| Generation.SafeZeroRowPush | js/game.js:173-175 | a board gains a safe zero from an appended row exactly when that row holds one |
| Generation.FreshOpens | js/game.js:173 | a fresh board has a safe zero exactly when the mine list leaves some in-grid safe cell with count 0 |
| Generation.VisitedStep | js/game.js:204-205 | each step of the 3x3 scan adds exactly its own cell to the visited set |
| Generation.MinesClearedRemove | js/game.js:209-210 | removing the found in-grid mine keeps the mine-list progress of the clearing scan |
| Generation.MinesClearedSkip | js/game.js:207-210 | an off-grid or mine-free cell keeps the progress unchanged |
| Generation.ClearCell | js/game.js:206-212 | one offset: the in-grid cell loses its mine on the board and in the list |
| Generation.ClearBlock | js/game.js:204-214 | after the scan, exactly the in-grid block cells have lost their mines |
| Generation.RecountStep | js/game.js:219-226 | a mine tile is skipped; a safe tile gets its recount |
| Generation.RecountRow | js/game.js:217-218 | a finished row carries the recount to the next row |
| Generation.RecountAll | js/game.js:217-228 | every safe tile is recounted against the new mine list; mine tiles are untouched |
| Generation.ForceSafeOpening | js/game.js:198-229 | the 3x3 block is mine-free, everything else keeps its mines and openness, counts match the shrunken list, and the chosen cell counts 0 |
| Generation.BlockIsNear | js/game.js:204-214 | the cells the scan visited are exactly the block around the chosen cell |
| Generation.RecountAgrees | js/game.js:216-228 | the recounted board agrees with the shrunken mine list |
| Generation.RecountZero | js/game.js:216-228 | the chosen cell's recount is 0 |
| Generation.ForcedOpening | js/game.js:182-186 | a dealt board with a forced opening is still dealt and now has a safe opening at the chosen cell. Of the old mines, exactly those in the in-grid 3x3 block around it are cleared, and a fresh board stays the fresh board of the mines left |
| Generation.SubMultiset | js/game.js:210 | removing entries never lengthens the list or adds a cell |
| Generation.Generate | js/game.js:154-190 | the board is closed and consistent with distinct in-grid mines, and under no-guess has a safe opening. It is the first accepted attempt's board with exactly `m` mines. Only after 101 attempts without an opening is it the last attempt's board, minus exactly the mines in the block around `forced`, recounted |
| Generation.FallbackExhausted | js/game.js:180-184 | an opening is forced only under no-guess, and only when none of the 101 attempts had one |
| Generation.OutcomeDetermined | js/game.js:156-189 | generation is a function of the draws and the forced cell: the same attempt and board, the same mine list when unforced and the same mine set when forced |
| Generation.Accepted | js/game.js:180-181 | the first attempt with an opening, or the first attempt without no-guess, is kept as drawn |
| Generation.Forced | js/game.js:182-185 | after the 101st attempt without an opening, the forced board is the outcome: the last attempt's mines minus exactly those in the block around the forced cell, its fresh board, and a safe zero at the forced cell |
| Fill.OpeningShrinks | js/game.js:335-337 | opening a closed safe tile removes one cell from those left to open, so the loop ends |
| Fill.SkipKeeps | js/game.js:333-335 | popping an off-grid, open or mine cell keeps the fill invariant |
| Fill.ReachedGrows | js/game.js:337 | a cell reached stays reached as deltas are added |
| Fill.Opened | js/game.js:337 | opening a tile keeps the grid's shape |
| Fill.OpenLayout | js/game.js:337 | opening the popped cell keeps mines and counts, and the deltas stay exact |
| Fill.OpenFed | js/game.js:337-338 | every delta after the first was reached from an earlier opened zero |
| Fill.OpenPending | js/game.js:338 | every pending stack entry is reached from an opened zero |
| Fill.OpenClosure | js/game.js:338 | every safe neighbour of an opened zero is open or pending |
| Fill.ClosureOld | js/game.js:338 | a pending neighbour of an older zero stays pending |
| Fill.ClosureNew | js/game.js:338 | a zero pushes its whole block |
| Fill.OpenKeeps | js/game.js:337-338 | one opening step keeps the whole fill invariant |
| Fill.FloodFill | js/game.js:329-340 | mines and counts are kept and nothing closes. Each newly opened cell is safe and has exactly one delta. A closed safe start opens first and any other start changes nothing. Expansion runs only through zeros and reaches every safe neighbour of each opened zero |
| Rules.Live | js/game.js:349 | the survivors are exactly the roster's non-eliminated players |
| Rules.LiveEmpty | js/game.js:349-351 | no survivor exactly when everyone is eliminated |
| Rules.LiveSingle | js/game.js:349-350 | a sole survivor is the one survivor listed |
| Rules.TwoLive | js/game.js:349-352 | two non-eliminated players give at least two survivors |
| Rules.LiveTwo | js/game.js:349-352 | at least two survivors means two non-eliminated players |
| Rules.LiveBehind | js/game.js:349-352 | a live head with a live player behind it makes two |
| Rules.TwoStillInTail | js/game.js:349-352 | two players still in behind the head are two still in the whole roster |
| Rules.Decide | js/game.js:343-354 | a cleared board wins in every mode. Otherwise only a detonation ends the game, and never in a race. A co-operative detonation loses |
| Rules.TurnSurvivorWins | js/game.js:350 | in turn mode a detonation leaving one survivor is that survivor's win |
| Rules.TurnDraw | js/game.js:351 | in turn mode a detonation is a draw exactly when everyone is out |
| Rules.TurnGoesOn | js/game.js:348-352 | in turn mode a detonation lets play go on exactly when two are still in |
| Rules.ClearedBoardWins | js/game.js:344-345 | all safe tiles open wins; otherwise without a detonation, or in a race, play goes on |
| Rules.CountClosedSafe | js/game.js:344 | the tally counts closed safe tiles and is 0 exactly when all are open |
| Rules.NextTurnIndex | js/game.js:356-359 | the do-while scan computes the next turn and stays on the roster |
| Rules.Settle | js/game.js:359 | the scan stays on the roster and stops at once on a live seat |
| Rules.NextTurn | js/game.js:356-359 | the next turn is a seat of the roster |
| Rules.StepNext | js/game.js:359 | one more step of `(i + 1) % n` is one more seat around |
| Rules.StepCovers | js/game.js:359 | within `n` steps every seat is visited |
| Rules.SettleMeaning | js/game.js:359 | the scan stops on a live seat or after all seats, having skipped only eliminated ones |
| Rules.NextTurnMeaning | js/game.js:356-359 | with someone still in, the turn passes to the next live seat after the current one, skipping only eliminated seats; with no one in, it comes back to the current seat |
| Chord.RingRow | js/game.js:278-285 | the neighbours collected in one row offset are in the grid |
| Chord.RingUpTo | js/game.js:278-286 | the neighbours collected so far are in the grid |
| Chord.Neighbours | js/game.js:277-286 | every listed neighbour is in the grid |
| Chord.AscendingDistinct | js/game.js:278 | a list in row-major order has no repeats |
| Chord.AscendingJoin | js/game.js:278 | joining ordered row lists in row order keeps the order |
| Chord.KeepShape | js/game.js:279-281 | one offset keeps at most its own in-grid, off-centre cell |
| Chord.RingRowMembers | js/game.js:278-285 | one row offset collects exactly its in-grid, off-centre cells |
| Chord.RingRowOrder | js/game.js:278 | one row offset collects cells in column order |
| Chord.NeighboursByRow | js/game.js:278 | the list is the three row offsets in turn |
| Chord.NeighboursMeaning | js/game.js:278-285 | the list holds exactly the in-grid cells of the block other than the centre, in row-major order, without repeats |
| Chord.FlagCountMeaning | js/game.js:282-283 | the flag tally is the number of marked neighbours |
| Chord.FlagRowCount | js/game.js:282-283 | the per-row tally equals the tally of that row's collected cells |
| Chord.FlagUpToCount | js/game.js:276-286 | the scan's tally equals the tally of the whole list |
| Chord.ScanNeighbours | js/game.js:276-286 | the scan loop returns the neighbour list and its flag tally |
| Chord.RowDone | js/game.js:278 | a finished row offset extends the list and the tally |
| Chord.ScanStep | js/game.js:279-285 | the centre and off-grid offsets change nothing; an in-grid offset is appended and counted if marked |
| Chord.FlagCountJoin | js/game.js:283 | tallies add over joined lists |
| Chord.FlagCountPush | js/game.js:283 | one more cell adds one exactly when it is marked |
| Chord.Targets | js/game.js:290-296 | the cells acted on are exactly the listed neighbours that are closed and unmarked |
| Session.FirstWithId | js/game.js:317 | `find`: the first roster position with that id |
| Session.Eliminate | js/game.js:317-318 | only the first player with the id is marked out; every other entry, and every entry when nobody has the id, is kept; the roster keeps its ids and order |
| Session.Closing | js/game.js:343-364 | after a move: GAME_OVER when the verdict ends the game, then TURN_CHANGE when the turn passes, and nothing else |
| Session.Received | js/game.js:70-87 | a message never sends anything or changes the active flag. Only LOBBY_UPDATE changes the roster and configuration. Only GAME_START changes the size and mine total, and it clears the markers and resets the counter |
| Session.Without | js/game.js:94 | filtering never lengthens the roster |
| Session.WithoutMembers | js/game.js:94 | the filtered roster holds exactly the players with another id |
| Session.WithoutJoin | js/game.js:94 | filtering distributes over joined rosters |
| Session.WithoutAbsent | js/game.js:94 | removing an absent id changes nothing |
| Session.Revived | js/game.js:193 | the same roster with nobody eliminated |
| Session.RevivedLive | js/game.js:193 | after a new game everyone is live |
| Session.Toggle | js/game.js:306 | the marker on the cell flips, other markers stay, and the size moves by one |
| Session.ToggleTwice | js/game.js:306 | flipping twice restores the markers |
| Session.GridIndex | js/game.js:80 | the row-major index `r * cols + c` of an in-grid cell decodes to that cell |
| Session.IndexCell | js/game.js:80 | an index below `rows * cols` decodes to an in-grid cell |
| Session.FlagTarget | js/game.js:80-81 | the child at the row-major index, if there is one, is an in-grid cell |
| Session.FlagTargetExact | js/game.js:80 | an in-grid FLAG message names its own tile |
| Session.Deltas | js/game.js:340 | one UPDATE_GRID broadcast per delta |
| Session.UnflagStep | js/game.js:340 | opening a delta's cell drops exactly its marker |
| Session.CoveredKeeps | js/game.js:290-297 | a neighbour the host just opened is open, and the walk's progress never closes the ones before it |
| Session.CoveredSkip | js/game.js:290-297 | a neighbour skipped because it is open or marked keeps the walk's coverage |
| Session.CoveredTargets | js/game.js:290-297 | once every neighbour is covered, every chord target is open on the board |
| Session.MovesTo | js/game.js:295 | one MOVE request per cell |
| Session.MovesToPush | js/game.js:295 | requests accumulate in order |
| Session.Requests | js/game.js:290-296 | a guest sends MOVE for exactly the closed, unmarked neighbours, in order |
| Session.FlagMessage | js/game.js:79-85 | a FLAG message toggles the marker on its own in-grid tile and moves the counter against it. Counter plus markers is constant, and the same message again undoes it |
| Session.Deal | js/game.js:153-190 | the dealt board and count are what generation settles on for the draws: exactly `m` mines unless an opening was forced, which clears exactly the mines in the block around `forced` |
| Session.ProgressTrans | js/game.js:310-327 | successive moves compose: only opening, markers dropped on opened tiles |
| Session.ExposedShrinks | js/game.js:315-318 | moves never create a new closed unmarked mine next to a cell |
| Session.PutSame | js/game.js:340 | writing back a tile's own value changes nothing |
| Session.SameRosterTrans | js/game.js:317-318 | rosters with the same ids in the same order compose |
| Session.WalkedPush | js/game.js:290-297 | a trace of chord steps extends by the next neighbour's step |
| Session.WalkIdle | js/game.js:312-313 | in turn mode a host's chord walk off turn ends in the state it started from |
| Session.Game.constructor | js/game.js:2-3 | an empty roster, the initial configuration, no board and an empty outbox |
| Session.Game.AdmitConnection | js/game.js:31 | a connection is refused, with an ERROR "Full/Active", exactly when the roster is at capacity or a game is on; the session stays well-formed |
| Session.Game.AddPlayer | js/game.js:93 | the player is appended with the next colour in rotation and the lobby is broadcast |
| Session.Game.Join | js/game.js:60 | a JOIN adds the peer under its name cut to its first 12 characters (Unicode scalar values), unchanged when shorter |
| Session.Game.RemovePlayer | js/game.js:94 | the id leaves the roster; a game in play hears "Disconnect", a lobby the new roster |
| Session.Game.StartGame | js/game.js:137-196 | the board is dealt to the clamped or preset size, as generation settles on it (a forced opening clears exactly its block), and installed. Everyone is revived, turn 0 starts, markers are cleared, the counter is reset and GAME_START is broadcast; nothing else changes |
| Session.Game.Dimensions | js/game.js:139-151 | a custom size is 5 to 50 each way with 1 to rows*cols-9 mines; a preset comes from the table |
| Session.Game.Begin | js/game.js:192-194 | installing a dealt board sets the turn, the mine total, the active flag and a fresh counter, and broadcasts GAME_START |
| Session.Game.StartRematch | js/game.js:375 | a guest changes nothing; the host starts a new game with the same dealt outcome, including the block-only clearing of a forced opening, and the same new state as StartGame |
| Session.Game.ApplyUpdate | js/game.js:77 | the replica update for UPDATE_GRID: the tile is overwritten, and an open tile loses its marker |
| Session.Game.Publish | js/game.js:340 | each delta is applied and broadcast in order, and exactly the markers of the opened cells are dropped |
| Session.Game.EndGameAll | js/game.js:364 | the game stops and GAME_OVER is broadcast; the session stays well-formed |
| Session.Game.CheckWin | js/game.js:343-354 | the verdict on the current board ends the game with GAME_OVER, or changes nothing |
| Session.Game.AdvanceTurn | js/game.js:356-362 | in turn mode the turn moves to the next live seat and TURN_CHANGE is broadcast; otherwise nothing changes |
| Session.Game.Detonate | js/game.js:315-320 | the mine tile opens and loses its marker, the first player with the id is out, and UPDATE_GRID is broadcast |
| Session.Game.Reveal | js/game.js:322-323 | the flood fill's board is installed and its deltas are broadcast |
| Session.Game.Conclude | js/game.js:321-326 | the verdict is applied, and a game still on passes the turn in turn mode |
| Session.Game.ProcessMove | js/game.js:310-327 | an open tile, or another player's turn, is ignored and changes nothing (`Moved`). A mine opens alone, eliminates the mover and broadcasts UPDATE_GRID. A safe tile floods and broadcasts its deltas. Then GAME_OVER if the verdict ends the game, then the turn hand-off. Size, totals and the roster's ids never change, mines and counts never change and opened tiles lose their markers |
| Session.Game.ChordMove | js/game.js:295 | one host chord move is `processMove` by the host's own id (`Moved`); outside turn mode it opens the neighbour; totals and roster ids are kept |
| Session.Game.AttemptChord | js/game.js:273-299 | nothing happens unless the flags match the count. A guest requests exactly the closed unmarked neighbours. A host's walk is a trace of `processMove` steps, one per neighbour still closed and unmarked when reached; off turn it changes nothing; outside turn mode it opens them all |
| Session.Game.OpenNeighbours | js/game.js:289-297 | by role: a guest's requests, or the host's trace of `processMove` steps over the neighbours still closed and unmarked |
| Session.Game.GuestWalk | js/game.js:295 | a guest's walk appends exactly the MOVE requests of the closed unmarked neighbours |
| Session.Game.HostWalk | js/game.js:290-297 | the host's walk is a trace of `processMove` steps, one per neighbour still closed and unmarked when reached; totals and roster ids are kept; off turn nothing changes; outside turn mode every target ends open |
| Session.Game.WalkAt | js/game.js:290-296 | one neighbour of the walk: a `processMove` by the host exactly when it is still closed and unmarked, and the walk's progress is kept |
| Session.Game.ToggleFlag | js/game.js:301-308 | on a closed tile the host flips the marker, moves the counter and broadcasts FLAG. Otherwise nothing changes. Counter plus markers stays constant and markers stay on closed tiles |
| Session.Game.HandleClientData | js/game.js:70-87 | the replica becomes `Received` of the message: lobby, new board without markers, tile update, turn, or flag toggle |
| Session.Game.ReceiveFlag | js/game.js:79-85 | the FLAG case of the replica update |

## Left out

- The DOM, rendering, the lobby UI, `setConfig` and the cursor relay are not part of this model. Nor are the PeerJS connections, the join code and `endGame`'s screen.
- Message delivery is left out: the outbox records what is sent, in order. Closed connections are not modelled.
- `handleHostData` is modelled through its effects only. JOIN is `Join`, MOVE is `ProcessMove` with the sender's id, and REMATCH is `StartRematch`. The host's relay of a guest FLAG is not modelled, because guests cannot place flags.
- `clickTile` is not modelled as a method. Its dispatch to `attemptChord` or `processMove` is the caller's choice here.
- Tiles are values in a `seq<seq<Tile>>`. In the source a tile object in the board is shared with the deltas and messages that carry it. Aliasing between the host's board and sent messages is not captured.
- The flag markers are DOM icons in the source. Here they are an explicit set of cells, and the mine counter display is an integer. `parseInt` of the display is taken to give back the number shown.
- Board size lives in `rows`/`cols` fields rather than in the configuration record. `startGameClient`'s fallback to the preset size when `cols` is 0 is not modelled, because a dealt board never has 0 columns.
- `Math.random` is replaced by parameters. The draws form a finite list per attempt that must name at least `m` different cells, and a no-guess game is given more than 100 lists. The source's unbounded redraw loop is therefore not modelled.
- ProcessMove requires a turn index on the roster in turn mode, and the mover on the roster for a mine outside turn mode. The source crashes otherwise (`players[turnIndex].id`, `p.eliminated` on `undefined`).
- RemovePlayer: a player leaving mid-game can leave the turn index off the roster. The model keeps the index as is and leaves such calls outside ProcessMove's precondition.
- NextTurnMeaning requires `t < |ps|`. The scan itself (NextTurn) is defined for any non-negative `t`.
- Session.Game.Join: names are Dafny strings, sequences of Unicode scalar values, so the cut to 12 characters counts scalar values. The source's `substring(0, 12)` counts UTF-16 code units. A name with characters outside the Basic Multilingual Plane therefore keeps more characters here, and the source may split a surrogate pair that the model cannot represent.
- HandleClientData requires an UPDATE_GRID message to name an in-grid cell. The source would also extend a row for an out-of-range column.
- HandleClientData ignores MSG, ERROR and GAME_OVER, apart from `endGame`'s screen. The source ignores them too. CURSOR is not modelled.
- AttemptChord: a guest's MOVE requests are appended together after the scan, not interleaved with host replies. The host and guest walks are written as two methods, since a peer's role never changes.
- ProcessMove, ToggleFlag, AttemptChord: each requires its cell to be in the grid. The source reads `state.board[r][c]` first and throws a TypeError for a cell off the grid; that error path is not modelled.
- Session.Game.ReceiveFlag and the guest's markers: a guest's markers follow the host's FLAG broadcasts. They are not shown to stay on closed tiles, because a guest cannot check that.
