/** Players, the end-of-move verdict of each mode, and the circular turn
    scan that skips eliminated players. */
module Rules {
  import opened Board

  datatype Mode = Turn | Race | Coop

  /** A roster entry. `color` is assigned on joining; `eliminated` is set
      when the player opens a mine. */
  datatype Player = Player(id: string, name: string, color: string, host: bool, ready: bool, eliminated: bool)

  /** What a finished move leads to: play goes on, or the game is over with
      a win flag and a message. */
  datatype Verdict = Continue | Over(win: bool, msg: string)

  /** The players still in the game, in roster order. */
  function Live(ps: seq<Player>): (s: seq<Player>)
    ensures |s| <= |ps|
    ensures forall p :: p in s <==> p in ps && !p.eliminated
  {
    if ps == [] then []
    else (if ps[0].eliminated then [] else [ps[0]]) + Live(ps[1..])
  }

  /** Only player `i` is still in. */
  ghost predicate SoleSurvivor(ps: seq<Player>, i: int)
  {
    0 <= i < |ps| && !ps[i].eliminated && forall j :: 0 <= j < |ps| && j != i ==> ps[j].eliminated
  }

  ghost predicate AllEliminated(ps: seq<Player>)
  {
    forall j :: 0 <= j < |ps| ==> ps[j].eliminated
  }

  ghost predicate TwoStillIn(ps: seq<Player>)
  {
    exists i, j :: 0 <= i < j < |ps| && !ps[i].eliminated && !ps[j].eliminated
  }

  lemma {:induction false} LiveEmpty(ps: seq<Player>)
    ensures Live(ps) == [] <==> AllEliminated(ps)
  {
    if ps != [] {
      LiveEmpty(ps[1..]);
      assert forall j :: 1 <= j < |ps| ==> ps[j] == ps[1..][j - 1];
    }
  }

  lemma {:induction false} LiveSingle(ps: seq<Player>, i: int)
    requires SoleSurvivor(ps, i)
    ensures Live(ps) == [ps[i]]
  {
    assert forall j :: 1 <= j < |ps| ==> ps[j] == ps[1..][j - 1];
    if i == 0 {
      assert AllEliminated(ps[1..]);
      LiveEmpty(ps[1..]);
    } else {
      assert SoleSurvivor(ps[1..], i - 1);
      LiveSingle(ps[1..], i - 1);
    }
  }

  lemma {:induction false} TwoLive(ps: seq<Player>)
    requires TwoStillIn(ps)
    ensures |Live(ps)| >= 2
  {
    var rest := ps[1..];
    var i, j :| 0 <= i < j < |ps| && !ps[i].eliminated && !ps[j].eliminated;
    assert ps[j] == rest[j - 1];
    if i == 0 {
      assert rest[j - 1] in Live(rest);
    } else {
      assert ps[i] == rest[i - 1];
      TwoLive(rest);
    }
  }

  lemma {:induction false} LiveTwo(ps: seq<Player>)
    requires |Live(ps)| >= 2
    ensures TwoStillIn(ps)
  {
    var rest := ps[1..];
    if !ps[0].eliminated {
      LiveBehind(ps);
    } else {
      assert Live(ps) == Live(rest);
      LiveTwo(rest);
      TwoStillInTail(ps);
    }
  }

  /** Two players still in behind the head are two still in. */
  lemma TwoStillInTail(ps: seq<Player>)
    requires 0 < |ps| && TwoStillIn(ps[1..])
    ensures TwoStillIn(ps)
  {
    var rest := ps[1..];
    var i, j :| 0 <= i < j < |rest| && !rest[i].eliminated && !rest[j].eliminated;
    assert ps[i + 1] == rest[i] && ps[j + 1] == rest[j];
  }

  /** A live head with someone live behind it makes two. */
  lemma LiveBehind(ps: seq<Player>)
    requires 0 < |ps| && !ps[0].eliminated && |Live(ps[1..])| >= 1
    ensures TwoStillIn(ps)
  {
    var rest := ps[1..];
    var p := Live(rest)[0];
    assert p in Live(rest);
    var j :| 0 <= j < |rest| && rest[j] == p;
    assert ps[j + 1] == p;
  }

  /** `checkWin`'s decision. `safe` is the number of closed non-mine tiles,
      `boom` whether the move detonated a mine, `victim` the name of the
      player who opened it. */
  function Decide(safe: nat, boom: bool, victim: string, mode: Mode, ps: seq<Player>): (v: Verdict)
    // a cleared board is a win in every mode
    ensures safe == 0 ==> v == Over(true, "Sector Cleared")
    // otherwise only a detonation can end the game, and never in a race
    ensures safe > 0 && v.Over? ==> boom && mode != Race
    // a detonation loses a co-operative game
    ensures safe > 0 && boom && mode == Coop ==> v == Over(false, victim + " Detonated")
  {
    if safe == 0 then Over(true, "Sector Cleared")
    else if !boom then Continue
    else match mode
      case Coop => Over(false, victim + " Detonated")
      case Turn =>
        var s := Live(ps);
        if |s| == 1 then Over(true, s[0].name + " Wins")
        else if |s| == 0 then Over(false, "Draw")
        else Continue
      case Race => Continue
  }

  /** In turn mode a detonation that leaves one player standing makes that
      player the winner. */
  lemma TurnSurvivorWins(safe: nat, victim: string, ps: seq<Player>, i: int)
    requires safe > 0 && SoleSurvivor(ps, i)
    ensures Decide(safe, true, victim, Turn, ps) == Over(true, ps[i].name + " Wins")
  {
    LiveSingle(ps, i);
  }

  /** In turn mode a detonation is a draw exactly when nobody is left. */
  lemma TurnDraw(safe: nat, victim: string, ps: seq<Player>)
    requires safe > 0
    ensures Decide(safe, true, victim, Turn, ps) == Over(false, "Draw") <==> AllEliminated(ps)
  {
    LiveEmpty(ps);
  }

  /** In turn mode play goes on after a detonation exactly when at least two
      players are still in. */
  lemma TurnGoesOn(safe: nat, victim: string, ps: seq<Player>)
    requires safe > 0
    ensures Decide(safe, true, victim, Turn, ps) == Continue <==> TwoStillIn(ps)
  {
    if TwoStillIn(ps) {
      TwoLive(ps);
    }
    if |Live(ps)| >= 2 {
      LiveTwo(ps);
    }
  }

  /** The count `checkWin` takes is zero exactly when every safe tile is
      open: that is when the board is won, and otherwise a move without a
      detonation, or any move in a race, lets play go on. */
  lemma ClearedBoardWins(g: Grid, boom: bool, victim: string, mode: Mode, ps: seq<Player>)
    ensures AllSafeOpen(g) ==> Decide(ClosedSafe(g), boom, victim, mode, ps) == Over(true, "Sector Cleared")
    ensures !AllSafeOpen(g) && (!boom || mode == Race) ==> Decide(ClosedSafe(g), boom, victim, mode, ps) == Continue
  {
    ClosedSafeZero(g);
  }

  /** `checkWin`'s scan: count the tiles that are neither mines nor open. */
  method CountClosedSafe(g: Grid) returns (safe: nat)
    ensures safe == ClosedSafe(g)
    ensures safe == 0 <==> AllSafeOpen(g)
  {
    safe := 0;
    for i := 0 to |g|
      invariant safe == ClosedSafe(g[..i])
    {
      var row := g[i];
      for j := 0 to |row|
        invariant safe == ClosedSafe(g[..i]) + RowClosed(row[..j])
      {
        assert row[..j + 1][..j] == row[..j];
        if !row[j].isMine && !row[j].isOpen {
          safe := safe + 1;
        }
      }
      assert row[..|row|] == row;
      assert g[..i + 1][..i] == g[..i];
    }
    assert g[..|g|] == g;
    ClosedSafeZero(g);
  }

  /** The turn scan after `tries` steps have reached index `i`: stop on a
      live player or once every seat has been tried, else step on. */
  function Settle(ps: seq<Player>, i: int, tries: int): (j: int)
    requires 0 <= i < |ps| && 0 < tries
    ensures 0 <= j < |ps|
    // a live seat stops the scan where it is
    ensures !ps[i].eliminated ==> j == i
    decreases |ps| - tries
  {
    if !ps[i].eliminated || tries >= |ps| then i
    else Settle(ps, (i + 1) % |ps|, tries + 1)
  }

  /** `advanceTurn`'s result: step from `t` circularly at least once. */
  function NextTurn(ps: seq<Player>, t: int): (j: int)
    requires 0 <= t && 0 < |ps|
    ensures 0 <= j < |ps|
  {
    Settle(ps, (t + 1) % |ps|, 1)
  }

  /** `advanceTurn`'s do-while scan over the roster. */
  method NextTurnIndex(ps: seq<Player>, t: int) returns (idx: int)
    requires 0 <= t && 0 < |ps|
    ensures idx == NextTurn(ps, t)
    ensures 0 <= idx < |ps|
  {
    var tries := 0;
    idx := t;
    idx := (idx + 1) % |ps|;
    tries := tries + 1;
    while ps[idx].eliminated && tries < |ps|
      invariant 0 <= idx < |ps| && 1 <= tries <= |ps|
      invariant Settle(ps, idx, tries) == NextTurn(ps, t)
      decreases |ps| - tries
    {
      idx := (idx + 1) % |ps|;
      tries := tries + 1;
    }
  }

  /** Euclidean remainder is unique. */
  lemma ModUnique(x: int, n: int, q: int, r: int)
    requires 0 < n && 0 <= r < n && x == n * q + r
    ensures x % n == r
  {
    var q', r' := x / n, x % n;
    assert n * (q - q') == r' - r;
    MulAwayFromZero(n, q - q');
  }

  lemma MulAwayFromZero(n: int, k: int)
    requires 0 < n
    ensures k >= 1 ==> n * k >= n
    ensures k <= -1 ==> n * k <= -n
  {
  }

  /** The index the scan visits `d` steps after `t`. */
  function Step(t: int, d: int, n: int): int
    requires 0 < n
  {
    (t + d) % n
  }

  lemma StepNext(t: int, d: int, n: int)
    requires 0 < n && 0 <= t && 0 <= d
    ensures (Step(t, d, n) + 1) % n == Step(t, d + 1, n)
  {
    var q, r := (t + d) / n, (t + d) % n;
    if r + 1 < n {
      ModUnique(r + 1, n, 0, r + 1);
      ModUnique(t + d + 1, n, q, r + 1);
    } else {
      ModUnique(r + 1, n, 1, 0);
      ModUnique(t + d + 1, n, q + 1, 0);
    }
  }

  /** Every seat is visited within `n` steps of `t`. */
  lemma StepCovers(t: int, i: int, n: int) returns (d: int)
    requires 0 <= t < n && 0 <= i < n
    ensures 1 <= d <= n && Step(t, d, n) == i
  {
    if i > t {
      d := i - t;
      ModUnique(t + d, n, 0, i);
    } else {
      d := i - t + n;
      ModUnique(t + d, n, 1, i);
    }
  }

  /** Seats visited at steps `from..to-1` after `t` are all eliminated. */
  ghost predicate SkippedFrom(ps: seq<Player>, t: int, from: int, to: int)
    requires 0 < |ps|
  {
    forall j :: from <= j < to ==> ps[Step(t, j, |ps|)].eliminated
  }

  lemma {:induction false} SettleMeaning(ps: seq<Player>, t: int, k: int)
    requires 0 <= t < |ps| && 1 <= k <= |ps|
    ensures var r := Settle(ps, Step(t, k, |ps|), k);
      exists d :: k <= d <= |ps| && r == Step(t, d, |ps|) && (!ps[r].eliminated || d == |ps|) &&
        SkippedFrom(ps, t, k, d)
    decreases |ps| - k
  {
    var n := |ps|;
    var i := Step(t, k, n);
    var r := Settle(ps, i, k);
    if !ps[i].eliminated || k >= n {
      assert SkippedFrom(ps, t, k, k);
    } else {
      StepNext(t, k, n);
      SettleMeaning(ps, t, k + 1);
      var d :| k + 1 <= d <= n && r == Step(t, d, n) && (!ps[r].eliminated || d == n) && SkippedFrom(ps, t, k + 1, d);
      assert SkippedFrom(ps, t, k, d);
    }
  }

  /** `advanceTurn` lands on a valid seat; if anyone is still in, on the
      first live player after `t` in circular order; otherwise back on `t`. */
  lemma NextTurnMeaning(ps: seq<Player>, t: int)
    requires 0 <= t < |ps|
    ensures 0 <= NextTurn(ps, t) < |ps|
    ensures !AllEliminated(ps) ==>
      !ps[NextTurn(ps, t)].eliminated &&
      exists d :: 1 <= d <= |ps| && NextTurn(ps, t) == Step(t, d, |ps|) && SkippedFrom(ps, t, 1, d)
    ensures AllEliminated(ps) ==> NextTurn(ps, t) == t
  {
    var n := |ps|;
    ModUnique(t + 1, n, (t + 1) / n, (t + 1) % n);
    SettleMeaning(ps, t, 1);
    var r := NextTurn(ps, t);
    var d :| 1 <= d <= n && r == Step(t, d, n) && (!ps[r].eliminated || d == n) && SkippedFrom(ps, t, 1, d);
    if !AllEliminated(ps) {
      // the live seat `i` is visited at step `e`, so the scan stops no later
      var i :| 0 <= i < n && !ps[i].eliminated;
      var e := StepCovers(t, i, n);
      assert !(e < d);
    }
    if AllEliminated(ps) {
      ModUnique(t + n, n, 1, t);
    }
  }
}
