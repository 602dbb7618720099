/**
 The whole game state as one immutable record, with the handlers of the
 player's buttons, the enemy's launches and the cooldown timers as pure
 transitions. The buttons' enabled flags are kept because disabling them is
 how the end screen stops the player from firing.
 */
module GameState {
  import opened Entities
  import opened Motion
  import opened RateLimit

  datatype Game = Game(
    leftHp: int,                  // the enemy (red) square
    rightHp: int,                 // the player (blue) square
    projectiles: seq<Projectile>,
    counters: seq<Counter>,
    explosion: Option<Explosion>,
    big: Option<nat>,             // the big-missile gate (see RateLimit.GateOk)
    small: Burst,                 // the small-missile burst limiter
    defense: bool,                // a defence missile was launched less than 1000 ms ago
    gameOver: bool,
    smallButton: bool,            // the small-missile button is enabled
    bigButton: bool,              // the big-missile button is enabled
    nextId: nat)                  // the identity the next missile receives

  /** The state the page starts from, and every restart returns to. */
  function Init(): Game
  {
    Game(MAX_HP, MAX_HP, [], [], None, None, IDLE_BURST, false, false, true, true, 0)
  }

  /** Every missile in flight is of a known tier, has not yet landed, and has an identity
      below the next one handed out. */
  predicate WellFormed(p: Projectile, nextId: nat)
  {
    IsTier(p.damage, p.size) && p.step < STEPS && p.id < nextId
  }

  /** Launches one missile from its side: it starts at progress 0 with a fresh
      identity, and nothing else in the game changes. */
  function Shoot(g: Game, damage: int, size: int, fromLeft: bool): (r: Game)
    ensures |r.projectiles| == |g.projectiles| + 1 && r.projectiles[..|g.projectiles|] == g.projectiles
    ensures var p := r.projectiles[|g.projectiles|];
      p.id == g.nextId && p.step == 0 && p.damage == damage && p.size == size && p.fromLeft == fromLeft
    ensures r.nextId == g.nextId + 1
    ensures r.(projectiles := g.projectiles, nextId := g.nextId) == g
  {
    var p := Projectile(g.nextId, damage, size, 0, fromLeft);
    assert (g.projectiles + [p])[..|g.projectiles|] == g.projectiles;
    g.(projectiles := g.projectiles + [p], nextId := g.nextId + 1)
  }

  /** A missile launched by `Shoot` carries an identity no missile in flight has. */
  lemma ShootFresh(g: Game, damage: int, size: int, fromLeft: bool)
    requires forall p :: p in g.projectiles ==> p.id < g.nextId
    ensures var r := Shoot(g, damage, size, fromLeft);
      && r.projectiles[|g.projectiles|].id !in Ids(g.projectiles)
      && forall p :: p in r.projectiles ==> p.id < r.nextId
  {
    IdsIndex(g.projectiles, g.nextId);
    var r := Shoot(g, damage, size, fromLeft);
    assert r.projectiles == g.projectiles + [r.projectiles[|g.projectiles|]];
  }

  /** The small-missile handler: ignored during the cooldown, otherwise a small
      player missile is launched and the burst limiter counts it; the tenth shot
      of a burst disables the button. */
  function HandleSmall(g: Game, now: int): (r: Game)
    ensures g.small.cooldown.Some? ==> r == g
    ensures g.small.cooldown.None? ==>
      && |r.projectiles| == |g.projectiles| + 1 && r.projectiles[..|g.projectiles|] == g.projectiles
      && r.projectiles[|g.projectiles|] == Projectile(g.nextId, SMALL_DAMAGE, SMALL_SIZE, 0, false)
      && r.nextId == g.nextId + 1
      && r.small == TrySmall(g.small, now).burst
      && (r.smallButton <==> g.smallButton && r.small.cooldown.None?)
    ensures r.(projectiles := g.projectiles, nextId := g.nextId, small := g.small, smallButton := g.smallButton) == g
  {
    var t := TrySmall(g.small, now);
    if !t.fired then g
    else
      var g1 := Shoot(g, SMALL_DAMAGE, SMALL_SIZE, false);
      g1.(small := t.burst, smallButton := g.smallButton && t.burst.cooldown.None?)
  }

  /** The big-missile handler: ignored while the gate is closed, otherwise a big
      player missile is launched, the gate closes and the button is disabled. */
  function HandleBig(g: Game): (r: Game)
    ensures g.big.Some? ==> r == g
    ensures g.big.None? ==>
      && |r.projectiles| == |g.projectiles| + 1 && r.projectiles[..|g.projectiles|] == g.projectiles
      && r.projectiles[|g.projectiles|] == Projectile(g.nextId, BIG_DAMAGE, BIG_SIZE, 0, false)
      && r.nextId == g.nextId + 1
      && r.big == Some(0) && !r.bigButton
    ensures r.(projectiles := g.projectiles, nextId := g.nextId, big := g.big, bigButton := g.bigButton) == g
  {
    if g.big.Some? then g
    else
      var g1 := Shoot(g, BIG_DAMAGE, BIG_SIZE, false);
      g1.(big := Some(0), bigButton := false)
  }

  /** One enemy launch: a big or a small missile from the left square, whatever the state of the round. */
  function EnemyLaunch(g: Game, isBig: bool): (r: Game)
    ensures |r.projectiles| == |g.projectiles| + 1 && r.projectiles[..|g.projectiles|] == g.projectiles
    ensures var p := r.projectiles[|g.projectiles|];
      p.fromLeft && p.step == 0 && p.id == g.nextId && IsTier(p.damage, p.size) && (p.damage == BIG_DAMAGE <==> isBig)
    ensures r.nextId == g.nextId + 1
    ensures r.(projectiles := g.projectiles, nextId := g.nextId) == g
  {
    if isBig then Shoot(g, BIG_DAMAGE, BIG_SIZE, true) else Shoot(g, SMALL_DAMAGE, SMALL_SIZE, true)
  }

  /** The number of missiles in an enemy volley, from the draw floor(random * 4). */
  function VolleySize(draw: nat): (n: nat)
    requires draw < 4
    ensures 1 <= n <= 4
  {
    1 + draw
  }

  /** An enemy volley: one launch per entry of `bigs`, in order, each entry choosing the tier. */
  function Volley(g: Game, bigs: seq<bool>): (r: Game)
    ensures |r.projectiles| == |g.projectiles| + |bigs| && r.projectiles[..|g.projectiles|] == g.projectiles
    ensures r.nextId == g.nextId + |bigs|
    ensures r.(projectiles := g.projectiles, nextId := g.nextId) == g
  {
    if |bigs| == 0 then g
    else EnemyLaunch(Volley(g, bigs[..|bigs| - 1]), bigs[|bigs| - 1])
  }

  /** The k-th missile of a volley as launched: an enemy missile at progress 0
      with identity `first + k` and the tier the k-th choice asked for. */
  predicate VolleyMissile(p: Projectile, first: nat, k: nat, isBig: bool)
  {
    p.fromLeft && p.step == 0 && p.id == first + k && IsTier(p.damage, p.size) && (p.damage == BIG_DAMAGE <==> isBig)
  }

  /** A volley appends exactly its missiles, in launch order, with consecutive fresh identities. */
  lemma {:induction false} VolleyLaunches(g: Game, bigs: seq<bool>)
    ensures var r := Volley(g, bigs);
      && |r.projectiles| == |g.projectiles| + |bigs|
      && r.projectiles[..|g.projectiles|] == g.projectiles
      && r.nextId == g.nextId + |bigs|
      && forall k :: 0 <= k < |bigs| ==> VolleyMissile(r.projectiles[|g.projectiles| + k], g.nextId, k, bigs[k])
  {
    if |bigs| > 0 {
      var init := bigs[..|bigs| - 1];
      var r1 := Volley(g, init);
      VolleyLaunches(g, init);
      var r := Volley(g, bigs);
      assert r == EnemyLaunch(r1, bigs[|bigs| - 1]);
      var n := |g.projectiles|;
      var m := |r1.projectiles|;
      assert m == n + |init| && |r.projectiles| == m + 1;
      forall k | 0 <= k < |bigs|
        ensures VolleyMissile(r.projectiles[n + k], g.nextId, k, bigs[k])
      {
        if k < |init| {
          assert init[k] == bigs[k];
          assert r.projectiles[n + k] == r1.projectiles[n + k];
          assert VolleyMissile(r1.projectiles[n + k], g.nextId, k, init[k]);
        } else {
          assert n + k == m && r1.nextId == g.nextId + k;
        }
      }
    }
  }

  /** A volley of the drawn size launches between one and four enemy missiles at
      progress 0, and leaves the rest of the game as it was. */
  lemma VolleyBounds(g: Game, draw: nat, bigs: seq<bool>)
    requires draw < 4 && |bigs| == VolleySize(draw)
    ensures var r := Volley(g, bigs);
      var added := r.projectiles[|g.projectiles|..];
      && 1 <= |added| <= 4
      && (forall q :: q in added ==> q.fromLeft && q.step == 0 && IsTier(q.damage, q.size))
      && r.(projectiles := g.projectiles, nextId := g.nextId) == g
  {
    VolleyLaunches(g, bigs);
    var r := Volley(g, bigs);
    var n := |g.projectiles|;
    forall q | q in r.projectiles[n..]
      ensures q.fromLeft && q.step == 0 && IsTier(q.damage, q.size)
    {
      var k :| 0 <= k < |r.projectiles[n..]| && r.projectiles[n..][k] == q;
      assert VolleyMissile(r.projectiles[n + k], g.nextId, k, bigs[k]);
    }
  }

  /** One firing of the big cooldown's interval. When the gate reopens the button
      is re-enabled, but not once the round has ended (see the findings). */
  function BigTimer(g: Game): (r: Game)
    ensures GateOk(g.big) ==> GateOk(r.big)
    ensures g.big.None? ==> r == g
    ensures g.big.Some? ==> r.big == Countdown(g.big.value, BIG_COOLDOWN)
    ensures r.bigButton ==> g.bigButton || !r.gameOver
    ensures r.(big := g.big, bigButton := g.bigButton) == g
  {
    match g.big
    case None => g
    case Some(e) =>
      var t := Countdown(e, BIG_COOLDOWN);
      g.(big := t, bigButton := if t.None? then !g.gameOver else g.bigButton)
  }

  /** One firing of the small cooldown's interval, with the same button rule as `BigTimer`. */
  function SmallTimer(g: Game): (r: Game)
    ensures BurstOk(g.small) ==> BurstOk(r.small)
    ensures g.small.cooldown.None? ==> r == g
    ensures r.small == SmallPeriod(g.small)
    ensures r.smallButton ==> g.smallButton || !r.gameOver
    ensures r.(small := g.small, smallButton := g.smallButton) == g
  {
    match g.small.cooldown
    case None => g
    case Some(_) =>
      var b := SmallPeriod(g.small);
      g.(small := b, smallButton := if b.cooldown.None? then !g.gameOver else g.smallButton)
  }

  /** The big cooldown's interval fired `n` times. */
  function BigTimerRun(g: Game, n: nat): Game
    decreases n
  {
    if n == 0 then g else BigTimerRun(BigTimer(g), n - 1)
  }

  /** While the round runs, the big gate follows its countdown, and the button is
      enabled again exactly when the gate reopens. */
  lemma {:induction false} BigTimerRunFollows(g: Game, n: nat)
    requires g.big.Some? && g.big.value < BIG_COOLDOWN && !g.gameOver && !g.bigButton
    ensures BigTimerRun(g, n).big == CountdownRun(g.big, BIG_COOLDOWN, n)
    ensures BigTimerRun(g, n).bigButton <==> BigTimerRun(g, n).big.None?
    ensures !BigTimerRun(g, n).gameOver
    decreases n
  {
    if n > 0 {
      var g1 := BigTimer(g);
      if g1.big.Some? {
        BigTimerRunFollows(g1, n - 1);
      } else {
        BigTimerStops(g1, n - 1);
      }
    }
  }

  lemma {:induction false} BigTimerStops(g: Game, n: nat)
    requires g.big.None?
    ensures BigTimerRun(g, n) == g
    decreases n
  {
    if n > 0 {
      BigTimerStops(g, n - 1);
    }
  }

  /** A big shot closes the gate for exactly fifty firings of its 100 ms interval
      (5000 ms): after 49 a second big shot is still ignored, after 50 it is
      accepted, once, and the gate closes again. */
  lemma BigGateReopens(g: Game, n: nat)
    requires g.big.None? && !g.gameOver
    ensures var g1 := BigTimerRun(HandleBig(g), n);
      && (g1.big.None? <==> n >= 50)
      && (g1.bigButton <==> n >= 50)
      && (n >= 50 ==> |HandleBig(g1).projectiles| == |g1.projectiles| + 1 && HandleBig(g1).big.Some?)
      && (n < 50 ==> HandleBig(g1) == g1)
  {
    var g0 := HandleBig(g);
    BigTimerRunFollows(g0, n);
    CountdownClears(0, BIG_COOLDOWN, n);
  }

  /** The small cooldown's interval fired `n` times. */
  function SmallTimerRun(g: Game, n: nat): Game
    decreases n
  {
    if n == 0 then g else SmallTimerRun(SmallTimer(g), n - 1)
  }

  /** While the round runs, the small cooldown follows its countdown; when it
      clears, the burst count is back to zero and the button is enabled again. */
  lemma {:induction false} SmallTimerRunFollows(g: Game, n: nat)
    requires g.small.cooldown.Some? && BurstOk(g.small) && !g.gameOver && !g.smallButton
    ensures SmallTimerRun(g, n).small.cooldown == CountdownRun(g.small.cooldown, SMALL_COOLDOWN, n)
    ensures SmallTimerRun(g, n).smallButton <==> SmallTimerRun(g, n).small.cooldown.None?
    ensures SmallTimerRun(g, n).small.cooldown.None? ==> SmallTimerRun(g, n).small.count == 0
    ensures !SmallTimerRun(g, n).gameOver
    decreases n
  {
    if n > 0 {
      var g1 := SmallTimer(g);
      if g1.small.cooldown.Some? {
        SmallTimerRunFollows(g1, n - 1);
      } else {
        SmallTimerStops(g1, n - 1);
      }
    }
  }

  lemma {:induction false} SmallTimerStops(g: Game, n: nat)
    requires g.small.cooldown.None?
    ensures SmallTimerRun(g, n) == g
    decreases n
  {
    if n > 0 {
      SmallTimerStops(g, n - 1);
    }
  }

  /** The tenth quick small shot closes the small button for exactly twenty firings
      of its 100 ms interval (2000 ms): after 19 a click is still ignored; after 20
      the burst count is back to zero and the next click is accepted. */
  lemma SmallCooldownLasts(g: Game, now: int, later: int, n: nat)
    requires BurstOk(g.small) && g.small.cooldown.None? && g.small.count == MAX_SMALL_SHOTS - 1
    requires now - g.small.last <= SMALL_SHOT_INTERVAL && !g.gameOver
    ensures var g1 := SmallTimerRun(HandleSmall(g, now), n);
      && HandleSmall(g, now).small.cooldown == Some(0) && !HandleSmall(g, now).smallButton
      && (g1.small.cooldown.None? <==> n >= 20)
      && (g1.smallButton <==> n >= 20)
      && (n >= 20 ==> g1.small.count == 0 && |HandleSmall(g1, later).projectiles| == |g1.projectiles| + 1)
      && (n < 20 ==> HandleSmall(g1, later) == g1)
  {
    var g0 := HandleSmall(g, now);
    SmallTimerRunFollows(g0, n);
    CountdownClears(0, SMALL_COOLDOWN, n);
  }

  /** The big cooldown's interval as the program writes it: the button is re-enabled
      when the gate reopens, even on the end screen. */
  function BigTimerAsWritten(g: Game): (r: Game)
    ensures g.big.Some? && r.big.None? ==> r.bigButton
    ensures r.(bigButton := g.bigButton) == BigTimer(g).(bigButton := g.bigButton)
  {
    match g.big
    case None => g
    case Some(e) =>
      var t := Countdown(e, BIG_COOLDOWN);
      g.(big := t, bigButton := if t.None? then true else g.bigButton)
  }

  /** The small cooldown's interval as the program writes it, with the same re-enabling. */
  function SmallTimerAsWritten(g: Game): (r: Game)
    ensures g.small.cooldown.Some? && r.small.cooldown.None? ==> r.smallButton
    ensures r.(smallButton := g.smallButton) == SmallTimer(g).(smallButton := g.smallButton)
  {
    match g.small.cooldown
    case None => g
    case Some(_) =>
      var b := SmallPeriod(g.small);
      g.(small := b, smallButton := if b.cooldown.None? then true else g.smallButton)
  }

  /** The defence cooldown's timeout: the defence may launch again. */
  function DefenseTimer(g: Game): (r: Game)
    ensures !r.defense
    ensures r.(defense := g.defense) == g
  {
    g.(defense := false)
  }
}
