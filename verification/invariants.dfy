/**
 The game as a state machine over the events that reach it: animation frames,
 button presses, enemy launches, timer callbacks and restarts. `Valid` is the
 invariant every reachable state keeps: hit points within [0, 100], missiles of
 a known tier that have not landed, distinct identities, at most one chaser per
 missile and only for missiles in flight, the limiters' own invariants, and
 buttons that follow the cooldowns while the round runs and stay off after it.
 */
module Invariants {
  import opened Entities
  import opened Motion
  import opened RateLimit
  import opened GameState
  import opened Simulation
  import opened FrameProps

  /** Every conjunct of `Valid` except the one the end screen's buttons need; it
      holds whichever version of the cooldown timers runs. */
  predicate Sound(g: Game)
  {
    && 0 <= g.leftHp <= MAX_HP && 0 <= g.rightHp <= MAX_HP
    && (forall p :: p in g.projectiles ==> WellFormed(p, g.nextId))
    && Distinct(g.projectiles)
    && DistinctTargets(g.counters)
    && Targets(g.counters) <= Ids(g.projectiles)
    && BurstOk(g.small) && GateOk(g.big)
    && (g.explosion.Some? ==> BlastOk(g.explosion.value))
    && (g.gameOver ==> g.leftHp == 0 || g.rightHp == 0)
    && (!g.gameOver ==> (g.smallButton <==> g.small.cooldown.None?) && (g.bigButton <==> g.big.None?))
  }

  /** The invariant of the model: `Sound`, and both buttons off once the round is over. */
  predicate Valid(g: Game)
  {
    Sound(g) && (g.gameOver ==> !g.smallButton && !g.bigButton)
  }

  /** What can happen to the game. The animation frame carries the collision
      oracle; the small button carries the clock reading of the click. */
  datatype Event =
    | Animate(hits: set<nat>)
    | PressSmall(now: int)
    | PressBig
    | EnemyFires(isBig: bool)
    | BigTick
    | SmallTick
    | DefenseTimeout
    | RestartPressed

  /** A frame arrives only while the loop is scheduled, that is until the frame that
      ends the round (see `FrameScheduling`); a disabled button cannot be clicked. */
  function Step(g: Game, e: Event): (r: Game)
    ensures r.gameOver && !g.gameOver ==> e.Animate?
    ensures !r.gameOver && g.gameOver ==> e.RestartPressed?
    ensures r.nextId < g.nextId ==> e.RestartPressed?
  {
    match e
    case Animate(hits) => if g.gameOver then g else Tick(g, hits).game
    case PressSmall(now) => if g.smallButton then HandleSmall(g, now) else g
    case PressBig => if g.bigButton then HandleBig(g) else g
    case EnemyFires(isBig) => EnemyLaunch(g, isBig)
    case BigTick => BigTimer(g)
    case SmallTick => SmallTimer(g)
    case DefenseTimeout => DefenseTimer(g)
    case RestartPressed => Restart(g)
  }

  /** The same machine with the cooldown timers as the program writes them. */
  function StepAsWritten(g: Game, e: Event): Game
  {
    match e
    case BigTick => BigTimerAsWritten(g)
    case SmallTick => SmallTimerAsWritten(g)
    case _ => Step(g, e)
  }

  function RunAsWritten(g: Game, es: seq<Event>): Game
    decreases |es|
  {
    if |es| == 0 then g else RunAsWritten(StepAsWritten(g, es[0]), es[1..])
  }

  function Run(g: Game, es: seq<Event>): Game
    decreases |es|
  {
    if |es| == 0 then g else Run(Step(g, es[0]), es[1..])
  }

  /** The loop is rescheduled by every frame except the one that ends the round, and
      a restart draws a frame that starts it again: so a frame is pending exactly
      while the round runs. */
  lemma FrameScheduling(g: Game, hits: set<nat>)
    requires !g.gameOver
    ensures Tick(g, hits).again <==> !Tick(g, hits).game.gameOver
    ensures !Restart(g).gameOver
  {
  }

  lemma InitValid()
    ensures Valid(Init())
  {
  }

  /** A missile added by a launch keeps the missile invariants. */
  lemma LaunchValid(g: Game, r: Game)
    requires Sound(g)
    requires |r.projectiles| == |g.projectiles| + 1 && r.projectiles[..|g.projectiles|] == g.projectiles
    requires r.nextId == g.nextId + 1
    requires var p := r.projectiles[|g.projectiles|]; p.id == g.nextId && p.step == 0 && IsTier(p.damage, p.size)
    requires r.counters == g.counters
    ensures forall p :: p in r.projectiles ==> WellFormed(p, r.nextId)
    ensures Distinct(r.projectiles) && Targets(r.counters) <= Ids(r.projectiles)
  {
    var p := r.projectiles[|g.projectiles|];
    assert r.projectiles == g.projectiles + [p];
    assert forall j :: 0 <= j < |g.projectiles| ==> g.projectiles[j] in g.projectiles;
    IdsIndex(g.projectiles, g.nextId);
    DistinctAppendOne(g.projectiles, p);
  }

  /** On a frame that moves the missiles, the missiles left are well formed and distinct. */
  lemma TickMissilesValid(g: Game, hits: set<nat>)
    requires Valid(g) && Tick(g, hits).ending.None?
    ensures var r := Tick(g, hits).game;
      (forall q :: q in r.projectiles ==> WellFormed(q, r.nextId)) && Distinct(r.projectiles)
  {
    var ps := g.projectiles;
    var S := Survivors(ps);
    var X := Targets(Spawned(ps, g.counters, g.defense)) * hits;
    TickMoves(g, hits);
    var r := Tick(g, hits).game;
    forall q | q in r.projectiles
      ensures WellFormed(q, r.nextId)
    {
      DropMembers(S, X, q);
      SurvivorsMembers(ps, q);
    }
    SurvivorsDistinct(ps);
    DropDistinct(S, X);
  }

  /** On a frame that moves the missiles, no missile has two chasers and every chaser's
      target is still in flight. */
  lemma TickChasersValid(g: Game, hits: set<nat>)
    requires Valid(g) && Tick(g, hits).ending.None?
    ensures var r := Tick(g, hits).game;
      DistinctTargets(r.counters) && Targets(r.counters) <= Ids(r.projectiles)
  {
    var ps := g.projectiles;
    var S := Survivors(ps);
    var C1 := Spawned(ps, g.counters, g.defense);
    var X := Targets(C1) * hits;
    TickMoves(g, hits);
    if |C1| == |g.counters| + 1 {
      var j :| 0 <= j < |ps| && Eligible(ps[j], g.counters) && C1[|g.counters|] == Counter(ps[j].id);
      assert C1 == g.counters + [C1[|g.counters|]];
      DistinctTargetsAppend(g.counters, C1[|g.counters|]);
    } else {
      assert C1 == g.counters;
    }
    KeepDistinct(C1, Ids(S) - hits);
    KeepTargets(C1, Ids(S) - hits);
    DropIds(S, X);
  }

  /** A frame keeps the invariant, whether it ends the round or moves the missiles. */
  lemma TickValid(g: Game, hits: set<nat>)
    requires Valid(g)
    ensures Valid(Tick(g, hits).game)
  {
    if Tick(g, hits).ending.None? {
      TickMoves(g, hits);
      TickMissilesValid(g, hits);
      TickChasersValid(g, hits);
    }
  }

  /** Every event keeps the invariant. */
  lemma StepValid(g: Game, e: Event)
    requires Valid(g)
    ensures Valid(Step(g, e))
  {
    match e
    case Animate(hits) =>
      TickValid(g, hits);
    case PressSmall(now) =>
      if g.smallButton && g.small.cooldown.None? {
        LaunchValid(g, HandleSmall(g, now));
      }
    case PressBig =>
      if g.bigButton && g.big.None? {
        LaunchValid(g, HandleBig(g));
      }
    case EnemyFires(isBig) =>
      LaunchValid(g, EnemyLaunch(g, isBig));
    case BigTick =>
    case SmallTick =>
    case DefenseTimeout =>
    case RestartPressed =>
  }

  /** Every state reachable from a valid one keeps the invariant. */
  lemma {:induction false} RunValid(g: Game, es: seq<Event>)
    requires Valid(g)
    ensures Valid(Run(g, es))
    decreases |es|
  {
    if |es| > 0 {
      StepValid(g, es[0]);
      RunValid(Step(g, es[0]), es[1..]);
    }
  }

  /** From the start of the page, whatever happens: both squares' hit points stay
      within [0, 100], no missile is chased by two defence missiles, and every
      chaser's target is in flight. */
  lemma Reachable(es: seq<Event>)
    ensures var g := Run(Init(), es);
      && 0 <= g.leftHp <= MAX_HP && 0 <= g.rightHp <= MAX_HP
      && DistinctTargets(g.counters) && Targets(g.counters) <= Ids(g.projectiles)
      && 0 <= g.small.count <= MAX_SMALL_SHOTS
  {
    InitValid();
    RunValid(Init(), es);
  }

  /** With the timers as written, every event keeps `Sound`: a button that comes
      back on over the end screen launches a missile into a stopped round, but
      the bounds do not depend on it. */
  lemma StepAsWrittenSound(g: Game, e: Event)
    requires Sound(g)
    ensures Sound(StepAsWritten(g, e))
  {
    match e
    case Animate(hits) =>
      if !g.gameOver {
        TickValid(g, hits);
      }
    case PressSmall(now) =>
      if g.smallButton && g.small.cooldown.None? {
        LaunchValid(g, HandleSmall(g, now));
      }
    case PressBig =>
      if g.bigButton && g.big.None? {
        LaunchValid(g, HandleBig(g));
      }
    case EnemyFires(isBig) =>
      LaunchValid(g, EnemyLaunch(g, isBig));
    case BigTick =>
    case SmallTick =>
    case DefenseTimeout =>
    case RestartPressed =>
      RestartValid(g);
  }

  lemma {:induction false} RunAsWrittenSound(g: Game, es: seq<Event>)
    requires Sound(g)
    ensures Sound(RunAsWritten(g, es))
    decreases |es|
  {
    if |es| > 0 {
      StepAsWrittenSound(g, es[0]);
      RunAsWrittenSound(StepAsWritten(g, es[0]), es[1..]);
    }
  }

  /** The bounds of `Reachable` hold for the program's own timers too. */
  lemma ReachableAsWritten(es: seq<Event>)
    ensures var g := RunAsWritten(Init(), es);
      && 0 <= g.leftHp <= MAX_HP && 0 <= g.rightHp <= MAX_HP
      && DistinctTargets(g.counters) && Targets(g.counters) <= Ids(g.projectiles)
      && 0 <= g.small.count <= MAX_SMALL_SHOTS
  {
    InitValid();
    RunAsWrittenSound(Init(), es);
  }

  /** Once the round has ended, frames and clicks change nothing; nothing but a
      restart brings the round back, and the hit points stay as they ended. */
  lemma TerminalFreezes(g: Game, e: Event)
    requires Valid(g) && g.gameOver
    ensures e.Animate? || e.PressSmall? || e.PressBig? ==> Step(g, e) == g
    ensures !e.RestartPressed? ==>
      && Step(g, e).gameOver && !Step(g, e).smallButton && !Step(g, e).bigButton
      && Step(g, e).leftHp == g.leftHp && Step(g, e).rightHp == g.rightHp
  {
    StepValid(g, e);
  }

  /** An ended round stays ended through any run of events without a restart: the
      buttons stay off, the hit points stay as they ended, and no frame moves anything. */
  lemma {:induction false} EndedStaysEnded(g: Game, es: seq<Event>)
    requires Valid(g) && g.gameOver
    requires forall k :: 0 <= k < |es| ==> !es[k].RestartPressed?
    ensures var r := Run(g, es);
      && Valid(r) && r.gameOver && !r.smallButton && !r.bigButton
      && r.leftHp == g.leftHp && r.rightHp == g.rightHp
    decreases |es|
  {
    if |es| > 0 {
      TerminalFreezes(g, es[0]);
      StepValid(g, es[0]);
      EndedStaysEnded(Step(g, es[0]), es[1..]);
    }
  }

  /** Restarting from any state gives a valid fresh round. */
  lemma RestartValid(g: Game)
    ensures Valid(Restart(g)) && !Restart(g).gameOver
  {
    InitValid();
  }
}
