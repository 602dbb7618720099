/**
 One frame of the animation loop (`update` without its drawing): the explosion
 is drawn once, the win/lose check runs, then every missile moves one step
 (landing, damage and defence launches included) and every defence missile is
 resolved against its target. Both lists are walked from their end, as the
 program does, so that splicing out the current element leaves the rest of the
 walk in place.
 */
module Simulation {
  import opened Entities
  import opened Motion
  import opened RateLimit
  import opened GameState

  datatype Ending = YouWin | YouLose

  /** The result of a frame: the new state, the end screen shown on this frame
      if any, and whether the next frame is scheduled. */
  datatype Frame = Frame(game: Game, ending: Option<Ending>, again: bool)

  /** The missile at index `j` moves one step. A player missile may get a defence
      missile on the way (cooldown permitting); a missile that lands writes the
      explosion, damages the square it flies at and leaves the list. */
  function AdvanceOne(g: Game, j: nat): (r: Game)
    requires j < |g.projectiles|
    ensures |r.projectiles| >= j && r.projectiles[..j] == g.projectiles[..j]
    ensures r.(projectiles := g.projectiles, counters := g.counters, defense := g.defense,
               explosion := g.explosion, leftHp := g.leftHp, rightHp := g.rightHp) == g
  {
    var p := g.projectiles[j];
    var g1 := if !g.defense && Eligible(p, g.counters)
      then g.(counters := g.counters + [Counter(p.id)], defense := true)
      else g;
    if Lands(p) then
      var g2 := g1.(explosion := Some(NEW_BLAST), projectiles := RemoveAt(g1.projectiles, j));
      if p.fromLeft then g2.(rightHp := Hit(g2.rightHp, p.damage))
      else g2.(leftHp := Hit(g2.leftHp, p.damage))
    else
      g1.(projectiles := g1.projectiles[j := Advance(p)])
  }

  /** The missile loop over indices i-1 down to 0. */
  function AdvanceAll(g: Game, i: nat): (r: Game)
    requires i <= |g.projectiles|
    ensures r.(projectiles := g.projectiles, counters := g.counters, defense := g.defense,
               explosion := g.explosion, leftHp := g.leftHp, rightHp := g.rightHp) == g
    decreases i
  {
    if i == 0 then g else AdvanceAll(AdvanceOne(g, i - 1), i - 1)
  }

  /** The defence missiles after the missile loop: at most one new one, chasing the
      eligible missile nearest the end of the list, and only if the defence is free. */
  function Spawned(ps: seq<Projectile>, cs: seq<Counter>, defense: bool): (r: seq<Counter>)
    ensures |r| == |cs| || |r| == |cs| + 1
    ensures r[..|cs|] == cs
    ensures |r| == |cs| <==> defense || forall j :: 0 <= j < |ps| ==> !Eligible(ps[j], cs)
    ensures |r| == |cs| + 1 ==>
      exists j :: 0 <= j < |ps| && Eligible(ps[j], cs) && r[|cs|] == Counter(ps[j].id)
                   && (forall k :: j < k < |ps| ==> !Eligible(ps[k], cs))
  {
    if defense then cs
    else match LastEligible(ps, cs)
      case None => cs
      case Some(id) => cs + [Counter(id)]
  }

  /** The defence missile at index `j`: dropped when its target is gone; on a
      collision, its target and itself are removed and the explosion is written;
      otherwise it keeps flying (its motion is not modelled). `hits` holds the
      missiles whose chaser is within collision distance on this frame. */
  function ResolveOne(g: Game, hits: set<nat>, j: nat): (r: Game)
    requires j < |g.counters|
    ensures |r.counters| >= j && r.counters[..j] == g.counters[..j]
    ensures |r.projectiles| <= |g.projectiles| && |r.counters| <= |g.counters|
    ensures r.(projectiles := g.projectiles, counters := g.counters, explosion := g.explosion) == g
  {
    var t := g.counters[j].target;
    if t !in Ids(g.projectiles) then
      g.(counters := RemoveAt(g.counters, j))
    else if t in hits then
      var k := IndexOf(g.projectiles, t, 0);
      g.(projectiles := if k == -1 then g.projectiles else RemoveAt(g.projectiles, k),
         counters := RemoveAt(g.counters, j),
         explosion := Some(NEW_BLAST))
    else g
  }

  /** The defence loop over indices i-1 down to 0. */
  function ResolveAll(g: Game, hits: set<nat>, i: nat): (r: Game)
    requires i <= |g.counters|
    ensures |r.projectiles| <= |g.projectiles| && |r.counters| <= |g.counters|
    ensures r.(projectiles := g.projectiles, counters := g.counters, explosion := g.explosion) == g
    decreases i
  {
    if i == 0 then g else ResolveAll(ResolveOne(g, hits, i - 1), hits, i - 1)
  }

  /** One frame. The check for the end of the round comes before any motion: the
      left square at zero is a win (checked first), the right square at zero a
      loss; the frame then stops, disables both buttons and schedules no further
      frame. */
  function Tick(g: Game, hits: set<nat>): (f: Frame)
    ensures f.ending.Some? <==> !g.gameOver && (g.leftHp <= 0 || g.rightHp <= 0)
    ensures f.ending == Some(YouWin) <==> !g.gameOver && g.leftHp <= 0
    ensures f.again <==> f.ending.None?
    ensures f.game.gameOver <==> g.gameOver || f.ending.Some?
    ensures f.ending.Some? ==> f.game == g.(explosion := Decay(g.explosion), gameOver := true, smallButton := false, bigButton := false)
    ensures f.ending.None? ==>
      && f.game.nextId == g.nextId && f.game.small == g.small && f.game.big == g.big
      && f.game.smallButton == g.smallButton && f.game.bigButton == g.bigButton
  {
    var g0 := g.(explosion := Decay(g.explosion));
    if !g0.gameOver && g0.leftHp <= 0 then
      Frame(g0.(gameOver := true, smallButton := false, bigButton := false), Some(YouWin), false)
    else if !g0.gameOver && g0.rightHp <= 0 then
      Frame(g0.(gameOver := true, smallButton := false, bigButton := false), Some(YouLose), false)
    else
      var g1 := AdvanceAll(g0, |g0.projectiles|);
      var g2 := ResolveAll(g1, hits, |g1.counters|);
      Frame(g2, None, true)
  }

  /** The restart button: every part of the state is reset, and a frame is drawn,
      which finds nothing to do. */
  function Restart(g: Game): (r: Game)
    ensures r == Init()
    ensures r.leftHp == MAX_HP && r.rightHp == MAX_HP
    ensures r.projectiles == [] && r.counters == [] && r.explosion.None?
    ensures r.big.None? && r.small.cooldown.None? && !r.defense
    ensures r.small.count == 0 && r.small.last == 0 && !r.gameOver
  {
    var g0 := g.(leftHp := MAX_HP, rightHp := MAX_HP, projectiles := [], counters := [], explosion := None,
                 big := None, small := IDLE_BURST, defense := false, gameOver := false,
                 smallButton := true, bigButton := true, nextId := 0);
    Tick(g0, {}).game
  }
}
