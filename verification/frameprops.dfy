/**
 What one frame does, stated against reference definitions rather than the
 loops: the missile loop leaves the survivors one step further, applies the
 landed damage once, and launches at most one defence missile; the defence
 loop keeps exactly the chasers whose target is alive and out of reach, and
 removes exactly the missiles caught.
 */
module FrameProps {
  import opened Entities
  import opened Motion
  import opened GameState
  import opened Simulation

  /** The missiles behind the last of `P` once it has moved. */
  function MovedTail(p: Projectile, S: seq<Projectile>): seq<Projectile>
  {
    if Lands(p) then S else [Advance(p)] + S
  }

  /** One turn of the missile loop, seen from the list split as `P + S`. */
  lemma AdvanceOneSplit(g: Game, P: seq<Projectile>, S: seq<Projectile>)
    requires g.projectiles == P + S && |P| > 0
    ensures var p := P[|P| - 1];
      var g1 := AdvanceOne(g, |P| - 1);
      && g1.projectiles == P[..|P| - 1] + MovedTail(p, S)
      && g1.rightHp == (if Lands(p) && p.fromLeft then Hit(g.rightHp, p.damage) else g.rightHp)
      && g1.leftHp == (if Lands(p) && !p.fromLeft then Hit(g.leftHp, p.damage) else g.leftHp)
      && g1.explosion == (if Lands(p) then Some(NEW_BLAST) else g.explosion)
      && g1.counters == (if !g.defense && Eligible(p, g.counters) then g.counters + [Counter(p.id)] else g.counters)
      && g1.defense == (g.defense || Eligible(p, g.counters))
  {
    var i := |P|;
    var p := P[i - 1];
    assert g.projectiles[i - 1] == p;
    if Lands(p) {
      assert RemoveAt(g.projectiles, i - 1) == P[..i - 1] + S;
    } else {
      assert g.projectiles[i - 1 := Advance(p)] == P[..i - 1] + ([Advance(p)] + S);
    }
  }

  /** After the missile loop: the survivors, one step further, in front of `S`. */
  lemma {:induction false} AdvanceAllMoves(g: Game, P: seq<Projectile>, S: seq<Projectile>)
    requires g.projectiles == P + S
    ensures AdvanceAll(g, |P|).projectiles == Survivors(P) + S
    decreases |P|
  {
    if |P| > 0 {
      var init := P[..|P| - 1];
      var p := P[|P| - 1];
      AdvanceOneSplit(g, P, S);
      AdvanceAllMoves(AdvanceOne(g, |P| - 1), init, MovedTail(p, S));
    }
  }

  /** The hit points of the square that missiles of a side fly at. */
  function TargetHp(g: Game, fromLeft: bool): int
  {
    if fromLeft then g.rightHp else g.leftHp
  }

  /** After the missile loop: each square has taken the damage of the missiles that
      landed on it, all at once and floored at zero. */
  lemma {:induction false} AdvanceAllDamages(g: Game, P: seq<Projectile>, S: seq<Projectile>, fromLeft: bool)
    requires g.projectiles == P + S
    requires forall p :: p in P ==> p.damage >= 0
    requires TargetHp(g, fromLeft) >= 0
    ensures TargetHp(AdvanceAll(g, |P|), fromLeft) == Clamp(TargetHp(g, fromLeft), LandedDamage(P, fromLeft))
    decreases |P|
  {
    if |P| > 0 {
      var init := P[..|P| - 1];
      var p := P[|P| - 1];
      assert p in P;
      assert forall q :: q in init ==> q in P;
      AdvanceOneSplit(g, P, S);
      var g1 := AdvanceOne(g, |P| - 1);
      var d := if Lands(p) && p.fromLeft == fromLeft then p.damage else 0;
      assert TargetHp(g1, fromLeft) == Hit(TargetHp(g, fromLeft), d);
      assert LandedDamage(P, fromLeft) == LandedDamage(init, fromLeft) + d;
      AdvanceAllDamages(g1, init, MovedTail(p, S), fromLeft);
      HitThenClamp(TargetHp(g, fromLeft), d, LandedDamage(init, fromLeft));
    }
  }

  /** After the missile loop: the explosion was rewritten exactly when a missile landed. */
  lemma {:induction false} AdvanceAllBlasts(g: Game, P: seq<Projectile>, S: seq<Projectile>)
    requires g.projectiles == P + S
    ensures AdvanceAll(g, |P|).explosion == (if AnyLands(P) then Some(NEW_BLAST) else g.explosion)
    decreases |P|
  {
    if |P| > 0 {
      var init := P[..|P| - 1];
      var p := P[|P| - 1];
      assert P == init + [p];
      AdvanceOneSplit(g, P, S);
      AdvanceAllBlasts(AdvanceOne(g, |P| - 1), init, MovedTail(p, S));
      assert AnyLands(P) <==> AnyLands(init) || Lands(p);
    }
  }

  /** After the missile loop: at most one defence missile was launched, for the
      eligible missile nearest the end, and only if the defence was free; the
      launch starts the defence cooldown. */
  lemma {:induction false} AdvanceAllDefends(g: Game, P: seq<Projectile>, S: seq<Projectile>)
    requires g.projectiles == P + S
    ensures AdvanceAll(g, |P|).counters == Spawned(P, g.counters, g.defense)
    ensures AdvanceAll(g, |P|).defense == (g.defense || LastEligible(P, g.counters).Some?)
    decreases |P|
  {
    if |P| > 0 {
      var init := P[..|P| - 1];
      var p := P[|P| - 1];
      AdvanceOneSplit(g, P, S);
      var g1 := AdvanceOne(g, |P| - 1);
      AdvanceAllDefends(g1, init, MovedTail(p, S));
      if !g.defense && !Eligible(p, g.counters) {
        assert LastEligible(P, g.counters) == LastEligible(init, g.counters);
      }
    }
  }

  /** One turn of the defence loop, seen from the list split as `C + T`. */
  lemma ResolveOneSplit(g: Game, hits: set<nat>, C: seq<Counter>, T: seq<Counter>)
    requires g.counters == C + T && |C| > 0 && Distinct(g.projectiles)
    ensures var c := C[|C| - 1];
      var t := c.target;
      var ps := g.projectiles;
      var g1 := ResolveOne(g, hits, |C| - 1);
      && Distinct(g1.projectiles)
      && (t !in Ids(ps) ==> g1.counters == C[..|C| - 1] + T && g1.projectiles == ps && g1.explosion == g.explosion)
      && (t in Ids(ps) && t in hits ==>
            g1.counters == C[..|C| - 1] + T && g1.projectiles == Drop(ps, {t}) && g1.explosion == Some(NEW_BLAST))
      && (t in Ids(ps) && t !in hits ==> g1 == g && g.counters == C[..|C| - 1] + ([c] + T))
  {
    var i := |C|;
    var c := C[i - 1];
    var t := c.target;
    var ps := g.projectiles;
    assert g.counters[i - 1] == c;
    assert RemoveAt(g.counters, i - 1) == C[..i - 1] + T;
    assert g.counters == C[..i - 1] + ([c] + T);
    if t in Ids(ps) && t in hits {
      IdsIndex(ps, t);
      var k := IndexOf(ps, t, 0);
      RemoveAtIsDrop(ps, k);
      DropDistinct(ps, {t});
    }
  }

  /** After the defence loop: exactly the chasers whose target is still in flight
      and out of reach remain, in their order. */
  lemma {:induction false} ResolveAllKeeps(g: Game, hits: set<nat>, C: seq<Counter>, T: seq<Counter>)
    requires g.counters == C + T && Distinct(g.projectiles)
    ensures ResolveAll(g, hits, |C|).counters == Keep(C, Ids(g.projectiles) - hits) + T
    decreases |C|
  {
    if |C| > 0 {
      var init := C[..|C| - 1];
      var c := C[|C| - 1];
      var t := c.target;
      var ps := g.projectiles;
      ResolveOneSplit(g, hits, C, T);
      var g1 := ResolveOne(g, hits, |C| - 1);
      if t !in Ids(ps) {
        ResolveAllKeeps(g1, hits, init, T);
      } else if t in hits {
        ResolveAllKeeps(g1, hits, init, T);
        DropIds(ps, {t});
        assert Ids(g1.projectiles) - hits == Ids(ps) - hits;
      } else {
        ResolveAllKeeps(g, hits, init, [c] + T);
      }
    }
  }

  /** After the defence loop: exactly the missiles caught by their chaser are gone. */
  lemma {:induction false} ResolveAllCatches(g: Game, hits: set<nat>, C: seq<Counter>, T: seq<Counter>)
    requires g.counters == C + T && Distinct(g.projectiles)
    ensures ResolveAll(g, hits, |C|).projectiles == Drop(g.projectiles, Targets(C) * hits)
    decreases |C|
  {
    var ps := g.projectiles;
    if |C| > 0 {
      var init := C[..|C| - 1];
      var c := C[|C| - 1];
      var t := c.target;
      ResolveOneSplit(g, hits, C, T);
      var g1 := ResolveOne(g, hits, |C| - 1);
      var x := Targets(init) * hits;
      if t !in Ids(ps) {
        ResolveAllCatches(g1, hits, init, T);
        if t in hits {
          assert Targets(C) * hits == {t} + x;
          DropAbsent(ps, {t});
          DropTwice(ps, {t}, x);
        } else {
          assert Targets(C) * hits == x;
        }
      } else if t in hits {
        ResolveAllCatches(g1, hits, init, T);
        assert Targets(C) * hits == {t} + x;
        DropTwice(ps, {t}, x);
      } else {
        ResolveAllCatches(g, hits, init, [c] + T);
        assert Targets(C) * hits == x;
      }
    } else {
      assert Targets(C) * hits == {};
      DropAbsent(ps, {});
    }
  }

  /** After the defence loop: the explosion was rewritten exactly when a chaser caught its target. */
  lemma {:induction false} ResolveAllBlasts(g: Game, hits: set<nat>, C: seq<Counter>, T: seq<Counter>)
    requires g.counters == C + T && Distinct(g.projectiles)
    ensures ResolveAll(g, hits, |C|).explosion ==
      (if Targets(C) * hits * Ids(g.projectiles) != {} then Some(NEW_BLAST) else g.explosion)
    decreases |C|
  {
    var ps := g.projectiles;
    if |C| > 0 {
      var init := C[..|C| - 1];
      var c := C[|C| - 1];
      var t := c.target;
      ResolveOneSplit(g, hits, C, T);
      var g1 := ResolveOne(g, hits, |C| - 1);
      if t !in Ids(ps) {
        ResolveAllBlasts(g1, hits, init, T);
        assert Targets(C) * hits * Ids(ps) == Targets(init) * hits * Ids(ps);
      } else if t in hits {
        ResolveAllBlasts(g1, hits, init, T);
        assert t in Targets(C) * hits * Ids(ps);
      } else {
        ResolveAllBlasts(g, hits, init, [c] + T);
        assert Targets(C) * hits * Ids(ps) == Targets(init) * hits * Ids(ps);
      }
    }
  }

  /** A whole frame that does not end the round, against the reference definitions:
      the survivors of the flight minus the caught missiles remain; the chasers
      whose target is alive and out of reach remain; each square takes the damage
      that landed on it; the explosion is fresh exactly when something landed or
      was caught, and otherwise has been drawn once more. */
  lemma TickMoves(g: Game, hits: set<nat>)
    requires g.gameOver || (g.leftHp > 0 && g.rightHp > 0)
    requires Distinct(g.projectiles)
    requires forall p :: p in g.projectiles ==> p.damage >= 0
    requires g.leftHp >= 0 && g.rightHp >= 0
    ensures var ps := g.projectiles;
      var S := Survivors(ps);
      var C1 := Spawned(ps, g.counters, g.defense);
      var f := Tick(g, hits);
      && f.game.projectiles == Drop(S, Targets(C1) * hits)
      && f.game.counters == Keep(C1, Ids(S) - hits)
      && f.game.leftHp == Clamp(g.leftHp, LandedDamage(ps, false))
      && f.game.rightHp == Clamp(g.rightHp, LandedDamage(ps, true))
      && f.game.defense == (g.defense || LastEligible(ps, g.counters).Some?)
      && f.game.explosion ==
           (if AnyLands(ps) || Targets(C1) * hits * Ids(S) != {} then Some(NEW_BLAST) else Decay(g.explosion))
  {
    var ps := g.projectiles;
    var g0 := g.(explosion := Decay(g.explosion));
    assert ps + [] == ps;
    AdvanceAllMoves(g0, ps, []);
    AdvanceAllDamages(g0, ps, [], true);
    AdvanceAllDamages(g0, ps, [], false);
    AdvanceAllBlasts(g0, ps, []);
    AdvanceAllDefends(g0, ps, []);
    var g1 := AdvanceAll(g0, |ps|);
    SurvivorsDistinct(ps);
    assert Survivors(ps) + [] == Survivors(ps);
    assert g1.counters + [] == g1.counters;
    ResolveAllKeeps(g1, hits, g1.counters, []);
    ResolveAllCatches(g1, hits, g1.counters, []);
    ResolveAllBlasts(g1, hits, g1.counters, []);
  }

  /** Each missile's fate on a frame that does not end the round: one that lands is
      gone for good; one that does not land and is not caught flies on exactly one
      step further; one that is caught is gone. */
  lemma TickFlight(g: Game, hits: set<nat>, p: Projectile)
    requires g.gameOver || (g.leftHp > 0 && g.rightHp > 0)
    requires Distinct(g.projectiles)
    requires forall q :: q in g.projectiles ==> q.damage >= 0
    requires g.leftHp >= 0 && g.rightHp >= 0
    requires p in g.projectiles
    ensures var f := Tick(g, hits);
      var caught := p.id in hits && p.id in Targets(Spawned(g.projectiles, g.counters, g.defense));
      && (Lands(p) || caught ==> p.id !in Ids(f.game.projectiles))
      && (!Lands(p) && !caught ==> Advance(p) in f.game.projectiles)
  {
    var ps := g.projectiles;
    var S := Survivors(ps);
    var C1 := Spawned(ps, g.counters, g.defense);
    TickMoves(g, hits);
    SurvivorsIds(ps, p);
    DropIds(S, Targets(C1) * hits);
    if !Lands(p) {
      SurvivorsMembers(ps, Advance(p));
      DropMembers(S, Targets(C1) * hits, Advance(p));
    }
  }
}
