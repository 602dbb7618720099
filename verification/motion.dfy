/**
 The flight of a missile, with positions abstracted away. A missile's progress
 is t = step / 50: every frame adds one step (0.02 of the flight), and the
 missile lands on the frame its step reaches 50. The horizontal position is
 linear in t, so the defence line x < 500 that a player missile must cross
 before a defence missile is launched is a condition on the step alone.
 */
module Motion {
  import opened Entities

  /** Frames a missile flies: t grows by 1/STEPS per frame. */
  const STEPS: nat := 50

  /** The inner edge of the left square (its x plus its size) and the x of the right square. */
  const LEFT_EDGE: int := 70
  const RIGHT_EDGE: int := 730

  /** A player missile beyond this x (towards the left square) can be intercepted. */
  const DEFENSE_LINE: int := 500

  /** The missile after one more frame of flight. */
  function Advance(p: Projectile): (q: Projectile)
    ensures q.id == p.id && q.fromLeft == p.fromLeft && q.damage == p.damage && q.size == p.size
    ensures q.step == p.step + 1
  {
    p.(step := p.step + 1)
  }

  /** The missile reaches t >= 1 on this frame. */
  predicate Lands(p: Projectile)
  {
    p.step + 1 >= STEPS
  }

  /** A player missile at `step` has x = RIGHT_EDGE - (RIGHT_EDGE - LEFT_EDGE) * step / STEPS;
      this is x < DEFENSE_LINE, multiplied through by STEPS. */
  predicate PastDefenseLine(step: nat)
  {
    RIGHT_EDGE * STEPS - (RIGHT_EDGE - LEFT_EDGE) * step < DEFENSE_LINE * STEPS
  }

  /** The defence line is crossed from the 18th frame of flight on. */
  lemma DefenseLineStep(step: nat)
    ensures PastDefenseLine(step) <==> step >= 18
  {
  }

  /** The missiles still in flight after one frame of motion, each one step further,
      in their order; those that land are gone. */
  function Survivors(ps: seq<Projectile>): (r: seq<Projectile>)
    ensures |r| <= |ps|
  {
    if |ps| == 0 then []
    else
      var last := ps[|ps| - 1];
      Survivors(ps[..|ps| - 1]) + (if Lands(last) then [] else [Advance(last)])
  }

  /** Total damage carried by the missiles of one side that land on this frame. */
  function LandedDamage(ps: seq<Projectile>, fromLeft: bool): (d: int)
    ensures (forall p :: p in ps ==> p.damage >= 0) ==> d >= 0
  {
    if |ps| == 0 then 0
    else
      var last := ps[|ps| - 1];
      assert forall p :: p in ps[..|ps| - 1] ==> p in ps;
      LandedDamage(ps[..|ps| - 1], fromLeft) + (if Lands(last) && last.fromLeft == fromLeft then last.damage else 0)
  }

  /** Some missile lands on this frame. */
  predicate AnyLands(ps: seq<Projectile>)
  {
    exists p :: p in ps && Lands(p)
  }

  /** A missile for which the defence would launch a counter, cooldown permitting:
      a player missile past the defence line (after this frame's step) that no
      defence missile chases yet. */
  predicate Eligible(p: Projectile, cs: seq<Counter>)
  {
    !p.fromLeft && PastDefenseLine(p.step + 1) && p.id !in Targets(cs)
  }

  /** The missile the defence picks when it is free: the list is walked from its
      end, so the eligible missile nearest the end is chosen. */
  function LastEligible(ps: seq<Projectile>, cs: seq<Counter>): (r: Option<nat>)
    ensures r.Some? ==>
      exists j :: 0 <= j < |ps| && Eligible(ps[j], cs) && ps[j].id == r.value
                   && (forall k :: j < k < |ps| ==> !Eligible(ps[k], cs))
    ensures r.None? <==> forall j :: 0 <= j < |ps| ==> !Eligible(ps[j], cs)
  {
    if |ps| == 0 then None
    else if Eligible(ps[|ps| - 1], cs) then Some(ps[|ps| - 1].id)
    else
      var init := ps[..|ps| - 1];
      var r := LastEligible(init, cs);
      assert forall j :: 0 <= j < |ps| - 1 ==> init[j] == ps[j];
      assert r.Some? ==> exists j :: 0 <= j < |ps| && Eligible(ps[j], cs) && ps[j].id == r.value && (forall k :: j < k < |ps| ==> !Eligible(ps[k], cs)) by {
        if r.Some? {
          var j :| 0 <= j < |init| && Eligible(init[j], cs) && init[j].id == r.value && (forall k :: j < k < |init| ==> !Eligible(init[k], cs));
          assert forall k :: j < k < |ps| ==> !Eligible(ps[k], cs);
        }
      }
      r
  }

  /** A missile survives the frame exactly when it does not land, and then it is one step further. */
  lemma {:induction false} SurvivorsMembers(ps: seq<Projectile>, q: Projectile)
    ensures q in Survivors(ps) <==> exists p :: p in ps && !Lands(p) && q == Advance(p)
  {
    if |ps| > 0 {
      var init := ps[..|ps| - 1];
      var last := ps[|ps| - 1];
      SurvivorsMembers(init, q);
      assert ps == init + [last];
      if exists p :: p in ps && !Lands(p) && q == Advance(p) {
        var p :| p in ps && !Lands(p) && q == Advance(p);
        if p != last {
          assert p in init;
        }
      }
    }
  }

  /** Motion keeps identities: the survivors carry identities of the list, still distinct. */
  lemma {:induction false} SurvivorsDistinct(ps: seq<Projectile>)
    requires Distinct(ps)
    ensures Ids(Survivors(ps)) <= Ids(ps)
    ensures Distinct(Survivors(ps))
  {
    if |ps| > 0 {
      var init := ps[..|ps| - 1];
      var last := ps[|ps| - 1];
      SurvivorsDistinct(init);
      if !Lands(last) {
        DistinctAppendOne(Survivors(init), Advance(last));
      } else {
        assert Survivors(ps) == Survivors(init);
      }
    }
  }

  /** A missile of a list with distinct identities is still in flight after the
      frame exactly when it does not land: landing removes it for good. */
  lemma {:induction false} SurvivorsIds(ps: seq<Projectile>, p: Projectile)
    requires Distinct(ps) && p in ps
    ensures p.id in Ids(Survivors(ps)) <==> !Lands(p)
  {
    var init := ps[..|ps| - 1];
    var last := ps[|ps| - 1];
    SurvivorsDistinct(init);
    var tail := if Lands(last) then [] else [Advance(last)];
    IdsAppend(Survivors(init), tail);
    assert ps == init + [last];
    if p != last {
      assert p in init;
      IdsMember(init, p);
      SurvivorsIds(init, p);
    }
  }
}
