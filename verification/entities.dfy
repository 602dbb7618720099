/**
 The plain records of the battle: the two squares' hit points, the missiles
 in flight, the defence missiles chasing them and the single explosion slot.
 Positions are not kept: a missile's place on its arc is a function of its
 progress, and a defence missile's place only matters through the collision
 oracle of the frame update.
 */
module Entities {

  datatype Option<T> = None | Some(value: T)

  /** Hit points each square starts a round with. */
  const MAX_HP: int := 100

  /** The two missile tiers: a small missile and a big one. */
  const SMALL_DAMAGE: int := 5
  const SMALL_SIZE: int := 10
  const BIG_DAMAGE: int := 10
  const BIG_SIZE: int := 20

  /** A missile in flight. `step` counts the frames flown: its progress is step / 50.
      `fromLeft` marks the enemy (left square) missiles; the player's fly from the right.
      `id` stands for the object identity the program compares with `===`. */
  datatype Projectile = Projectile(id: nat, damage: int, size: int, step: nat, fromLeft: bool)

  /** A defence missile; it remembers only which missile it chases. */
  datatype Counter = Counter(target: nat)

  /** The explosion effect; its position is left out. */
  datatype Explosion = Explosion(radius: int, frames: int)

  /** A fresh explosion, as written on impact and on interception. */
  const NEW_BLAST: Explosion := Explosion(10, 10)

  predicate IsTier(damage: int, size: int)
  {
    (damage == SMALL_DAMAGE && size == SMALL_SIZE) || (damage == BIG_DAMAGE && size == BIG_SIZE)
  }

  /** The damage rule of one impact: a square still standing loses `damage`
      hit points, but never drops below zero; a square at zero is left alone. */
  function Hit(hp: int, damage: int): (r: int)
    ensures hp >= 0 && damage >= 0 ==> 0 <= r <= hp
    ensures hp <= 0 ==> r == hp
    ensures hp > 0 ==> r >= 0
    ensures hp > 0 && damage >= 0 ==> r == Clamp(hp, damage)
  {
    if hp > 0 then (if hp - damage < 0 then 0 else hp - damage) else hp
  }

  /** Hit points left after `total` damage in one go, floored at zero. */
  function Clamp(hp: int, total: int): int
  {
    if hp - total < 0 then 0 else hp - total
  }

  /** Two impacts in sequence leave what their summed damage leaves at once. */
  lemma HitThenClamp(hp: int, d: int, rest: int)
    requires hp >= 0 && d >= 0 && rest >= 0
    ensures Clamp(Hit(hp, d), rest) == Clamp(hp, d + rest)
  {
  }

  /** One drawing of the explosion: while frames remain, it grows by 2 and loses a frame. */
  function Decay(e: Option<Explosion>): (r: Option<Explosion>)
    ensures r.None? <==> e.None?
    ensures e.Some? && BlastOk(e.value) ==> BlastOk(r.value) && r.value.frames <= e.value.frames
    ensures e.Some? && e.value.frames > 0 ==> r.value.frames == e.value.frames - 1
    ensures e.Some? && e.value.frames <= 0 ==> r == e
  {
    match e
    case None => None
    case Some(x) => if x.frames > 0 then Some(Explosion(x.radius + 2, x.frames - 1)) else e
  }

  /** The shape every explosion keeps: at most ten frames left, and a radius
      grown by 2 for every frame already drawn. */
  predicate BlastOk(x: Explosion)
  {
    0 <= x.frames <= 10 && x.radius == 10 + 2 * (10 - x.frames)
  }

  /** The explosion after `n` frames have been drawn. */
  function DecayTimes(e: Option<Explosion>, n: nat): Option<Explosion>
    decreases n
  {
    if n == 0 then e else DecayTimes(Decay(e), n - 1)
  }

  /** An explosion is drawn for as many frames as it has left, and then stays
      spent at radius 30; it is never cleared by drawing. */
  lemma {:induction false} BlastFades(x: Explosion, n: nat)
    requires BlastOk(x)
    ensures n >= x.frames ==> DecayTimes(Some(x), n) == Some(Explosion(30, 0))
    ensures n < x.frames ==> DecayTimes(Some(x), n).Some? && BlastOk(DecayTimes(Some(x), n).value)
    ensures n < x.frames ==> DecayTimes(Some(x), n).value.frames == x.frames - n
    decreases n
  {
    if n == 0 {
      assert DecayTimes(Some(x), n) == Some(x);
    } else {
      var d := Decay(Some(x));
      assert DecayTimes(Some(x), n) == DecayTimes(d, n - 1);
      if x.frames == 0 {
        assert d == Some(x);
        BlastFades(x, n - 1);
      } else {
        var y := Explosion(x.radius + 2, x.frames - 1);
        assert d == Some(y);
        BlastFades(y, n - 1);
      }
    }
  }

  function RemoveAt<T>(s: seq<T>, k: nat): (r: seq<T>)
    requires k < |s|
    ensures |r| == |s| - 1
  {
    s[..k] + s[k + 1..]
  }

  /** The identities of the missiles in a list. */
  function Ids(ps: seq<Projectile>): set<nat>
  {
    if |ps| == 0 then {} else Ids(ps[..|ps| - 1]) + {ps[|ps| - 1].id}
  }

  /** The missiles chased by some defence missile in a list. */
  function Targets(cs: seq<Counter>): set<nat>
  {
    if |cs| == 0 then {} else Targets(cs[..|cs| - 1]) + {cs[|cs| - 1].target}
  }

  /** No two missiles share an identity. */
  predicate Distinct(ps: seq<Projectile>)
  {
    |ps| == 0 || (Distinct(ps[..|ps| - 1]) && ps[|ps| - 1].id !in Ids(ps[..|ps| - 1]))
  }

  /** No missile is chased by two defence missiles. */
  predicate DistinctTargets(cs: seq<Counter>)
  {
    |cs| == 0 || (DistinctTargets(cs[..|cs| - 1]) && cs[|cs| - 1].target !in Targets(cs[..|cs| - 1]))
  }

  /** The missiles whose identity is not in `gone`, in their order. */
  function Drop(ps: seq<Projectile>, gone: set<nat>): seq<Projectile>
  {
    if |ps| == 0 then []
    else Drop(ps[..|ps| - 1], gone) + (if ps[|ps| - 1].id in gone then [] else [ps[|ps| - 1]])
  }

  /** The defence missiles whose target is in `live`, in their order. */
  function Keep(cs: seq<Counter>, live: set<nat>): seq<Counter>
  {
    if |cs| == 0 then []
    else Keep(cs[..|cs| - 1], live) + (if cs[|cs| - 1].target in live then [cs[|cs| - 1]] else [])
  }

  lemma {:induction false} IdsIndex(ps: seq<Projectile>, x: nat)
    ensures x in Ids(ps) <==> exists j :: 0 <= j < |ps| && ps[j].id == x
  {
    if |ps| > 0 {
      var init := ps[..|ps| - 1];
      IdsIndex(init, x);
      if x in Ids(init) {
        var j :| 0 <= j < |init| && init[j].id == x;
        assert ps[j].id == x;
      }
      if j :| 0 <= j < |ps| && ps[j].id == x {
        if j < |init| {
          assert init[j].id == x;
        }
      }
    }
  }

  lemma {:induction false} IdsMember(ps: seq<Projectile>, p: Projectile)
    requires p in ps
    ensures p.id in Ids(ps)
  {
    var j :| 0 <= j < |ps| && ps[j] == p;
    IdsIndex(ps, p.id);
  }

  lemma {:induction false} IdsAppend(ps: seq<Projectile>, qs: seq<Projectile>)
    ensures Ids(ps + qs) == Ids(ps) + Ids(qs)
    decreases |qs|
  {
    if |qs| > 0 {
      var s := ps + qs;
      assert s[..|s| - 1] == ps + qs[..|qs| - 1];
      IdsAppend(ps, qs[..|qs| - 1]);
    } else {
      assert ps + qs == ps;
    }
  }

  lemma {:induction false} DistinctAppendOne(ps: seq<Projectile>, p: Projectile)
    requires Distinct(ps) && p.id !in Ids(ps)
    ensures Distinct(ps + [p]) && Ids(ps + [p]) == Ids(ps) + {p.id}
  {
    assert (ps + [p])[..|ps|] == ps;
  }

  /** Dropping missiles removes exactly their identities. */
  lemma {:induction false} DropIds(ps: seq<Projectile>, gone: set<nat>)
    ensures Ids(Drop(ps, gone)) == Ids(ps) - gone
  {
    if |ps| > 0 {
      var init := ps[..|ps| - 1];
      var last := ps[|ps| - 1];
      DropIds(init, gone);
      var tail := if last.id in gone then [] else [last];
      IdsAppend(Drop(init, gone), tail);
    }
  }

  /** Every missile kept by `Drop` was in the list and is not gone, and conversely. */
  lemma {:induction false} DropMembers(ps: seq<Projectile>, gone: set<nat>, p: Projectile)
    ensures p in Drop(ps, gone) <==> p in ps && p.id !in gone
  {
    if |ps| > 0 {
      var init := ps[..|ps| - 1];
      DropMembers(init, gone, p);
      assert ps == init + [ps[|ps| - 1]];
    }
  }

  lemma {:induction false} DropDistinct(ps: seq<Projectile>, gone: set<nat>)
    requires Distinct(ps)
    ensures Distinct(Drop(ps, gone))
  {
    if |ps| > 0 {
      var init := ps[..|ps| - 1];
      var last := ps[|ps| - 1];
      DropDistinct(init, gone);
      if last.id !in gone {
        DropIds(init, gone);
        DistinctAppendOne(Drop(init, gone), last);
      } else {
        assert Drop(ps, gone) == Drop(init, gone);
      }
    }
  }

  /** Dropping in two rounds is dropping the union. */
  lemma {:induction false} DropTwice(ps: seq<Projectile>, a: set<nat>, b: set<nat>)
    ensures Drop(Drop(ps, a), b) == Drop(ps, a + b)
  {
    if |ps| > 0 {
      var init := ps[..|ps| - 1];
      var last := ps[|ps| - 1];
      DropTwice(init, a, b);
      var d := Drop(init, a);
      if last.id in a {
        assert Drop(ps, a) == d;
      } else {
        var s := d + [last];
        assert s[..|s| - 1] == d;
      }
    }
  }

  /** Identities not present in the list drop nothing. */
  lemma {:induction false} DropAbsent(ps: seq<Projectile>, gone: set<nat>)
    requires gone !! Ids(ps)
    ensures Drop(ps, gone) == ps
  {
    if |ps| > 0 {
      var init := ps[..|ps| - 1];
      DropAbsent(init, gone);
      assert ps == init + [ps[|ps| - 1]];
    }
  }

  /** The search of `Array.prototype.indexOf`: the first position holding `id`, or -1. */
  function IndexOf(ps: seq<Projectile>, id: nat, from: nat): (k: int)
    requires from <= |ps|
    ensures -1 <= k < |ps|
    ensures k >= 0 ==> from <= k && ps[k].id == id
    ensures k >= 0 ==> forall j :: from <= j < k ==> ps[j].id != id
    ensures k == -1 <==> forall j :: from <= j < |ps| ==> ps[j].id != id
    decreases |ps| - from
  {
    if from == |ps| then -1
    else if ps[from].id == id then from
    else IndexOf(ps, id, from + 1)
  }

  /** Splicing out the one missile holding an identity is dropping that identity. */
  lemma {:induction false} RemoveAtIsDrop(ps: seq<Projectile>, k: nat)
    requires Distinct(ps) && k < |ps|
    ensures RemoveAt(ps, k) == Drop(ps, {ps[k].id})
  {
    var init := ps[..|ps| - 1];
    var last := ps[|ps| - 1];
    var t := ps[k].id;
    if k == |ps| - 1 {
      DropAbsent(init, {t});
      assert RemoveAt(ps, k) == init;
    } else {
      assert init[k] == ps[k];
      IdsIndex(init, t);
      RemoveAtIsDrop(init, k);
      assert RemoveAt(ps, k) == RemoveAt(init, k) + [last];
    }
  }

  lemma {:induction false} TargetsAppend(cs: seq<Counter>, c: Counter)
    ensures Targets(cs + [c]) == Targets(cs) + {c.target}
  {
    assert (cs + [c])[..|cs|] == cs;
  }

  /** Keeping the defence missiles with a live target keeps exactly those targets. */
  lemma {:induction false} KeepTargets(cs: seq<Counter>, live: set<nat>)
    ensures Targets(Keep(cs, live)) == Targets(cs) * live
  {
    if |cs| > 0 {
      var init := cs[..|cs| - 1];
      var last := cs[|cs| - 1];
      KeepTargets(init, live);
      if last.target in live {
        TargetsAppend(Keep(init, live), last);
      } else {
        assert Keep(cs, live) == Keep(init, live);
      }
    }
  }

  lemma {:induction false} KeepDistinct(cs: seq<Counter>, live: set<nat>)
    requires DistinctTargets(cs)
    ensures DistinctTargets(Keep(cs, live))
  {
    if |cs| > 0 {
      var init := cs[..|cs| - 1];
      var last := cs[|cs| - 1];
      KeepDistinct(init, live);
      KeepTargets(init, live);
      if last.target in live {
        var s := Keep(init, live) + [last];
        assert s[..|s| - 1] == Keep(init, live);
      } else {
        assert Keep(cs, live) == Keep(init, live);
      }
    }
  }

  lemma {:induction false} DistinctTargetsAppend(cs: seq<Counter>, c: Counter)
    requires DistinctTargets(cs) && c.target !in Targets(cs)
    ensures DistinctTargets(cs + [c]) && Targets(cs + [c]) == Targets(cs) + {c.target}
  {
    assert (cs + [c])[..|cs|] == cs;
  }
}
