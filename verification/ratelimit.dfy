/**
 The player's fire-rate policies. The big missile has a single-use gate that an
 interval timer reopens after 5000 ms; the small missile has a burst counter of
 at most ten shots, reset by a pause of more than 1500 ms, and a 2000 ms
 cooldown once the tenth shot is fired. Both cooldowns are driven by an
 interval that fires every 100 ms; each firing is one call of `Countdown`.
 */
module RateLimit {
  import opened Entities

  /** Period of the cooldown intervals, in ms. */
  const PERIOD: nat := 100
  const BIG_COOLDOWN: nat := 5000
  const SMALL_COOLDOWN: nat := 2000
  const MAX_SMALL_SHOTS: int := 10
  const SMALL_SHOT_INTERVAL: int := 1500

  /** One firing of a cooldown interval whose elapsed time was `elapsed`: the time
      grows by one period, and the interval clears itself (None) once the time
      reaches the duration. */
  function Countdown(elapsed: nat, duration: nat): (r: Option<nat>)
    ensures r.Some? ==> r.value == elapsed + PERIOD && r.value < duration
    ensures r.None? <==> elapsed + PERIOD >= duration
  {
    if elapsed + PERIOD >= duration then None else Some(elapsed + PERIOD)
  }

  /** A cooldown after `n` firings of its interval; a cleared interval fires no more. */
  function CountdownRun(t: Option<nat>, duration: nat, n: nat): Option<nat>
    decreases n
  {
    if n == 0 then t
    else match t
      case None => None
      case Some(e) => CountdownRun(Countdown(e, duration), duration, n - 1)
  }

  /** A running cooldown clears on the first firing at which its elapsed time
      reaches the duration, and not before. */
  lemma {:induction false} CountdownClears(e: nat, duration: nat, n: nat)
    requires e < duration
    ensures CountdownRun(Some(e), duration, n) == None <==> e + PERIOD * n >= duration
    ensures e + PERIOD * n < duration ==> CountdownRun(Some(e), duration, n) == Some(e + PERIOD * n)
    decreases n
  {
    if n > 0 {
      var c := Countdown(e, duration);
      if c.Some? {
        CountdownClears(e + PERIOD, duration, n - 1);
      } else {
        assert CountdownRun(Some(e), duration, n) == None;
      }
    }
  }

  /** The width of a cooldown bar: max(0, 100 - elapsed / duration * 100). */
  function Percent(elapsed: int, duration: int): (r: real)
    requires duration > 0
    ensures elapsed >= 0 ==> 0.0 <= r <= 100.0
    ensures elapsed >= duration <==> r == 0.0
  {
    var q := elapsed as real / duration as real;
    assert elapsed >= 0 ==> q >= 0.0;
    assert elapsed >= duration <==> q >= 1.0;
    var p := 100.0 - q * 100.0;
    if p < 0.0 then 0.0 else p
  }

  /** The bar never grows as the interval fires. */
  lemma PercentNonIncreasing(e1: int, e2: int, duration: int)
    requires duration > 0 && e1 <= e2
    ensures Percent(e2, duration) <= Percent(e1, duration)
  {
    var d := duration as real;
    assert e1 as real / d <= e2 as real / d by {
      assert e2 as real / d - e1 as real / d == (e2 - e1) as real / d;
    }
  }

  /** The big-missile bar after `n` firings of its interval, in whole percent. */
  lemma BigPercentSteps(n: nat)
    ensures Percent(PERIOD * n, BIG_COOLDOWN) == if n >= 50 then 0.0 else (100 - 2 * n) as real
  {
    assert (PERIOD * n) as real / BIG_COOLDOWN as real == n as real / 50.0;
  }

  /** The big-missile gate: None while the big missile may fire, else the elapsed
      time of the interval that will reopen it. */
  predicate GateOk(gate: Option<nat>)
  {
    gate.Some? ==> gate.value < BIG_COOLDOWN
  }

  /** The small-missile burst limiter: shots counted in the current burst, time
      of the last accepted shot, and the running cooldown, if any. */
  datatype Burst = Burst(count: int, last: int, cooldown: Option<nat>)

  const IDLE_BURST: Burst := Burst(0, 0, None)

  /** The limiter's invariant: the count never exceeds the cap, and the cooldown
      runs exactly when the cap has been reached. */
  predicate BurstOk(b: Burst)
  {
    && 0 <= b.count <= MAX_SMALL_SHOTS
    && (b.cooldown.Some? <==> b.count == MAX_SMALL_SHOTS)
    && (b.cooldown.Some? ==> b.cooldown.value < SMALL_COOLDOWN)
  }

  datatype SmallTry = SmallTry(fired: bool, burst: Burst)

  /** A small shot requested at time `now` (ms). */
  function TrySmall(b: Burst, now: int): (r: SmallTry)
    ensures r.fired <==> b.cooldown.None?
    ensures !r.fired ==> r.burst == b
    ensures r.fired ==> r.burst.last == now
    ensures r.fired && now - b.last > SMALL_SHOT_INTERVAL ==> r.burst.count == 1 && r.burst.cooldown.None?
    ensures r.fired && now - b.last <= SMALL_SHOT_INTERVAL ==> r.burst.count == b.count + 1
    ensures r.fired ==> (r.burst.cooldown.Some? <==> r.burst.count >= MAX_SMALL_SHOTS)
    ensures r.fired && r.burst.cooldown.Some? ==> r.burst.cooldown == Some(0)
    ensures BurstOk(b) ==> BurstOk(r.burst)
  {
    if b.cooldown.Some? then SmallTry(false, b)
    else
      var count := (if now - b.last > SMALL_SHOT_INTERVAL then 0 else b.count) + 1;
      SmallTry(true, Burst(count, now, if count >= MAX_SMALL_SHOTS then Some(0) else None))
  }

  /** One firing of the small cooldown's interval; when it clears, the burst count restarts at zero. */
  function SmallPeriod(b: Burst): (r: Burst)
    ensures b.cooldown.None? ==> r == b
    ensures r.last == b.last
    ensures b.cooldown.Some? ==> r.cooldown == Countdown(b.cooldown.value, SMALL_COOLDOWN)
    ensures b.cooldown.Some? && r.cooldown.Some? ==> r.count == b.count
    ensures b.cooldown.Some? && r.cooldown.None? ==> r.count == 0
    ensures BurstOk(b) ==> BurstOk(r)
  {
    match b.cooldown
    case None => b
    case Some(e) =>
      var c := Countdown(e, SMALL_COOLDOWN);
      if c.None? then Burst(0, b.last, None) else b.(cooldown := c)
  }

  /** The outcome of a run of small-shot requests with no cooldown firing in between. */
  datatype Salvo = Salvo(accepted: nat, burst: Burst)

  function FireAll(b: Burst, times: seq<int>): (r: Salvo)
    ensures r.accepted <= |times|
    decreases |times|
  {
    if |times| == 0 then Salvo(0, b)
    else
      var t := TrySmall(b, times[0]);
      var rest := FireAll(t.burst, times[1..]);
      Salvo((if t.fired then 1 else 0) + rest.accepted, rest.burst)
  }

  /** Each request comes at most SMALL_SHOT_INTERVAL after the one before (the
      first, after the last accepted shot). */
  predicate CloseGaps(last: int, times: seq<int>)
  {
    && (|times| > 0 ==> times[0] - last <= SMALL_SHOT_INTERVAL)
    && forall k :: 0 < k < |times| ==> times[k] - times[k - 1] <= SMALL_SHOT_INTERVAL
  }

  /** Within one burst, the limiter accepts exactly as many requests as the cap
      leaves, and the cooldown engages exactly when the cap is reached. */
  lemma {:induction false} BurstCap(b: Burst, times: seq<int>)
    requires BurstOk(b) && b.cooldown.None? && CloseGaps(b.last, times)
    ensures var left := MAX_SMALL_SHOTS - b.count;
      && FireAll(b, times).accepted == (if |times| < left then |times| else left)
      && (FireAll(b, times).burst.cooldown.Some? <==> |times| >= left)
      && (0 < |times| < left ==> FireAll(b, times).burst == Burst(b.count + |times|, times[|times| - 1], None))
    decreases |times|
  {
    if |times| > 0 {
      var t := TrySmall(b, times[0]);
      var rest := times[1..];
      if t.burst.cooldown.None? {
        assert CloseGaps(times[0], rest) by {
          forall k | 0 < k < |rest|
            ensures rest[k] - rest[k - 1] <= SMALL_SHOT_INTERVAL
          {
            assert rest[k] == times[k + 1] && rest[k - 1] == times[k];
          }
          if |rest| > 0 {
            assert rest[0] == times[1];
          }
        }
        assert times[0] - b.last <= SMALL_SHOT_INTERVAL;
        assert t.fired && t.burst == Burst(b.count + 1, times[0], None);
        assert FireAll(b, times) == Salvo(1 + FireAll(t.burst, rest).accepted, FireAll(t.burst, rest).burst);
        BurstCap(t.burst, rest);
        if |rest| > 0 {
          assert times[|times| - 1] == rest[|rest| - 1];
        }
      } else {
        StaysBlocked(t.burst, rest);
      }
    }
  }

  /** While the cooldown runs, every small-shot request is ignored. */
  lemma {:induction false} StaysBlocked(b: Burst, times: seq<int>)
    requires b.cooldown.Some?
    ensures FireAll(b, times) == Salvo(0, b)
    decreases |times|
  {
    if |times| > 0 {
      StaysBlocked(b, times[1..]);
    }
  }

  /** The first request on an idle limiter always fires and opens a burst of one,
      whatever the clock reads; the rest of the run continues from there. */
  lemma FirstShot(times: seq<int>)
    requires |times| > 0 && CloseGaps(times[0], times)
    ensures var b1 := Burst(1, times[0], None);
      && FireAll(IDLE_BURST, times) == Salvo(1 + FireAll(b1, times[1..]).accepted, FireAll(b1, times[1..]).burst)
      && BurstOk(b1) && CloseGaps(times[0], times[1..])
  {
    var rest := times[1..];
    forall k | 0 < k < |rest|
      ensures rest[k] - rest[k - 1] <= SMALL_SHOT_INTERVAL
    {
      assert rest[k] == times[k + 1] && rest[k - 1] == times[k];
    }
    if |rest| > 0 {
      assert rest[0] == times[1];
    }
  }

  /** A pause longer than SMALL_SHOT_INTERVAL starts a new burst: five quick shots,
      a pause, and another shot leave the limiter open with a count of one. */
  lemma PauseResetsBurst(times: seq<int>, later: int)
    requires |times| == 5 && CloseGaps(times[0], times)
    requires later - times[4] > SMALL_SHOT_INTERVAL
    ensures FireAll(IDLE_BURST, times + [later]).accepted == 6
    ensures FireAll(IDLE_BURST, times + [later]).burst == Burst(1, later, None)
  {
    FirstShot(times);
    BurstCap(Burst(1, times[0], None), times[1..]);
    assert times[1..][3] == times[4];
    SplitFire(IDLE_BURST, times, later);
  }

  /** Ten quick shots engage the cooldown and an eleventh is ignored. */
  lemma TenthShotBlocks(times: seq<int>)
    requires |times| == 11 && CloseGaps(times[0], times)
    ensures FireAll(IDLE_BURST, times).accepted == 10
    ensures FireAll(IDLE_BURST, times).burst.cooldown.Some?
  {
    FirstShot(times);
    BurstCap(Burst(1, times[0], None), times[1..]);
  }

  lemma {:induction false} SplitFire(b: Burst, times: seq<int>, later: int)
    ensures var first := FireAll(b, times);
      var t := TrySmall(first.burst, later);
      FireAll(b, times + [later]) == Salvo(first.accepted + (if t.fired then 1 else 0), t.burst)
    decreases |times|
  {
    if |times| > 0 {
      var t := TrySmall(b, times[0]);
      assert (times + [later])[1..] == times[1..] + [later];
      SplitFire(t.burst, times[1..], later);
    } else {
      assert (times + [later])[1..] == [];
    }
  }
}
