# MissileWar game core in Dafny

This project models the game state of MissileWar (`game.js`) and proves properties of it. The game is a two-square battle on a canvas. The player's blue square on the right fires small and big missiles at the enemy's red square on the left. The enemy fires back in random volleys. A defence battery on the left launches homing counter-missiles at player missiles that cross the defence line.

The model is one immutable `Game` record (`GameState.Game`) with these parts:

- both squares' hit points;
- the missiles in flight;
- the defence missiles;
- the single explosion slot;
- the three cooldowns;
- the round-over flag;
- the two fire buttons' enabled flags.

Pure functions move the record from one state to the next:

- `Simulation.Tick` is one animation frame. It models `update` without its drawing.
- `GameState.HandleSmall` and `GameState.HandleBig` are the button handlers.
- `GameState.EnemyLaunch` and `GameState.Volley` model `enemyAutoShoot`.
- `GameState.BigTimer`, `GameState.SmallTimer` and `GameState.DefenseTimer` are the timer callbacks.
- `Simulation.Restart` models `restartGame`.

`Invariants.Step` runs all of these as one event-driven state machine. `Invariants.Valid` is the invariant that every reachable state keeps.

Abstractions:

- **Progress.** A missile's progress `t` is kept as an integer step count out of 50, so `t = step / 50`. Each frame adds one step, which is the program's `t += 0.02`. The missile lands on the frame where the step reaches 50.
- **Defence line.** A player missile's x is linear in `t`: `x = 730 - 660 t`. So the defence line `x < 500` is the step condition `step >= 18` (`Motion.DefenseLineStep`).
- **Identity.** The program compares missiles by identity (`cp.target === p`, `projectiles.includes`). The model gives each missile a fresh `id` instead.
- **Collision.** The distance test of a defence missile is replaced by an oracle argument of the frame. `hits` is the set of missiles whose chaser is within collision distance on that frame.
- **Timers.** Each callback of `setTimeout` or `setInterval` is an event. This covers the 100 ms cooldown intervals and the 1000 ms defence timeout. When each event happens is left to the environment.
- **Inputs.** The clock (`Date.now`) and the random draws (`Math.random`) are arguments.

Module layout:

- `entities.dfy`: records, the damage rule, explosion decay, and list helpers over identities.
- `motion.dfy`: flight steps, landing, the defence line, and reference definitions of one frame's motion.
- `ratelimit.dfy`: the big gate, the small burst limiter, the cooldown countdown and the bar percentage.
- `game.dfy`: the game record, the handlers, enemy launches and the timers.
- `simulation.dfy`: the frame (`Tick`) and restart.
- `frameprops.dfy`: what a frame does, stated against the reference definitions.
- `invariants.dfy`: the event machine, the invariant and reachability.
- `findings.dfy`: the button re-enabling discovered below.

## Model

| member | source | states |
|---|---|---|
| Entities.Hit | game.js:147-148 | Damage is applied only to a square above zero. There it leaves exactly max(0, hp - damage), the floored subtraction `Clamp`. A square at zero or below is left unchanged, and from a non-negative value hit points never rise. |
| Entities.HitThenClamp | game.js:177-178 | Two impacts in sequence leave exactly what one impact of their summed damage leaves, floored at zero. So the order in which landings are processed cannot matter. |
| Entities.Decay | game.js:62-71 | Drawing the explosion keeps its shape (radius 10 plus 2 per frame drawn). It uses up one frame while frames remain and leaves a spent explosion as it is. It never clears the slot. |
| Entities.BlastFades | game.js:62-71 | An explosion is drawn for exactly as many frames as it has left. It then stays spent at radius 30 with 0 frames. |
| Entities.IndexOf | game.js:202 | The search returns the first position holding the identity. It returns -1 exactly when no missile holds it. |
| Entities.RemoveAtIsDrop | game.js:203 | With distinct identities, splicing out the found position removes exactly the missile with that identity and keeps the others in order. |
| Entities.DropIds | game.js:203 | Removing a set of missiles removes exactly their identities from the list. |
| Entities.KeepTargets | game.js:189-191 | Keeping the chasers whose target is live keeps exactly the live targets. |
| Motion.DefenseLineStep | game.js:154-160 | A player missile is past x < 500 exactly from its 18th frame of flight on. |
| Motion.Advance | game.js:136 | One frame of flight adds one step (0.02 of progress) and keeps the missile's identity, side, damage and size. |
| Motion.Lands | game.js:144 | A missile lands on the frame its progress reaches 1, that is when its step after this frame reaches 50. Player missiles land by the same test at line 175. |
| Motion.Eligible | game.js:160 | A defence missile may be launched for a player missile that is past x < 500 after this frame's step and that no defence missile chases yet. |
| Motion.LastEligible | game.js:134-160 | The defence picks a player missile that is past the line and not yet chased. Because the loop walks the list from its end, the choice is the qualifying missile with the highest index: none after it qualifies. The result is None exactly when no missile in the list qualifies. |
| Motion.LandedDamage | game.js:144-150 | The damage landing on a square in one frame is never negative when missile damages are not. |
| Motion.SurvivorsMembers | game.js:134-136 | A missile is in flight after the motion step exactly when it did not land, and it is then exactly one step further. |
| Motion.SurvivorsIds | game.js:144-150 | A missile that lands on this frame is gone from the list for good. One that does not land is still there. |
| Motion.SurvivorsDistinct | game.js:134-183 | Motion keeps missile identities distinct and adds none. |
| RateLimit.CountdownClears | game.js:257-267 | A running cooldown clears on the first firing of its 100 ms interval at which the elapsed time reaches the duration, and not earlier. Until then it has counted 100 ms per firing. |
| RateLimit.Countdown | game.js:258-263 | One firing adds 100 ms to the elapsed time. The cooldown clears exactly when the new elapsed time reaches the duration; otherwise it holds exactly that time. The small interval counts the same way at lines 285-290. |
| RateLimit.Percent | game.js:259 | The bar percentage stays in [0, 100]. It is 0 exactly when the elapsed time has reached the duration. |
| RateLimit.PercentNonIncreasing | game.js:286 | The bar percentage never grows as time passes. |
| RateLimit.BigPercentSteps | game.js:258-260 | After n firings of the big interval, the bar shows 100 - 2n percent, and 0 from the 50th firing on. |
| RateLimit.TrySmall | game.js:270-282 | A small shot is refused exactly during the cooldown, and then nothing changes. A gap of more than 1500 ms starts a new burst at 1; otherwise the count grows by one. The shot that brings the count to 10 starts the cooldown at elapsed time 0. The limiter invariant (count in [0, 10], cooldown exactly at 10) is kept. |
| RateLimit.SmallPeriod | game.js:284-295 | A firing of the small interval advances the cooldown by one `Countdown` step of 100 ms towards 2000 ms. While the cooldown runs, the count is unchanged; when it ends, the count is back to 0. The limiter invariant is kept. |
| RateLimit.BurstCap | game.js:272-278 | Within one burst (gaps of at most 1500 ms), the limiter accepts exactly min(requests, 10 - count) shots. The cooldown engages exactly when the cap is reached. |
| RateLimit.StaysBlocked | game.js:272 | While the small cooldown runs, every request is ignored. |
| RateLimit.FirstShot | game.js:271-276 | The first click on the initial limiter always fires and opens a burst of one at the click's time, whatever the clock reads. `lastSmallShotTime` starts at 0, so either branch of the gap test gives a count of 1. |
| RateLimit.PauseResetsBurst | game.js:271-276 | From the initial limiter, whatever the clock reads at the first click: five shots at most 1500 ms apart, then a pause of more than 1500 ms, then one more shot. All six are accepted, and the limiter is left open with a count of 1. |
| RateLimit.TenthShotBlocks | game.js:271-278 | From the initial limiter, whatever the clock reads at the first click: of eleven shots at most 1500 ms apart, exactly ten are accepted and the cooldown is engaged. |
| GameState.Shoot | game.js:223-246 | A launch appends one missile at progress 0 with the given damage, size and side, under a new identity. The rest of the game is unchanged. |
| GameState.ShootFresh | game.js:226-244 | The new missile's identity differs from every missile in flight. |
| GameState.HandleSmall | game.js:270-283 | During the small cooldown, a click changes nothing. Otherwise the missiles in flight are kept and one small (5/10) player missile is appended at progress 0 under the next identity. The limiter counts the shot, and the button goes off exactly when the cooldown engages. No other part of the game changes. |
| GameState.HandleBig | game.js:248-256 | While the big gate is closed, a click changes nothing. Otherwise the missiles in flight are kept and one big (10/20) player missile is appended at progress 0 under the next identity. The gate and the button close at once, and no other part of the game changes. |
| GameState.EnemyLaunch | game.js:306-311 | An enemy launch keeps the missiles in flight and appends one left-side missile at progress 0, of the tier asked for, under the next identity. It happens whatever the state of the round, and no other part of the game changes. |
| GameState.VolleySize | game.js:302 | A volley has between 1 and 4 missiles. |
| GameState.Volley | game.js:300-316 | A volley keeps the missiles in flight, appends one missile per choice, and hands out one identity per missile. No other part of the game changes. |
| GameState.VolleyBounds | game.js:302-314 | A volley of the drawn size adds between 1 and 4 enemy missiles, each at progress 0 and of a known tier, and changes nothing else. |
| GameState.VolleyLaunches | game.js:300-316 | A volley appends exactly its missiles in launch order: enemy missiles at progress 0, with consecutive new identities and the chosen tiers. |
| GameState.BigTimer | game.js:257-267 | Every firing of the big interval advances the gate by one `Countdown` step of 100 ms towards 5000 ms, whether or not the round is over. It changes only the gate and the button, and it never enables the button once the round is over. |
| GameState.SmallTimer | game.js:284-295 | Every firing of the small interval advances the limiter by exactly one `SmallPeriod` step, whether or not the round is over, and keeps the limiter invariant. It changes only the limiter and the button, and it never enables the button once the round is over. |
| GameState.BigGateReopens | game.js:248-267 | After a big shot, the gate stays closed for exactly 50 firings of the 100 ms interval. After 49, a second big shot is ignored. After 50, it is accepted once and the gate closes again. |
| GameState.BigTimerRunFollows | game.js:257-267 | While the round runs, the gate follows its countdown, and the button is enabled exactly when the gate is open. |
| GameState.SmallTimerRunFollows | game.js:284-295 | While the round runs, the small cooldown follows its countdown. The button is enabled exactly when the cooldown has cleared, and the count is then 0. |
| GameState.SmallCooldownLasts | game.js:276-295 | The tenth quick small shot starts the cooldown at 0 and disables the button. The cooldown lasts exactly 20 firings of the 100 ms interval: after 19, a click is ignored. After 20, the count is 0, the button is on and the next click is accepted. |
| GameState.BigTimerAsWritten | game.js:261-265 | As written, the big interval's last firing enables the button whatever the state of the round. |
| GameState.SmallTimerAsWritten | game.js:288-293 | As written, the small interval's last firing enables the button whatever the state of the round. |
| GameState.DefenseTimer | game.js:172 | The defence timeout frees the defence and changes nothing else. |
| Simulation.AdvanceOne | game.js:134-182 | One turn of the missile loop leaves the missiles before the current index alone. It changes only the missiles, the defence missiles, the defence flag, the explosion and the hit points. |
| Simulation.AdvanceAll | game.js:134-183 | The missile loop changes only the missiles, the defence missiles, the defence flag, the explosion and the hit points. `FrameProps.AdvanceAllMoves`, `AdvanceAllDamages`, `AdvanceAllBlasts` and `AdvanceAllDefends` state what it does to them. |
| Simulation.Spawned | game.js:159-173 | A frame launches at most one defence missile, and only when the defence is free. A launched one chases a player missile that is past the line and not yet chased, and no later missile in the list qualifies. None is launched exactly when the defence is busy or no missile qualifies. |
| Simulation.ResolveOne | game.js:187-217 | One turn of the defence loop leaves the defence missiles before the current index alone. It never adds a missile or a defence missile, and it changes only those two lists and the explosion. |
| Simulation.ResolveAll | game.js:186-218 | The defence loop never adds a missile or a defence missile, and it changes only those two lists and the explosion. `FrameProps.ResolveAllKeeps`, `ResolveAllCatches` and `ResolveAllBlasts` state exactly how. |
| Simulation.Tick | game.js:110-131 | The end check runs before any motion and fires only in a running round. The left square at zero gives "You Win!" and is checked first; otherwise the right square at zero gives "You Lose!". The ending frame changes nothing but the explosion drawing, the round flag and the two buttons, and schedules no next frame. Any other frame schedules the next one and keeps the limiters and buttons. |
| Simulation.Restart | game.js:90-107 | Restart returns to the initial state from any state: both squares at 100, no missiles or defence missiles, no explosion, all three cooldowns off, shot count and last-shot time 0, round running. The frame it draws changes nothing. |
| FrameProps.AdvanceAllMoves | game.js:134-183 | After the missile loop, the list is exactly the survivors one step further, in their order. |
| FrameProps.AdvanceAllDamages | game.js:144-181 | After the missile loop, each square has taken the total damage of the missiles that landed on it exactly once, floored at zero. Enemy missiles hit the right square and player missiles hit the left one. |
| FrameProps.AdvanceAllBlasts | game.js:145-176 | After the missile loop, the explosion is fresh exactly when some missile landed. |
| FrameProps.AdvanceAllDefends | game.js:159-173 | After the missile loop, the defence missiles are those of `Spawned`, and the defence is busy exactly when it was busy before or it launched. |
| FrameProps.ResolveAllKeeps | game.js:186-218 | After the defence loop, exactly the chasers whose target is still in flight and out of reach remain, in order. Orphans and chasers that made a catch are gone. |
| FrameProps.ResolveAllCatches | game.js:199-205 | After the defence loop, exactly the missiles caught by their chaser are gone. No other missile is removed. |
| FrameProps.ResolveAllBlasts | game.js:206-212 | After the defence loop, the explosion is fresh exactly when some chaser caught its target. |
| FrameProps.TickMoves | game.js:133-218 | For a frame that does not end the round: the new missiles are the survivors minus the caught ones; the chasers are the live, out-of-reach ones; each square takes its landed damage once; the defence cooldown starts exactly on a launch; and the explosion is fresh exactly when something landed or was caught, and otherwise has been drawn once more. |
| FrameProps.TickFlight | game.js:134-150 | For each missile on such a frame: if it lands or is caught, its identity is gone. Otherwise it flies on exactly one step further. |
| Invariants.Step | game.js:90-328 | Events of the running page: a frame only while the round runs, a click only on an enabled button, launches, timer firings and restart. Only a frame ends a round, and only a restart starts one again or resets the identities. |
| Invariants.FrameScheduling | game.js:120-131 | A frame reschedules the loop exactly when the round is still running after it, and restart resumes a running round. So frames arrive exactly while the round runs. |
| Invariants.LaunchValid | game.js:223-246 | Adding a launched missile keeps the missile part of the invariant. |
| Invariants.TickValid | game.js:110-221 | A frame keeps the invariant: hit points in [0, 100]; missiles of a known tier, not landed, with distinct identities; at most one chaser per missile, each chasing a missile in flight; limiters and explosion well formed; buttons consistent with the cooldowns. |
| Invariants.StepValid | game.js:90-297 | Every event keeps the invariant: frames, clicks, enemy launches, timer firings and restarts. |
| Invariants.RunValid | game.js:90-328 | Every state reachable from a valid state is valid. |
| Invariants.Reachable | game.js:7-28 | From the initial page, whatever happens to the model (with its corrected timers), both hit points stay within [0, 100], no missile is chased twice, every chaser's target is in flight, and the small count stays within [0, 10]. `Invariants.ReachableAsWritten` gives the same bounds for the timers as written. |
| Invariants.StepAsWrittenSound | game.js:257-295 | With the cooldown timers as the program writes them, every event keeps the invariant without its end-screen button clause. |
| Invariants.RunAsWrittenSound | game.js:90-328 | With the timers as written, every state reachable from a sound state is sound. |
| Invariants.ReachableAsWritten | game.js:7-28 | With the timers as written, from the initial page both hit points stay within [0, 100], no missile is chased twice, every chaser's target is in flight, and the small count stays within [0, 10]. |
| Invariants.TerminalFreezes | game.js:85-87 | Once the round is over, frames and clicks change nothing. Until a restart, the round stays over, the buttons stay off and the hit points stay as they ended. |
| Invariants.EndedStaysEnded | game.js:85-87 | Through any run of events without a restart, an ended round stays ended and valid, both buttons stay off, and the hit points stay as they ended. |
| Invariants.RestartValid | game.js:90-101 | Restart from any state gives a valid running round. |
| Findings.BigFireAfterGameOver | game.js:261-264 | With the timer as written, a big cooldown that ends on the end screen enables the big button. A click then launches a missile although the round is over. |
| Findings.SmallFireAfterGameOver | game.js:288-293 | With the timer as written, a small cooldown that ends on the end screen enables the small button. A click then launches a missile although the round is over. |
| Findings.ButtonsStayOff | game.js:86-87 | With the model's timers, a valid ended round keeps both buttons off through every timer firing, and clicks are ignored. |

## Findings

| source | as written | input that shows it | evidently intended | confidence | as-written member | corrected member |
|---|---|---|---|---|---|---|
| game.js:261-264, 288-293 | When a cooldown interval ends, it sets its button's `disabled` to false unconditionally. | Win a round while the big cooldown has 100 ms left (`Findings.WonDuringBigCooldown`). When the interval fires, the big button is enabled on the end screen, and a click launches a missile into the ended round. The small cooldown behaves the same way. | The end screen disables both buttons (lines 86-87), and only restart should enable them again. | medium, not executed | GameState.BigTimerAsWritten, GameState.SmallTimerAsWritten (with Findings.BigFireAfterGameOver, Findings.SmallFireAfterGameOver) | GameState.BigTimer, GameState.SmallTimer (with Findings.ButtonsStayOff, Invariants.EndedStaysEnded) |

The rest of the model (`Invariants.Step`) uses the corrected timers.

## Left out

- Drawing and the DOM are not modelled: canvas calls, the end-screen overlay, the restart button's visibility and the cooldown bars' display (game.js:1-2, 19-22, 30-88, 102-106). The fire buttons' enabled flags are kept, because they are how firing stops at the end of a round. The page markup is not part of this model, so both buttons are assumed enabled initially.
- Missile coordinates are not modelled: the sine arc, the explosion's position, and the defence missile's homing motion (`Math.hypot`). Only the step count is kept. The x < 500 test is exact in steps because x is linear in t.
- The accumulated floating-point drift of `t += 0.02` is not modelled. An integer step count is used instead. The repeated double-precision sum first reaches 1 at the 50th addition and first puts x below 500 at the 18th, so the step thresholds agree with the program.
- Simulation.ResolveOne: the collision test `dist < (cp.size + target.size) / 2 + 2` is replaced by the `hits` oracle. It is evaluated per target, which matches the program because no missile has two chasers.
- Timer scheduling is not modelled: the real-time spacing of the 100 ms intervals, the 1000 ms defence timeout, the 1000-2000 ms enemy delay, the 250 ms gap inside a volley, and the `requestAnimationFrame` cadence. Each callback is an event that may happen at any time. `Invariants.Step` launches a volley's missiles one `EnemyFires` event at a time, so other events may come between them. `GameState.Volley` and `GameState.VolleyBounds` describe a whole volley with nothing in between.
- The timer handles that `restartGame` leaves running are not modelled (game.js:90-101 versus 257 and 284). Restart clears every cooldown in the model. In the program, an interval started before the restart keeps firing afterwards.
- Calling restart while the loop is already running starts a second `requestAnimationFrame` loop, which the model does not track. The restart button is only shown on the end screen, where the loop has stopped.
- `Math.random` and `Date.now` are not modelled. The random draws are arguments (`VolleySize`'s draw, `EnemyFires`'s tier), and so is the clock reading of a small-shot click.
- RateLimit.Percent: the percentage is exact rational arithmetic, not double-precision.
- The `window` exports and the boot calls are not modelled (game.js:323-328). The colours of squares and missiles, which are presentation only, are not modelled either.
