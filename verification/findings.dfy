/**
 The cooldown intervals re-enable their button when they finish, without
 looking at whether the round has ended. The end screen disables both buttons,
 but a cooldown that was still running when the round ended enables its button
 again on the end screen, and a click then launches a missile into the ended
 round. The model's timers (`GameState.BigTimer`, `GameState.SmallTimer`) keep
 the buttons off once the round is over; the functions below are the timers as
 written, with the states that show the difference.
 */
module Findings {
  import opened Entities
  import opened RateLimit
  import opened GameState
  import opened Invariants

  /** A round the player has just won while the big cooldown had 100 ms to go. */
  function WonDuringBigCooldown(): (g: Game)
    ensures Valid(g) && g.gameOver
  {
    Init().(leftHp := 0, gameOver := true, smallButton := false, bigButton := false, big := Some(4900))
  }

  /** A round the player has just won while the small cooldown had 100 ms to go. */
  function WonDuringSmallCooldown(): (g: Game)
    ensures Valid(g) && g.gameOver
  {
    Init().(leftHp := 0, gameOver := true, smallButton := false, bigButton := false,
            small := Burst(MAX_SMALL_SHOTS, 0, Some(1900)))
  }

  /** As written, the big interval's last firing enables the big button on the end
      screen, and the click launches a big missile although the round is over. */
  lemma BigFireAfterGameOver()
    ensures var g := BigTimerAsWritten(WonDuringBigCooldown());
      && g.gameOver && g.bigButton && !Valid(g)
      && |HandleBig(g).projectiles| == 1 && HandleBig(g).gameOver
  {
  }

  /** As written, the small interval's last firing enables the small button on the
      end screen, and the click launches a small missile although the round is over. */
  lemma SmallFireAfterGameOver(now: int)
    ensures var g := SmallTimerAsWritten(WonDuringSmallCooldown());
      && g.gameOver && g.smallButton && !Valid(g)
      && |HandleSmall(g, now).projectiles| == 1 && HandleSmall(g, now).gameOver
  {
  }

  /** With the timers of the model, the same states keep both buttons off and every click is ignored. */
  lemma ButtonsStayOff(g: Game, now: int)
    requires Valid(g) && g.gameOver
    ensures !BigTimer(g).bigButton && !SmallTimer(g).smallButton
    ensures Step(BigTimer(g), PressBig) == BigTimer(g)
    ensures Step(SmallTimer(g), PressSmall(now)) == SmallTimer(g)
  {
  }
}
