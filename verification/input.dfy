/**
 Input systems run at the top of every tick: the joystick axis that steers the
 paddle and the button that asks for a new game.
 */
module Input {
  import opened Prelude
  import opened Geometry
  import opened Resources
  import opened Components
  import opened Players

  /**
   The `joystick` system. With no single paddle, or when the analog read
   fails, nothing changes; otherwise the sample above 3000 steers left, below
   1500 steers right, and the paddle stays put in between.
   */
  function Joystick(w: World, adc: Option<int>): (w': World)
    ensures w' == w.(players := w'.players)
    ensures |w'.players| == |w.players|
    ensures |w.players| != 1 || adc.None? ==> w' == w
    ensures |w.players| == 1 ==>
      var p, p' := w.players[0], w'.players[0];
      && p'.lives == p.lives && p'.pos.y == p.pos.y
      && (adc.Some? && adc.value > 3000 ==> p'.pos.x == Max(p.pos.x - 5, 0))
      && (adc.Some? && adc.value < 1500 ==> p'.pos.x == Min(p.pos.x + 5, RightEdge(w.res)))
      && (adc.Some? && 1500 <= adc.value <= 3000 ==> p'.pos.x == p.pos.x)
  {
    if |w.players| != 1 || adc.None? then w
    else
      var p := w.players[0];
      var x :=
        if adc.value > LEFT_THRESHOLD then Max(p.pos.x - PLAYER_SPEED, 0)
        else if adc.value < RIGHT_THRESHOLD then Min(p.pos.x + PLAYER_SPEED, RightEdge(w.res))
        else p.pos.x;
      w.(players := [Player(Point(x, p.pos.y), p.lives)])
  }

  /** The joystick system and the paddle's own update system agree on every input. */
  lemma JoystickMatchesUpdatePlayer(w: World, adc: Option<int>)
    ensures Joystick(w, adc) == UpdatePlayer(w, adc)
  {
  }

  /** A paddle that starts within [0, width - 40] stays there, and moves at most 5 pixels. */
  lemma JoystickKeepsPaddleOnScreen(w: World, adc: Option<int>)
    requires |w.players| == 1
    requires 0 <= w.players[0].pos.x <= RightEdge(w.res)
    ensures 0 <= Joystick(w, adc).players[0].pos.x <= RightEdge(w.res)
    ensures Abs(Joystick(w, adc).players[0].pos.x - w.players[0].pos.x) <= PLAYER_SPEED
  {
  }

  /**
   The `reset_btn` system: a reset event is raised on every tick the button
   is held low while the game is not being played. It writes no state.
   */
  function ResetBtn(status: GameStatus, buttonLow: bool): (event: bool)
    ensures event <==> buttonLow && status.state != Playing
  {
    buttonLow && !status.state.Playing?
  }
}
