/**
 The game state machine: the end-of-level check run while playing, and the
 two steps of a reset.
 */
module GameStateMachine {
  import opened Prelude
  import opened Resources
  import opened Components

  /**
   The `update_game_state` system. An empty wall completes the level, and
   this check wins over the lives check; otherwise the single paddle (whose
   absence the source treats as a panic) at zero lives ends the game, and a
   paddle with lives left changes nothing.
   */
  function UpdateGameState(w: World): (w': World)
    requires |w.blocks| == 0 || |w.players| == 1
    ensures w' == w.(status := w'.status)
    ensures w'.status.score == w.status.score
    ensures |w.blocks| == 0 ==> w'.status.state == LevelCompleted
    ensures |w.blocks| > 0 && w.players[0].lives == 0 ==> w'.status.state == GameOver
    ensures |w.blocks| > 0 && w.players[0].lives > 0 ==> w' == w
  {
    if |w.blocks| == 0 then w.(status := w.status.(state := LevelCompleted))
    else if w.players[0].lives == 0 then w.(status := w.status.(state := GameOver))
    else w
  }

  /**
   The `reset_game` system. Without a pending reset event it does nothing;
   with one it despawns every ball, block and paddle, zeroes the score and
   enters `Resetting`.
   */
  function ResetGame(w: World, event: bool): (w': World)
    ensures !event ==> w' == w
    ensures event ==> w'.res == w.res && w'.status == GameStatus(Resetting, 0)
    ensures event ==> w'.players == [] && w'.balls == [] && w'.blocks == []
  {
    if !event then w
    else World(w.res, w.status.(state := Resetting, score := 0), [], [], [])
  }

  /** The `switch_reset` system: enters `Playing` from any state, keeping the score. */
  function SwitchReset(w: World): (w': World)
    ensures w' == w.(status := w'.status)
    ensures w'.status.state == Playing && w'.status.score == w.status.score
  {
    w.(status := w.status.(state := Playing))
  }
}
