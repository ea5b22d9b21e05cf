/**
 One tick of the game loop: the systems of `start_game` run in a fixed
 sequential order, each group gated on the phase it belongs to.

 Order within a tick (each system's despawns and spawns take effect before
 the next system runs). The source fixes only the chained groups, input before
 the playing group, and the drawing after the screen is cleared; the rest of
 this order is a choice of the model:
   1. `joystick`, then `reset_btn`, in every phase;
   2. while `Playing`: spawn a ball if none is in play, `update_ball`,
      `collison_handle`, `remove_balls`, `remove_blocks`, `update_game_state`;
   3. `reset_game`;
   4. while `Resetting`: spawn a ball, `spawn_blocks`, `spawn_player`,
      `switch_reset`;
   5. rendering, which only reads the world.
 */
module Game {
  import opened Prelude
  import opened Geometry
  import opened Resources
  import opened Components
  import opened Blocks
  import opened Players
  import opened Balls
  import opened Input
  import opened GameStateMachine

  /** What the hardware delivers in one tick: the joystick sample (absent when the read fails), the button level and a random word. */
  datatype Inputs = Inputs(adc: Option<int>, buttonLow: bool, rand: u32)

  predicate RunIfPlaying(s: GameStatus) { s.state == Playing }
  predicate RunIfMainMenu(s: GameStatus) { s.state == MainMenu }
  predicate RunIfGameOver(s: GameStatus) { s.state == GameOver }
  predicate RunIfCompleted(s: GameStatus) { s.state == LevelCompleted }
  predicate RunIfResetting(s: GameStatus) { s.state == Resetting }

  /** Number of phase predicates that hold for `s`. */
  function GatesOpen(s: GameStatus): nat {
    (if RunIfPlaying(s) then 1 else 0) + (if RunIfMainMenu(s) then 1 else 0)
    + (if RunIfGameOver(s) then 1 else 0) + (if RunIfCompleted(s) then 1 else 0)
    + (if RunIfResetting(s) then 1 else 0)
  }

  /** The five phase predicates are mutually exclusive and exhaustive. */
  lemma ExactlyOneGateOpen(s: GameStatus)
    ensures GatesOpen(s) == 1
  {
  }

  /** The world `start_game` begins from: the default status and an empty store. */
  function InitialWorld(res: DisplayResolution): (w: World)
    ensures w.status == GameStatus(MainMenu, 0)
    ensures w.players == [] && w.balls == [] && w.blocks == []
  {
    World(res, DefaultStatus(), [], [], [])
  }

  /**
   What `update_game_state` needs at the end of the playing group: a single
   paddle, or a wall that the group is about to empty (no system in the group
   adds or removes paddles, and without a single paddle no block is hit).
   */
  predicate PlayingReady(w: World) {
    |w.players| == 1 || DeadCount(w.blocks) == |w.blocks|
  }

  /** The systems gated on `Playing`, in chain order. */
  function PlayingGroup(w: World, rand: u32): (w': World)
    requires PlayingReady(w)
    ensures w'.res == w.res
    ensures |w'.players| == |w.players|
    ensures w'.status.state == w.status.state || w'.status.state in {LevelCompleted, GameOver}
  {
    var w1 := SpawnBallIfEmpty(w, rand);
    var w2 := UpdateBall(w1);
    var w3 := CollisionHandle(w2);
    var w4 := RemoveBalls(w3);
    var w5 := RemoveBlocks(w4);
    UpdateGameState(w5)
  }

  /** The systems gated on `Resetting`, in chain order. */
  function ResettingGroup(w: World, rand: u32): (w': World)
    ensures w'.res == w.res
    ensures w'.status == GameStatus(Playing, w.status.score)
    ensures w'.balls == w.balls + [NewBall(w.res, rand)]
    ensures w'.blocks == w.blocks + BlockGrid(w.res)
    ensures w'.players == w.players + [NewPlayer(w.res)]
  {
    SwitchReset(SpawnPlayer(SpawnBlocks(SpawnBall(w, rand))))
  }

  /**
   One tick. It never ends in `Resetting`: a reset requested in this tick,
   or one left pending, is completed by the resetting group in the same tick.
   */
  function Tick(w: World, inp: Inputs): (w': World)
    requires RunIfPlaying(w.status) ==> PlayingReady(w)
    ensures w'.res == w.res
    ensures !w'.status.state.Resetting?
  {
    var w1 := Joystick(w, inp.adc);
    var reset := ResetBtn(w1.status, inp.buttonLow);
    var w2 := if RunIfPlaying(w1.status) then PlayingGroup(w1, inp.rand) else w1;
    var w3 := ResetGame(w2, reset);
    if RunIfResetting(w3.status) then ResettingGroup(w3, inp.rand) else w3
  }

  // ---------------------------------------------------------------------------
  // Rendering, as an observer of the world
  // ---------------------------------------------------------------------------

  /** What ends up on the panel after a tick. */
  datatype Frame =
    | Cleared
    | GameFrame(score: u32, hearts: nat, blocks: seq<Rect>, paddles: seq<Rect>, balls: seq<Rect>)
    | WelcomeScreen
    | GameOverScreen(finalScore: u32)
    | CompletedScreen(finalScore: u32)

  /**
   The render systems: the screen is always cleared, then the phase picks
   exactly one of the HUD with the entities, the welcome text, the game-over
   text or the completion text; while resetting nothing is drawn.
   */
  function Render(w: World): (f: Frame)
    ensures f.GameFrame? <==> RunIfPlaying(w.status)
    ensures f.WelcomeScreen? <==> RunIfMainMenu(w.status)
    ensures f.GameOverScreen? <==> RunIfGameOver(w.status)
    ensures f.CompletedScreen? <==> RunIfCompleted(w.status)
    ensures f.Cleared? <==> RunIfResetting(w.status)
    ensures f.GameFrame? ==> f.score == w.status.score && |f.blocks| == |w.blocks| && |f.balls| == |w.balls|
    ensures f.GameFrame? && |w.players| == 1 ==> f.hearts == w.players[0].lives && |f.paddles| == 1
  {
    match w.status.state
    case Playing =>
      var single := |w.players| == 1;
      GameFrame(
        w.status.score,
        if single then w.players[0].lives else 0,
        seq(|w.blocks|, i requires 0 <= i < |w.blocks| => BlockRect(w.blocks[i])),
        if single then [PlayerRect(w.players[0])] else [],
        seq(|w.balls|, i requires 0 <= i < |w.balls| => BallRect(w.balls[i])))
    case MainMenu => WelcomeScreen
    case GameOver => GameOverScreen(w.status.score)
    case LevelCompleted => CompletedScreen(w.status.score)
    case Resetting => Cleared
  }

  // ---------------------------------------------------------------------------
  // Properties of the tick
  // ---------------------------------------------------------------------------

  /** The score a full wall is worth. */
  const WALL_VALUE: nat := KILL_REWARD * BLOCK_COUNT

  /**
   The states a running game can be in between ticks. Besides the phase
   bookkeeping, the score always equals 10 per block already destroyed, and
   a ball in play moves at most one pixel per tick along each axis.
   */
  predicate Inv(w: World) {
    && !w.status.state.Resetting?
    && |w.balls| <= 1
    && (forall b :: b in w.balls ==> UnitSpeed(b))
    && AllAlive(w.blocks)
    && (w.status.state.MainMenu? ==>
          w.players == [] && w.balls == [] && w.blocks == [] && w.status.score == 0)
    && (!w.status.state.MainMenu? ==>
          |w.players| == 1 && w.status.score + KILL_REWARD * |w.blocks| == WALL_VALUE)
    && (w.status.state.Playing? ==> |w.blocks| > 0 && w.players[0].lives > 0)
    && (w.status.state.LevelCompleted? ==> |w.blocks| == 0)
    && (w.status.state.GameOver? ==> |w.blocks| > 0 && w.players[0].lives == 0)
  }

  lemma InitialWorldInv(res: DisplayResolution)
    ensures Inv(InitialWorld(res))
    ensures Render(InitialWorld(res)) == WelcomeScreen
  {
  }

  /** The playing group keeps every ball in play within unit speed. */
  lemma PlayingGroupKeepsUnitSpeed(w: World, rand: u32)
    requires PlayingReady(w)
    requires forall b :: b in w.balls ==> UnitSpeed(b)
    ensures forall b :: b in PlayingGroup(w, rand).balls ==> UnitSpeed(b)
  {
  }

  /**
   A tick of play: the score grows by exactly 10 per block destroyed, the
   paddle loses at most one life, and the phase moves to `LevelCompleted`
   exactly when the wall is gone, otherwise to `GameOver` exactly when the
   paddle has no lives left.
   */
  lemma TickWhilePlaying(w: World, inp: Inputs)
    requires Inv(w) && RunIfPlaying(w.status)
    ensures var w' := Tick(w, inp);
      && Inv(w')
      && |w'.blocks| <= |w.blocks|
      && w'.status.score == w.status.score + KILL_REWARD * (|w.blocks| - |w'.blocks|)
      && |w'.players| == 1
      && (w'.players[0].lives == w.players[0].lives || w'.players[0].lives == w.players[0].lives - 1)
      && (w'.status.state == LevelCompleted <==> |w'.blocks| == 0)
      && (w'.status.state == GameOver <==> |w'.blocks| > 0 && w'.players[0].lives == 0)
      && (w'.status.state == Playing <==> |w'.blocks| > 0 && w'.players[0].lives > 0)
  {
    var w1 := Joystick(w, inp.adc);
    assert w1.blocks == w.blocks && w1.status == w.status && w1.balls == w.balls;
    PlayingGroupKeepsUnitSpeed(w1, inp.rand);
    var v1 := SpawnBallIfEmpty(w1, inp.rand);
    var v2 := UpdateBall(v1);
    var v3 := CollisionHandle(v2);
    CollisionHandleScore(v2);
    var v4 := RemoveBalls(v3);
    var v5 := RemoveBlocks(v4);
    var v6 := UpdateGameState(v5);
    assert Tick(w, inp) == v6;
    assert v5.blocks == LiveBlocks(v3.blocks);
    assert |v3.blocks| == |w.blocks|;
    assert v5.status.score == w.status.score + KILL_REWARD * DeadCount(v3.blocks);
    assert |v6.balls| <= 1;
  }

  /**
   A held button outside play starts a fresh game within the same tick:
   score 0, a full wall, one new paddle and one new ball, phase `Playing`.
   */
  lemma TickResetStartsGame(w: World, inp: Inputs)
    requires !RunIfPlaying(w.status) && inp.buttonLow
    ensures var w' := Tick(w, inp);
      && w' == World(w.res, GameStatus(Playing, 0), [NewPlayer(w.res)], [NewBall(w.res, inp.rand)], BlockGrid(w.res))
      && Inv(w')
  {
    var w' := Tick(w, inp);
    assert w'.status.score + KILL_REWARD * |w'.blocks| == WALL_VALUE;
  }

  /**
   Outside play and without the button, only the joystick acts: phase,
   score, balls and blocks stay as they are.
   */
  lemma TickIdle(w: World, inp: Inputs)
    requires !RunIfPlaying(w.status) && !RunIfResetting(w.status) && !inp.buttonLow
    ensures Tick(w, inp) == Joystick(w, inp.adc)
    ensures Tick(w, inp).status == w.status
    ensures Tick(w, inp).balls == w.balls && Tick(w, inp).blocks == w.blocks
  {
  }

  /** Every tick keeps the invariant, so it holds in every state the game reaches. */
  lemma TickPreservesInv(w: World, inp: Inputs)
    requires Inv(w)
    ensures Inv(Tick(w, inp))
    ensures !Render(Tick(w, inp)).Cleared?
  {
    if RunIfPlaying(w.status) {
      TickWhilePlaying(w, inp);
    } else if inp.buttonLow {
      TickResetStartsGame(w, inp);
    } else {
      TickIdle(w, inp);
    }
  }
}
