# Breakout simulation tick, modelled in Dafny

This project models the simulation core of an ESP32 Breakout game that runs on a
128×64 monochrome panel. It covers:

- the entity records: a paddle with lives, balls with a position and a velocity,
  and blocks with lives;
- the axis-aligned collision resolver;
- the ball systems: spawn, movement with wall bounce, collision handling with
  scoring, and loss off the bottom edge;
- the block grid and its removal;
- the paddle steering;
- the game state machine (MainMenu, Playing, LevelCompleted, GameOver, Resetting);
- the phase-gated order of systems within one tick.

Each system is a pure function `World -> World`. `Game.Tick` composes them.
Hardware inputs arrive as one `Inputs` value per tick: the joystick sample as an
`Option<int>` (absent when the read fails), the button level, and a random
32-bit word.

Modules follow the source files:

| module | file | source |
|---|---|---|
| `Prelude` | prelude.dfy | Rust integer semantics: `u8`/`u32`, `as i32`, truncating `%` and `/`, saturating and wrapping arithmetic |
| `Geometry` | geometry.dfy | `Position`, `Velocity`, and the rectangle intersection and centre that the resolver relies on |
| `Resources` | resources.dfy | `GameState`, `GameStatus`, `DisplayResolution` |
| `Components` | components.dfy | ball, block and paddle records, and the entity store `World` |
| `Blocks` | block.dfy | grid layout, `spawn_blocks`, `remove_blocks` |
| `Players` | player.dfy | `spawn_player`, `update_player` |
| `Input` | input.dfy | `joystick`, `reset_btn` |
| `Balls` | ball.dfy | `resolve_collison`, `spawn_ball`, `update_ball`, `collison_handle`, `remove_balls` |
| `GameStateMachine` | state.dfy | `update_game_state`, `reset_game`, `switch_reset` |
| `Game` | game.dfy | `start_game` ordering, `run_if_*` gates, render gating, the tick invariant |

Modelling choices:

- **Rectangles.** A rectangle covers the half-open spans `[x, x+w) × [y, y+h)`.
  On each axis the intersection extent is `max(0, min(right) − max(left))`.
- **Centre.** The centre of a rectangle is `top_left + (size − 1) / 2` per axis,
  rounded down, which is the graphics library's centre offset. The resolver
  uses only the sign of the centre difference.
- **Spawning a ball.** The tick calls two spawn functions whose bodies are not
  in the sources: "spawn a ball if empty" and "spawn a ball on reset". Both are
  modelled with the body of `spawn_ball`. "If empty" means a ball is spawned
  only when no ball is in play.
- **Order within a tick.** The source declares only a few ordering
  constraints in `start_game`:
  - `joystick` runs before `reset_btn`;
  - the Playing group and the Resetting group each run in chain order;
  - the Playing group runs after `reset_btn`;
  - the HUD chain and the welcome screen run after `clear_screen`.

  Everything else is unordered. That includes `reset_game` relative to
  `reset_btn`, the Playing group and the Resetting group, and the game-over
  and completion screens relative to everything. The model fixes one order:
  `joystick`, `reset_btn`, the Playing group, `reset_game`, the Resetting
  group, then rendering. Each system's spawns and despawns take effect before
  the next system runs. Beyond the declared constraints, this order is the
  model's choice. So are its consequences: a reset requested in a tick
  completes in that same tick (`Game.TickResetStartsGame`), a tick never ends
  in `Resetting`, and rendering sees the finished world.
- **One shared score.** In the source, `collison_handle` takes the game
  status as a non-send resource. `start_game` inserts `GameStatus` as an
  ordinary resource, and every other system reads or writes it as one. Bevy
  keeps the two kinds of resource in separate stores, and no non-send
  `GameStatus` is ever inserted. As written, the system would therefore not
  get its parameter and would not run. The model reads it the evident way:
  there is one `GameStatus`, and `collison_handle` runs and adds its kill
  rewards to the score that `update_game_state`, `reset_game` and the HUD
  use. `Game.Inv`'s score equation rests on this reading.
- **Score.** The score is a `u32` that wraps on overflow, as a release build
  does. `Game.Inv` shows that the score never gets near the wrap: from the first
  reset on, the score plus 10 per remaining block always equals 300.
- **Spawn position of the paddle.** `spawn_player` subtracts in unsigned
  arithmetic. The model makes this wrap explicitly.
- **Casts.** The `as i32` casts of the display dimensions and of the random
  word go through `AsI32`. The resolver's cast of the overlap size is taken
  as the plain overlap (see "## Left out").
- **Missing paddle.** `update_game_state` unwraps the single paddle. This
  becomes the precondition of `UpdateGameState`. The precondition of `Tick`
  carries it as `PlayingReady`.
- **What the resolver and the collision pass do not promise.** Each point
  below is a fact about the code, shown by the lemma next to it:
  - The ball resting on the fresh paddle is not a tie. The overlap is 4 wide
    and 3 tall, so the resolver takes the Y branch and lifts the ball to
    y = 55 (`Balls.ResolveBallOnPaddle`).
  - A hit separates the two rectangles only when the moving rectangle covers
    one edge of the obstacle and the centres are not level
    (`Balls.ResolveSeparates`). Otherwise they can still overlap after the
    hit (`Balls.ResolveMayLeaveOverlap`).
  - The corrected rectangle carries on to every later block, so one pass can
    hit several blocks (`Balls.CollideBlocksHitsBoth`, `Balls.CollideBlocksAt`).
  - The reset request is level-triggered: `reset_btn` raises an event on
    every tick the button is held low outside play (`Input.ResetBtn`).

## Model

| member | source | states |
|---|---|---|
| `Balls.ResolveCollision` | src/game/ball.rs:156-188 | no shared pixel gives no hit and changes nothing; a hit moves only the top-left and velocity component of the shallower axis (Y when the overlap is wider than tall, X on ties), by the overlap depth against the centre-separation sign, and reflects that component with its magnitude kept, away from the obstacle (negated when the centres are level) |
| `Balls.Reflect` | src/game/ball.rs:171-184 | for separation signs in {-1,0,1} the new component has the old magnitude, is ≤ 0 for +1, ≥ 0 for −1 and is the negation for 0 |
| `Balls.PushOutSeparates` | src/game/ball.rs:168-185 | on one axis, a span covering one edge of the obstacle and pushed by the overlap depth against a nonzero sign no longer overlaps it |
| `Balls.ResolveSeparates` | src/game/ball.rs:156-188 | after a hit the rectangles no longer overlap, provided the moving rectangle covered one edge of the obstacle on the resolved axis and the centres were not level there |
| `Balls.ResolveMayLeaveOverlap` | src/game/ball.rs:168-176 | a rectangle lying inside the obstacle on the resolved axis is pushed by its own height and still overlaps: the resolver is discrete |
| `Balls.ResolveBallOnPaddle` | src/game/ball.rs:156-188 | ball (44,58) 4×4 against the paddle (44,59) 40×5: overlap 4×3, Y branch, ball lifted to y = 55, vy becomes −1 |
| `Balls.NewBall` | src/game/ball.rs:31-50 | a new ball sits at (width/2, height/2) with vy = −1 and vx in [−1, 1] for every random word |
| `Balls.NewBallDirection` | src/game/ball.rs:37 | words that read as negative i32 always give vx = −1 (truncating remainder); other words give sign(word mod 21 − 10) |
| `Balls.SpawnBall` | src/game/ball.rs:31-50 | appends exactly one new ball; nothing else changes |
| `Balls.SpawnBallIfEmpty` | src/game/mod.rs:36 | spawns one ball only when none is in play, otherwise leaves the world unchanged |
| `Balls.StepBall` | src/game/ball.rs:56-69 | a ball moves by velocity × 1; x < 0 forces vx = 1, otherwise x > width − 4 forces vx = −1; y < 0 forces vy = 1; inside the walls the velocity is kept; there is no bottom rule and no clamping |
| `Balls.UpdateBall` | src/game/ball.rs:52-70 | every ball takes exactly one step, and only balls change |
| `Balls.FallingBallDescends` | src/game/ball.rs:58-68 | a ball on screen with vy > 0 strictly descends and keeps vy |
| `Balls.NewBallFirstStep` | src/game/ball.rs:37-68 | on the 128×64 panel a new ball moves from (64,32) to (64+vx, 31) in one step |
| `Balls.CollideBlocks` | src/game/ball.rs:92-102 | a pass over the blocks keeps every block's place and count; each block keeps its lives or loses exactly one (saturating at 0); the first block loses one exactly when the incoming rectangle overlaps it; the velocity keeps its magnitude on both axes |
| `Balls.CollideBlocksSplit` | src/game/ball.rs:92-102 | a pass over `a + b` equals the pass over `a` followed by the pass over `b` from the rectangle, velocity and score `a` left |
| `Balls.CollideBlocksAt` | src/game/ball.rs:92-101 | block i loses one life (saturating) exactly when the rectangle carried past blocks 0..i−1 overlaps it, otherwise is unchanged; the resolver's answer against block i is what carries on to block i+1 |
| `Balls.CollideBlocksScore` | src/game/ball.rs:94-100 | when all blocks were alive and the score cannot wrap, the pass adds exactly 10 per block it leaves at zero lives |
| `Balls.CollideBlocksHitsBoth` | src/game/ball.rs:92-102 | the corrected rectangle carries on to later blocks: a ball straddling two top-row blocks hits both in one pass (no first hit wins) |
| `Balls.CollideBalls` | src/game/ball.rs:86-103 | over all balls each block keeps its place and never gains lives; with one ball each block loses at most one life; no ball changes speed on either axis |
| `Balls.CollideBallsSplit` | src/game/ball.rs:86-103 | colliding the balls `a + b` equals colliding `a`, then `b` against the blocks and score `a` left |
| `Balls.CollideBallsAt` | src/game/ball.rs:86-102 | ball i is resolved against the paddle, then passed over the blocks and score left by the balls before it; the end of that pass is its new position and velocity |
| `Balls.CollisionHandle` | src/game/ball.rs:73-104 | without exactly one paddle nothing changes; otherwise only balls, blocks and score change; blocks keep their places and never gain lives, and with one ball each loses at most one; no ball changes speed |
| `Balls.CollisionHandleOneBall` | src/game/ball.rs:79-103 | with one paddle and one ball, the ball takes the resolver's answer against the paddle, then the pass over the blocks, whose end gives its position, velocity, the blocks and the score |
| `Balls.CollisionHandleHit` | src/game/ball.rs:92-96 | with one paddle and one ball, block i loses one life (saturating) iff the ball's rectangle, carried past the paddle and blocks 0..i−1, overlaps it |
| `Balls.CollisionHandleScore` | src/game/ball.rs:79-101 | with one ball and all blocks alive, the score rises by exactly 10 per block left at zero lives |
| `Balls.BallsOnScreen` | src/game/ball.rs:113-118 | keeps every copy of each ball with y ≤ height and no copy of the others (multiset equality); the length shrinks iff some ball is below |
| `Balls.RemoveBalls` | src/game/ball.rs:106-127 | despawns exactly the balls below the display, every copy of the others kept (multiset equality); the single paddle loses exactly one life (saturating) iff at least one ball went, whatever the count |
| `Blocks.BlockGrid` | src/game/block.rs:16-30 | a fresh wall has 30 blocks with 2 lives each; block (row r, column c) is at (start_x + 21c, 10 + 4r) |
| `Blocks.SpawnBlockGrid` | src/game/block.rs:16-30 | the nested row/column loops produce exactly that wall, in row-major order |
| `Blocks.SpawnBlocks` | src/game/block.rs:16-30 | appends exactly one fresh wall to the store; nothing else changes |
| `Blocks.GridDisjoint` | src/game/block.rs:6-9 | no two blocks of a fresh wall share a pixel |
| `Blocks.GridWithinDisplay` | src/game/block.rs:17-25 | on a display at least 125 wide every block lies horizontally within [0, width) |
| `Blocks.LiveBlocks` | src/game/block.rs:33-37 | keeps every copy of each block with lives > 0 and no copy of the others (multiset equality), drops the dead-block count, and is the identity on an all-alive wall |
| `Blocks.RemoveBlocks` | src/game/block.rs:32-38 | despawns exactly the blocks with zero lives, every copy of the others kept (multiset equality); afterwards no dead block remains; nothing else changes |
| `Blocks.RemoveBlocksIdempotent` | src/game/block.rs:32-38 | removing dead blocks twice is the same as once |
| `Players.NewPlayer` | src/game/player.rs:28-38 | a new paddle has 3 lives, is horizontally centred (x + 20 = width/2) and touches the display bottom (y + 5 = height) |
| `Players.NewPlayerOnPanel` | src/game/player.rs:28-38 | on the 128×64 panel the new paddle is at (44,59) with 3 lives |
| `Players.SpawnPlayer` | src/game/player.rs:28-38 | appends exactly one new paddle; nothing else changes |
| `Players.UpdatePlayer` | src/game/player.rs:40-63 | no-op without a single paddle or on a failed read; > 3000 moves left by 5 stopping at 0; < 1500 moves right by 5 stopping at width − 40; otherwise no move; y and lives never change |
| `Input.Joystick` | src/game/input.rs:10-31 | same guards and thresholds as the paddle update; only the paddle's x can change |
| `Input.JoystickMatchesUpdatePlayer` | src/game/input.rs:10-31 | `joystick` and `update_player` compute the same world for every input |
| `Input.JoystickKeepsPaddleOnScreen` | src/game/input.rs:25-30 | a paddle starting in [0, width − 40] stays there and moves at most 5 pixels |
| `Input.ResetBtn` | src/game/input.rs:33-41 | an event is raised iff the button is low and the phase is not Playing |
| `GameStateMachine.UpdateGameState` | src/game/state.rs:13-28 | an empty wall gives LevelCompleted first; otherwise a paddle at 0 lives gives GameOver; otherwise nothing changes; the score never changes; requires the single paddle the source unwraps |
| `GameStateMachine.ResetGame` | src/game/state.rs:30-55 | without an event nothing changes; with one, all balls, blocks and paddles are gone, the score is 0 and the phase is Resetting |
| `GameStateMachine.SwitchReset` | src/game/state.rs:57-60 | the phase becomes Playing from any phase and the score is kept |
| `Resources.DefaultStatus` | src/game/resources.rs:59-73 | the default status is MainMenu with score 0 |
| `Game.ExactlyOneGateOpen` | src/game/mod.rs:83-101 | exactly one of the five phase predicates holds in every status |
| `Game.InitialWorld` | src/game/mod.rs:26-27 | the game starts in MainMenu with score 0 and an empty store |
| `Game.InitialWorldInv` | src/game/mod.rs:26-27 | the start state satisfies the tick invariant and shows the welcome screen |
| `Game.PlayingGroup` | src/game/mod.rs:35-45 | the Playing chain keeps the paddle count and ends in the phase it started in, in LevelCompleted, or in GameOver |
| `Game.ResettingGroup` | src/game/mod.rs:48-55 | the Resetting chain appends one ball, one wall and one paddle and leaves the phase Playing with the score kept |
| `Game.Tick` | src/game/mod.rs:29-56 | one tick keeps the display size and never ends in Resetting |
| `Game.Render` | src/game/mod.rs:58-71 | exactly one screen per phase: HUD and entities only in Playing, welcome only in MainMenu, game over only in GameOver, completion only in LevelCompleted; the HUD shows the score and the paddle's lives |
| `Game.TickWhilePlaying` | src/game/mod.rs:34-45 | a tick of play keeps the invariant; the score grows by exactly 10 per block destroyed; the paddle loses at most one life; LevelCompleted iff the wall is empty, else GameOver iff no lives are left |
| `Game.PlayingGroupKeepsUnitSpeed` | src/game/mod.rs:35-45 | the Playing chain leaves every ball with a velocity in [−1, 1] on both axes when it started so |
| `Game.TickResetStartsGame` | src/game/mod.rs:33-55 | a held button outside play yields, in the same tick, Playing with score 0, one new paddle, one new ball and a full wall |
| `Game.TickIdle` | src/game/mod.rs:33 | outside play and without the button only `joystick` acts; phase, score, balls and blocks are unchanged |
| `Game.TickPreservesInv` | src/game/mod.rs:26-81 | every tick preserves the invariant, so in every reachable state: score + 10 × blocks = 300 once started, at most one ball, every ball's velocity within [−1, 1] on both axes, no dead block, and the shown screen is never blank |

## Left out

- **Hardware bring-up** (clocks, I2C, display init, ADC, GPIO, RNG, heap, panic
  handler). The ADC sample, the button level and the random word are
  parameters of `Tick`. The display size is a parameter of the world; it is
  128×64 on the shipped panel.
- **Drawing and flushing.** `Game.Render` names the screen and the rectangles it
  would draw. Font metrics, text centring, heart-icon positions and score
  formatting are not modelled.
- **Loop timing.** The 50 ms busy-wait between ticks and `blocking_delay` carry
  no logical content.
- **ECS machinery.** Command buffers, event queues, queries and change
  detection are replaced by sequences in spawn order and a boolean reset event.
- **Logging.**
- **Unused plugins.** `ProjectilePlugin` and `PlayerPlugin` are never added by
  `start_game`.
- **Commented-out legacy logic** in ball.rs.
- **Position and velocity arithmetic.** It is `i32` in the source and unbounded
  here. Wrap-around and the overflow of `abs` at `i32::MIN` are not modelled.
  `Game.Inv` proves every ball's velocity stays within [−1, 1]. That positions
  stay within a few pixels of the display is not proved.
- `Balls.ResolveCollision`: it takes the overlap size as the plain overlap,
  where the source casts it with `as i32`. The two differ only for an overlap
  of 2^31 or more. In the game the overlap is at most 40, the paddle's width.
- **Iteration order after a despawn.** The entity store keeps blocks in
  spawn order, and despawning removes a block in place. The source's store
  fills a despawned block's slot with the last block of its table, so once a
  block has been destroyed, `collison_handle` visits the remaining blocks in
  a different order from the model. Because the corrected rectangle carries
  on from block to block, the order can change which of two overlapped
  blocks is hit and whether a kill is scored. The proved properties do not
  depend on the order.
- `Balls.ResolveSeparates`: it proves separation only for a rectangle covering
  one edge of the obstacle with centres not level. The resolver does not
  separate in the other cases (see `Balls.ResolveMayLeaveOverlap`).
- `Balls.CollideBlocksScore`: it assumes all blocks are alive and the score does
  not wrap. A block already at zero lives that is hit again in the same tick
  (possible only with several balls) pays again.
- `Balls.CollideBalls`: with several balls it promises only that blocks never
  gain lives, not the exact score; `Balls.CollideBallsAt` gives each ball's
  outcome.
- `Game.TickWhilePlaying`: it rests on the invariant's single ball. Spawning
  only into an empty store keeps one ball at most.
- **Derived `Default` values.** `Position` and `Velocity` default to the origin
  (`Geometry.DEFAULT_POSITION`, `Geometry.DEFAULT_VELOCITY`). These are
  constants and carry no contract.
