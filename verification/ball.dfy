/**
 The ball: spawning, movement with wall bounces, the axis-aligned collision
 resolver, scoring against the wall of blocks, and loss off the bottom edge.
 */
module Balls {
  import opened Prelude
  import opened Geometry
  import opened Resources
  import opened Components
  import opened Blocks
  import opened Players

  const BALL_SIZE: Size := Size(4, 4)
  const BALL_SPEED: int := 1
  /** Score awarded when a hit leaves a block with no lives. */
  const KILL_REWARD: nat := 10

  function BallRect(b: Ball): Rect {
    Rect(b.pos, BALL_SIZE)
  }

  /** A ball moving at most one pixel per tick along each axis. */
  predicate UnitSpeed(b: Ball) {
    -1 <= b.vel.x <= 1 && -1 <= b.vel.y <= 1
  }

  // ---------------------------------------------------------------------------
  // Collision resolver
  // ---------------------------------------------------------------------------

  /** Outcome of resolving one moving rectangle against one obstacle. */
  datatype Collision = Collision(rect: Rect, vel: Velocity, hit: bool)

  /** Sign of the step from the centre of `a` to the centre of `b`, per axis. */
  function Separation(a: Rect, b: Rect): Point {
    var to := Point(Center(b).x - Center(a).x, Center(b).y - Center(a).y);
    Point(Signum(to.x), Signum(to.y))
  }

  /**
   A velocity component `v'` reflected from `v` for separation sign `s`: same
   magnitude, pointing away from the obstacle (non-positive when the obstacle
   lies ahead, non-negative when it lies behind, simply negated when level).
   */
  predicate ReflectedAway(v: int, v': int, s: int) {
    && Abs(v') == Abs(v)
    && (s == 1 ==> v' <= 0)
    && (s == -1 ==> v' >= 0)
    && (s == 0 ==> v' == -v)
  }

  /** The velocity `match` on the separation sign; the fall-through arm keeps `v`. */
  function Reflect(v: int, s: int): (v': int)
    ensures -1 <= s <= 1 ==> ReflectedAway(v, v', s)
  {
    if s == 1 then -Abs(v)
    else if s == -1 then Abs(v)
    else if s == 0 then -v
    else v
  }

  /**
   `resolve_collison`: with no shared pixel nothing happens; otherwise the
   moving rectangle is pushed out along the axis of shallower penetration
   (Y when the overlap is wider than tall, X otherwise, ties included), by the
   overlap depth against the separation sign, and only that axis's velocity
   component is reflected.
   */
  function ResolveCollision(a: Rect, vel: Velocity, b: Rect): (c: Collision)
    ensures c.hit <==> Overlaps(a, b)
    ensures !c.hit ==> c.rect == a && c.vel == vel
    ensures c.rect.size == a.size
    ensures Abs(c.vel.x) == Abs(vel.x) && Abs(c.vel.y) == Abs(vel.y)
    ensures c.hit && Intersection(a, b).width > Intersection(a, b).height ==>
      && c.rect.topLeft.x == a.topLeft.x
      && c.vel.x == vel.x
      && c.rect.topLeft.y == a.topLeft.y - Separation(a, b).y * Intersection(a, b).height
      && ReflectedAway(vel.y, c.vel.y, Separation(a, b).y)
    ensures c.hit && Intersection(a, b).width <= Intersection(a, b).height ==>
      && c.rect.topLeft.y == a.topLeft.y
      && c.vel.y == vel.y
      && c.rect.topLeft.x == a.topLeft.x - Separation(a, b).x * Intersection(a, b).width
      && ReflectedAway(vel.x, c.vel.x, Separation(a, b).x)
  {
    var inter := Intersection(a, b);
    if inter.width == 0 || inter.height == 0 then Collision(a, vel, false)
    else
      var s := Separation(a, b);
      if inter.width > inter.height then
        Collision(a.(topLeft := a.topLeft.(y := a.topLeft.y - s.y * inter.height)),
                  vel.(y := Reflect(vel.y, s.y)), true)
      else
        Collision(a.(topLeft := a.topLeft.(x := a.topLeft.x - s.x * inter.width)),
                  vel.(x := Reflect(vel.x, s.x)), true)
  }

  /** The span [a0, a0 + alen) covers exactly one edge of [b0, b0 + blen). */
  predicate StraddlesEdge(a0: int, alen: nat, b0: int, blen: nat) {
    (a0 <= b0 && a0 + alen <= b0 + blen) || (b0 <= a0 && b0 + blen <= a0 + alen)
  }

  /** Centres of spans keep the order of the spans' two ends. */
  lemma CenterMonotone(a0: int, alen: nat, b0: int, blen: nat)
    requires alen > 0 && blen > 0
    requires a0 <= b0 && a0 + alen <= b0 + blen
    ensures a0 + CenterOffset(alen) <= b0 + CenterOffset(blen)
  {
    assert 2 * a0 + alen - 1 <= 2 * b0 + blen - 1;
  }

  /**
   Pushing a span out by its overlap depth, against a nonzero separation
   sign, leaves it touching but no longer overlapping the obstacle span,
   provided it covered one edge of the obstacle.
   */
  lemma {:induction false} PushOutSeparates(a0: int, alen: nat, b0: int, blen: nat)
    requires SpanOverlap(a0, alen, b0, blen) > 0
    requires StraddlesEdge(a0, alen, b0, blen)
    requires Signum((b0 + CenterOffset(blen)) - (a0 + CenterOffset(alen))) != 0
    ensures var s := Signum((b0 + CenterOffset(blen)) - (a0 + CenterOffset(alen)));
      SpanOverlap(a0 - s * SpanOverlap(a0, alen, b0, blen), alen, b0, blen) == 0
  {
    var s := Signum((b0 + CenterOffset(blen)) - (a0 + CenterOffset(alen)));
    if a0 <= b0 && a0 + alen <= b0 + blen {
      CenterMonotone(a0, alen, b0, blen);
      assert s == 1;
    } else {
      CenterMonotone(b0, blen, a0, alen);
      assert s == -1;
    }
  }

  /**
   After a hit, the moving rectangle no longer overlaps the obstacle when on
   the resolved axis it covered one edge of the obstacle and the centres were
   not level on that axis.
   */
  lemma ResolveSeparates(a: Rect, vel: Velocity, b: Rect)
    requires Overlaps(a, b)
    requires Intersection(a, b).width > Intersection(a, b).height ==>
      StraddlesEdge(a.topLeft.y, a.size.height, b.topLeft.y, b.size.height) && Separation(a, b).y != 0
    requires Intersection(a, b).width <= Intersection(a, b).height ==>
      StraddlesEdge(a.topLeft.x, a.size.width, b.topLeft.x, b.size.width) && Separation(a, b).x != 0
    ensures !Overlaps(ResolveCollision(a, vel, b).rect, b)
  {
    if Intersection(a, b).width > Intersection(a, b).height {
      PushOutSeparates(a.topLeft.y, a.size.height, b.topLeft.y, b.size.height);
    } else {
      PushOutSeparates(a.topLeft.x, a.size.width, b.topLeft.x, b.size.width);
    }
  }

  /**
   Being a discrete resolver, a rectangle lying wholly inside the obstacle on
   the resolved axis is not pushed clear in one step.
   */
  lemma ResolveMayLeaveOverlap()
    ensures var a := Rect(Point(0, 5), Size(20, 2));
      var b := Rect(Point(0, 0), Size(20, 20));
      var c := ResolveCollision(a, Velocity(0, 1), b);
      c.hit && c.rect.topLeft == Point(0, 3) && Overlaps(c.rect, b)
  {
  }

  /**
   The ball resting on the fresh paddle on the 128x64 panel: the overlap is
   4 wide and 3 tall, so the Y branch lifts the ball to y = 55 and sends it up.
   */
  lemma ResolveBallOnPaddle()
    ensures var c := ResolveCollision(Rect(Point(44, 58), BALL_SIZE), Velocity(0, 1),
                                      Rect(Point(44, 59), PLAYER_SIZE));
      c == Collision(Rect(Point(44, 55), BALL_SIZE), Velocity(0, -1), true)
  {
    assert Intersection(Rect(Point(44, 58), BALL_SIZE), Rect(Point(44, 59), PLAYER_SIZE)) == Size(4, 3);
  }

  // ---------------------------------------------------------------------------
  // Spawning and movement
  // ---------------------------------------------------------------------------

  /**
   A new ball at the centre of the display, heading up, its horizontal
   direction derived from a random word: reinterpreted as `i32`, reduced by
   Rust's truncating `% 21`, shifted by 10 and clamped into [-1, 1].
   */
  function NewBall(res: DisplayResolution, rand: u32): (b: Ball)
    ensures b.pos == Point(res.width / 2, res.height / 2)
    ensures -1 <= b.vel.x <= 1
    ensures b.vel.y == -1
  {
    Ball(Point(AsI32(res.width / 2), AsI32(res.height / 2)),
         Velocity(Clamp(TruncRem(AsI32(rand), 21) - 10, -1, 1), -1))
  }

  /**
   The horizontal direction of a new ball in closed form: words that read as
   negative `i32`s always give -1; the others give the sign of their residue
   modulo 21 minus 10.
   */
  lemma NewBallDirection(res: DisplayResolution, rand: u32)
    ensures rand >= I32_LIMIT ==> NewBall(res, rand).vel.x == -1
    ensures rand < I32_LIMIT ==> NewBall(res, rand).vel.x == Signum(rand % 21 - 10)
  {
  }

  /** The `spawn_ball` system: adds one new ball to the store. */
  function SpawnBall(w: World, rand: u32): (w': World)
    ensures w' == w.(balls := w'.balls)
    ensures w'.balls == w.balls + [NewBall(w.res, rand)]
  {
    w.(balls := w.balls + [NewBall(w.res, rand)])
  }

  /** Spawning a ball when none is in play; a ball already in play is kept as is. */
  function SpawnBallIfEmpty(w: World, rand: u32): (w': World)
    ensures w' == w.(balls := w'.balls)
    ensures |w.balls| == 0 ==> w'.balls == [NewBall(w.res, rand)]
    ensures |w.balls| > 0 ==> w' == w
  {
    if |w.balls| == 0 then SpawnBall(w, rand) else w
  }

  /** Right-most x at which the ball still lies inside the display. */
  function BallRightLimit(res: DisplayResolution): int {
    AsI32(res.width) - BALL_SIZE.width
  }

  /**
   One ball's movement: advance by its velocity, then turn it back from the
   left, right and top walls. There is no bottom wall and no clamping.
   */
  function StepBall(b: Ball, res: DisplayResolution): (b': Ball)
    ensures b'.pos == Point(b.pos.x + b.vel.x * BALL_SPEED, b.pos.y + b.vel.y * BALL_SPEED)
    ensures b'.pos.x < 0 ==> b'.vel.x == 1
    ensures 0 <= b'.pos.x && b'.pos.x > BallRightLimit(res) ==> b'.vel.x == -1
    ensures 0 <= b'.pos.x <= BallRightLimit(res) ==> b'.vel.x == b.vel.x
    ensures b'.pos.y < 0 ==> b'.vel.y == 1
    ensures b'.pos.y >= 0 ==> b'.vel.y == b.vel.y
    ensures UnitSpeed(b) ==> UnitSpeed(b')
  {
    var pos := Point(b.pos.x + b.vel.x * BALL_SPEED, b.pos.y + b.vel.y * BALL_SPEED);
    var vx := if pos.x < 0 then 1 else if pos.x > BallRightLimit(res) then -1 else b.vel.x;
    var vy := if pos.y < 0 then 1 else b.vel.y;
    Ball(pos, Velocity(vx, vy))
  }

  /** The `update_ball` system: every ball takes one step; nothing else changes. */
  function UpdateBall(w: World): (w': World)
    ensures w' == w.(balls := w'.balls)
    ensures |w'.balls| == |w.balls|
    ensures forall i :: 0 <= i < |w.balls| ==> w'.balls[i] == StepBall(w.balls[i], w.res)
  {
    w.(balls := seq(|w.balls|, i requires 0 <= i < |w.balls| => StepBall(w.balls[i], w.res)))
  }

  /** A ball moving down keeps falling: its y strictly grows in a step. */
  lemma FallingBallDescends(b: Ball, res: DisplayResolution)
    requires b.vel.y > 0
    requires b.pos.y >= 0
    ensures StepBall(b, res).pos.y > b.pos.y
    ensures StepBall(b, res).vel.y == b.vel.y
  {
  }

  /** A new ball on the 128x64 panel moves from (64, 32) to (64 + vx, 31) in one step. */
  lemma NewBallFirstStep(rand: u32)
    ensures var b := NewBall(SSD1306_RESOLUTION, rand);
      StepBall(b, SSD1306_RESOLUTION) == Ball(Point(64 + b.vel.x, 31), b.vel)
  {
  }

  // ---------------------------------------------------------------------------
  // Collision handling and scoring
  // ---------------------------------------------------------------------------

  /** State threaded through the pass of one ball over the blocks. */
  datatype BlockPass = BlockPass(rect: Rect, vel: Velocity, blocks: seq<Block>, score: u32)

  /** Each block keeps its place and never gains lives. */
  predicate BlocksKept(blocks: seq<Block>, blocks': seq<Block>) {
    && |blocks'| == |blocks|
    && forall i :: 0 <= i < |blocks| ==>
         blocks'[i].pos == blocks[i].pos && blocks'[i].lives <= blocks[i].lives
  }

  /** Each block keeps its place and either keeps its lives or loses one, saturating. */
  predicate BlocksWorn(blocks: seq<Block>, blocks': seq<Block>) {
    && |blocks'| == |blocks|
    && forall i :: 0 <= i < |blocks| ==>
         && blocks'[i].pos == blocks[i].pos
         && (blocks'[i].lives == blocks[i].lives || blocks'[i].lives == SaturatingDec(blocks[i].lives))
  }

  /**
   The inner loop of `collison_handle`: the ball's rectangle is resolved
   against every block in store order, the corrected rectangle and velocity
   carrying over to the next block. Each hit costs the block one life
   (saturating) and pays the kill reward when the block is left with none.
   */
  function CollideBlocks(rect: Rect, vel: Velocity, blocks: seq<Block>, score: u32): (p: BlockPass)
    ensures p.rect.size == rect.size
    ensures Abs(p.vel.x) == Abs(vel.x) && Abs(p.vel.y) == Abs(vel.y)
    ensures BlocksWorn(blocks, p.blocks)
    ensures |blocks| > 0 ==>
      p.blocks[0] == if Overlaps(rect, BlockRect(blocks[0]))
                     then blocks[0].(lives := SaturatingDec(blocks[0].lives))
                     else blocks[0]
    decreases |blocks|
  {
    if |blocks| == 0 then BlockPass(rect, vel, blocks, score)
    else
      var c := ResolveCollision(rect, vel, BlockRect(blocks[0]));
      var first := if c.hit then blocks[0].(lives := SaturatingDec(blocks[0].lives)) else blocks[0];
      var score' := if c.hit && first.lives == 0 then WrappingAddU32(score, KILL_REWARD) else score;
      var rest := CollideBlocks(c.rect, c.vel, blocks[1..], score');
      rest.(blocks := [first] + rest.blocks)
  }

  /**
   A pass over `a + b` is the pass over `a` followed by the pass over `b`
   from the rectangle, velocity and score that `a` left behind.
   */
  lemma {:induction false} CollideBlocksSplit(rect: Rect, vel: Velocity, a: seq<Block>, b: seq<Block>, score: u32)
    ensures var pa := CollideBlocks(rect, vel, a, score);
      var pb := CollideBlocks(pa.rect, pa.vel, b, pa.score);
      CollideBlocks(rect, vel, a + b, score) == pb.(blocks := pa.blocks + pb.blocks)
    decreases |a|
  {
    if |a| == 0 {
      assert a + b == b;
    } else {
      var c := ResolveCollision(rect, vel, BlockRect(a[0]));
      var first := if c.hit then a[0].(lives := SaturatingDec(a[0].lives)) else a[0];
      var score' := if c.hit && first.lives == 0 then WrappingAddU32(score, KILL_REWARD) else score;
      CollideBlocksSplit(c.rect, c.vel, a[1..], b, score');
      ConcatTail(a, b);
      var pa := CollideBlocks(c.rect, c.vel, a[1..], score');
      var pb := CollideBlocks(pa.rect, pa.vel, b, pa.score);
      assert [first] + (pa.blocks + pb.blocks) == ([first] + pa.blocks) + pb.blocks;
    }
  }

  /**
   Block `i` meets the rectangle and velocity carried over from the blocks
   before it: it loses one life (saturating) exactly when that rectangle
   overlaps it, and the resolver's answer against it is what the pass carries
   on to block `i + 1`.
   */
  lemma CollideBlocksAt(rect: Rect, vel: Velocity, blocks: seq<Block>, score: u32, i: nat)
    requires i < |blocks|
    ensures var pre := CollideBlocks(rect, vel, blocks[..i], score);
      var c := ResolveCollision(pre.rect, pre.vel, BlockRect(blocks[i]));
      && CollideBlocks(rect, vel, blocks, score).blocks[i]
         == (if Overlaps(pre.rect, BlockRect(blocks[i]))
             then blocks[i].(lives := SaturatingDec(blocks[i].lives))
             else blocks[i])
      && CollideBlocks(rect, vel, blocks[..i + 1], score).rect == c.rect
      && CollideBlocks(rect, vel, blocks[..i + 1], score).vel == c.vel
  {
    var pre := CollideBlocks(rect, vel, blocks[..i], score);
    SplitAt(blocks, i);
    CollideBlocksSplit(rect, vel, blocks[..i], blocks[i..], score);
    CollideBlocksSplit(rect, vel, blocks[..i], [blocks[i]], score);
  }

  /**
   When every block had a life left and the score cannot wrap, the pass pays
   exactly the kill reward for every block it left without lives.
   */
  lemma {:induction false} CollideBlocksScore(rect: Rect, vel: Velocity, blocks: seq<Block>, score: u32)
    requires AllAlive(blocks)
    requires score + KILL_REWARD * |blocks| < U32_LIMIT
    ensures var p := CollideBlocks(rect, vel, blocks, score);
      p.score == score + KILL_REWARD * DeadCount(p.blocks)
    decreases |blocks|
  {
    if |blocks| > 0 {
      var c := ResolveCollision(rect, vel, BlockRect(blocks[0]));
      var first := if c.hit then blocks[0].(lives := SaturatingDec(blocks[0].lives)) else blocks[0];
      var score' := if c.hit && first.lives == 0 then WrappingAddU32(score, KILL_REWARD) else score;
      CollideBlocksScore(c.rect, c.vel, blocks[1..], score');
      var rest := CollideBlocks(c.rect, c.vel, blocks[1..], score');
      assert ([first] + rest.blocks)[1..] == rest.blocks;
    }
  }

  /**
   No "first hit wins": a ball straddling two neighbouring blocks of the top
   row is resolved against both in the same pass, and both lose a life.
   */
  lemma CollideBlocksHitsBoth()
    ensures var blocks := [Block(Point(0, 10), 2), Block(Point(21, 10), 2)];
      var p := CollideBlocks(Rect(Point(18, 11), BALL_SIZE), Velocity(1, -1), blocks, 0);
      p.blocks == [Block(Point(0, 10), 1), Block(Point(21, 10), 1)]
      && p.rect.topLeft == Point(20, 13) && p.vel == Velocity(1, 1) && p.score == 0
  {
    var a := Rect(Point(18, 11), BALL_SIZE);
    assert Intersection(a, BlockRect(Block(Point(0, 10), 2))) == Size(2, 2);
    var a' := Rect(Point(20, 11), BALL_SIZE);
    assert Intersection(a', BlockRect(Block(Point(21, 10), 2))) == Size(3, 2);
  }

  /** State threaded through the outer loop of `collison_handle`, over the balls. */
  datatype BallPass = BallPass(balls: seq<Ball>, blocks: seq<Block>, score: u32)

  /** The outer loop: each ball in turn bounces off the paddle, then runs over the blocks. */
  function CollideBalls(balls: seq<Ball>, blocks: seq<Block>, paddle: Rect, score: u32): (p: BallPass)
    ensures |p.balls| == |balls|
    ensures forall i :: 0 <= i < |balls| ==>
      Abs(p.balls[i].vel.x) == Abs(balls[i].vel.x) && Abs(p.balls[i].vel.y) == Abs(balls[i].vel.y)
    ensures BlocksKept(blocks, p.blocks)
    ensures |balls| == 1 ==> BlocksWorn(blocks, p.blocks)
    decreases |balls|
  {
    if |balls| == 0 then BallPass(balls, blocks, score)
    else
      var c := ResolveCollision(BallRect(balls[0]), balls[0].vel, paddle);
      var bp := CollideBlocks(c.rect, c.vel, blocks, score);
      var rest := CollideBalls(balls[1..], bp.blocks, paddle, bp.score);
      rest.(balls := [Ball(bp.rect.topLeft, bp.vel)] + rest.balls)
  }

  /**
   Colliding the balls `a + b` is colliding `a`, then colliding `b` against
   the blocks and score that `a` left behind.
   */
  lemma {:induction false} CollideBallsSplit(a: seq<Ball>, b: seq<Ball>, blocks: seq<Block>, paddle: Rect, score: u32)
    ensures var pa := CollideBalls(a, blocks, paddle, score);
      var pb := CollideBalls(b, pa.blocks, paddle, pa.score);
      CollideBalls(a + b, blocks, paddle, score) == pb.(balls := pa.balls + pb.balls)
    decreases |a|
  {
    if |a| == 0 {
      assert a + b == b;
    } else {
      var c := ResolveCollision(BallRect(a[0]), a[0].vel, paddle);
      var bp := CollideBlocks(c.rect, c.vel, blocks, score);
      CollideBallsSplit(a[1..], b, bp.blocks, paddle, bp.score);
      ConcatTail(a, b);
      var pa := CollideBalls(a[1..], bp.blocks, paddle, bp.score);
      var pb := CollideBalls(b, pa.blocks, paddle, pa.score);
      var head := Ball(bp.rect.topLeft, bp.vel);
      ConcatAssoc([head], pa.balls, pb.balls);
    }
  }

  /**
   Ball `i` first meets the paddle, and the resolver's answer then runs over
   the blocks and score left by the balls before it; where that pass ends is
   the ball's new position and velocity, and its blocks and score are what
   the next ball meets.
   */
  lemma CollideBallsAt(balls: seq<Ball>, blocks: seq<Block>, paddle: Rect, score: u32, i: nat)
    requires i < |balls|
    ensures var pre := CollideBalls(balls[..i], blocks, paddle, score);
      var c := ResolveCollision(BallRect(balls[i]), balls[i].vel, paddle);
      var bp := CollideBlocks(c.rect, c.vel, pre.blocks, pre.score);
      && CollideBalls(balls, blocks, paddle, score).balls[i] == Ball(bp.rect.topLeft, bp.vel)
      && CollideBalls(balls[..i + 1], blocks, paddle, score).blocks == bp.blocks
      && CollideBalls(balls[..i + 1], blocks, paddle, score).score == bp.score
  {
    SplitAt(balls, i);
    CollideBallsSplit(balls[..i], balls[i..], blocks, paddle, score);
    CollideBallsSplit(balls[..i], [balls[i]], blocks, paddle, score);
  }

  /**
   The `collison_handle` system. Without exactly one paddle it does nothing.
   Otherwise only balls, blocks and the score change; every block keeps its
   place and loses at most one life to each ball, and no ball changes speed.
   */
  function CollisionHandle(w: World): (w': World)
    ensures w' == w.(balls := w'.balls, blocks := w'.blocks, status := w'.status)
    ensures w'.status.state == w.status.state
    ensures |w'.balls| == |w.balls|
    ensures forall i :: 0 <= i < |w.balls| ==>
      Abs(w'.balls[i].vel.x) == Abs(w.balls[i].vel.x) && Abs(w'.balls[i].vel.y) == Abs(w.balls[i].vel.y)
    ensures |w.players| != 1 ==> w' == w
    ensures BlocksKept(w.blocks, w'.blocks)
    ensures |w.balls| == 1 ==> BlocksWorn(w.blocks, w'.blocks)
  {
    if |w.players| != 1 then w
    else
      var p := CollideBalls(w.balls, w.blocks, PlayerRect(w.players[0]), w.status.score);
      w.(balls := p.balls, blocks := p.blocks, status := w.status.(score := p.score))
  }

  /**
   With one paddle and one ball, the ball is first resolved against the
   paddle and the answer is then passed over the blocks: the end of that pass
   is the ball's new position and velocity, its blocks and score the world's.
   */
  lemma CollisionHandleOneBall(w: World)
    requires |w.players| == 1 && |w.balls| == 1
    ensures var b := w.balls[0];
      var c := ResolveCollision(BallRect(b), b.vel, PlayerRect(w.players[0]));
      var bp := CollideBlocks(c.rect, c.vel, w.blocks, w.status.score);
      CollisionHandle(w) == w.(balls := [Ball(bp.rect.topLeft, bp.vel)], blocks := bp.blocks,
                               status := w.status.(score := bp.score))
  {
    CollideBallsAt(w.balls, w.blocks, PlayerRect(w.players[0]), w.status.score, 0);
    assert w.balls[..1] == w.balls;
  }

  /**
   With one paddle and one ball, block `i` loses one life (saturating) exactly
   when the ball's rectangle, as carried past the paddle and the blocks before
   it, overlaps the block; otherwise it is left as it was.
   */
  lemma CollisionHandleHit(w: World, i: nat)
    requires |w.players| == 1 && |w.balls| == 1 && i < |w.blocks|
    ensures var b := w.balls[0];
      var c := ResolveCollision(BallRect(b), b.vel, PlayerRect(w.players[0]));
      var carried := CollideBlocks(c.rect, c.vel, w.blocks[..i], w.status.score).rect;
      CollisionHandle(w).blocks[i]
        == if Overlaps(carried, BlockRect(w.blocks[i]))
           then w.blocks[i].(lives := SaturatingDec(w.blocks[i].lives))
           else w.blocks[i]
  {
    var b := w.balls[0];
    var c := ResolveCollision(BallRect(b), b.vel, PlayerRect(w.players[0]));
    CollisionHandleOneBall(w);
    CollideBlocksAt(c.rect, c.vel, w.blocks, w.status.score, i);
  }

  /**
   With one ball in play, blocks that all had a life left and a score that
   cannot wrap, the system raises the score by exactly 10 per block it left
   without lives.
   */
  lemma CollisionHandleScore(w: World)
    requires |w.balls| <= 1
    requires AllAlive(w.blocks)
    requires w.status.score + KILL_REWARD * |w.blocks| < U32_LIMIT
    ensures CollisionHandle(w).status.score == w.status.score + KILL_REWARD * DeadCount(CollisionHandle(w).blocks)
  {
    if |w.players| == 1 && |w.balls| == 1 {
      var b := w.balls[0];
      var c := ResolveCollision(BallRect(b), b.vel, PlayerRect(w.players[0]));
      CollideBlocksScore(c.rect, c.vel, w.blocks, w.status.score);
      CollisionHandleOneBall(w);
    }
  }

  // ---------------------------------------------------------------------------
  // Loss off the bottom edge
  // ---------------------------------------------------------------------------

  /** The balls whose top edge is still at or above `height`, in store order. */
  function BallsOnScreen(balls: seq<Ball>, height: int): (kept: seq<Ball>)
    ensures forall b :: multiset(kept)[b] == if b.pos.y <= height then multiset(balls)[b] else 0
    ensures forall b :: b in kept <==> b in balls && b.pos.y <= height
    ensures |kept| <= |balls|
    ensures |kept| == |balls| <==> forall i :: 0 <= i < |balls| ==> balls[i].pos.y <= height
  {
    if |balls| == 0 then []
    else
      assert balls == [balls[0]] + balls[1..];
      if balls[0].pos.y > height then BallsOnScreen(balls[1..], height)
      else [balls[0]] + BallsOnScreen(balls[1..], height)
  }

  /** Some ball has fallen strictly below the display. */
  predicate AnyBallLost(balls: seq<Ball>, res: DisplayResolution) {
    exists i :: 0 <= i < |balls| && balls[i].pos.y > AsI32(res.height)
  }

  /**
   The `remove_balls` system: despawns exactly the balls below the display
   and, when at least one went, takes one life (saturating) from the single
   paddle, however many balls were lost.
   */
  function RemoveBalls(w: World): (w': World)
    ensures w' == w.(balls := w'.balls, players := w'.players)
    ensures forall b :: multiset(w'.balls)[b] == if b.pos.y <= AsI32(w.res.height) then multiset(w.balls)[b] else 0
    ensures forall b :: b in w'.balls <==> b in w.balls && b.pos.y <= AsI32(w.res.height)
    ensures |w'.balls| <= |w.balls|
    ensures |w'.players| == |w.players|
    ensures |w.players| != 1 ==> w'.players == w.players
    ensures |w.players| == 1 ==>
      && w'.players[0].pos == w.players[0].pos
      && w'.players[0].lives == (if AnyBallLost(w.balls, w.res) then SaturatingDec(w.players[0].lives)
                                 else w.players[0].lives)
  {
    var kept := BallsOnScreen(w.balls, AsI32(w.res.height));
    if |kept| < |w.balls| && |w.players| == 1 then
      var p := w.players[0];
      w.(balls := kept, players := [p.(lives := SaturatingDec(p.lives))])
    else
      w.(balls := kept)
  }
}
