/**
 The records the entity store holds, and the store itself.

 Each entity kind is kept as a sequence in spawn order; despawning removes the
 element and spawning appends. Only the kinds that the game systems query are
 represented.
 */
module Components {
  import opened Prelude
  import opened Geometry
  import opened Resources

  /** A ball entity: its `Position` and `Velocity` components. */
  datatype Ball = Ball(pos: Point, vel: Velocity)

  /** A block entity: its `Position` and remaining lives. */
  datatype Block = Block(pos: Point, lives: u8)

  /** The paddle entity: its `Position` and remaining lives. */
  datatype Player = Player(pos: Point, lives: u8)

  /** Everything one tick reads and writes. */
  datatype World = World(
    res: DisplayResolution,
    status: GameStatus,
    players: seq<Player>,
    balls: seq<Ball>,
    blocks: seq<Block>)

  /** Every block still has a life left. */
  predicate AllAlive(blocks: seq<Block>) {
    forall i :: 0 <= i < |blocks| ==> blocks[i].lives > 0
  }

  /** Number of blocks with no lives left. */
  function DeadCount(blocks: seq<Block>): (n: nat)
    ensures n <= |blocks|
    ensures n == 0 <==> AllAlive(blocks)
  {
    if |blocks| == 0 then 0
    else (if blocks[0].lives == 0 then 1 else 0) + DeadCount(blocks[1..])
  }
}
