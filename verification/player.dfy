/**
 The paddle: where it is spawned and how the joystick moves it.
 */
module Players {
  import opened Prelude
  import opened Geometry
  import opened Resources
  import opened Components

  const PLAYER_SPEED: int := 5
  const PLAYER_SIZE: Size := Size(40, 5)
  const PLAYER_LIVES: u8 := 3

  /** Joystick samples above this push the paddle left. */
  const LEFT_THRESHOLD: int := 3000
  /** Joystick samples below this push the paddle right. */
  const RIGHT_THRESHOLD: int := 1500

  function PlayerRect(p: Player): Rect {
    Rect(p.pos, PLAYER_SIZE)
  }

  /** Largest x at which the paddle still fits on the display. */
  function RightEdge(res: DisplayResolution): int {
    AsI32(res.width) - PLAYER_SIZE.width
  }

  /**
   A fresh paddle with three lives, at x = width/2 - 20 and y = height - 5,
   both computed in unsigned arithmetic before the cast to `i32`.
   */
  function NewPlayer(res: DisplayResolution): (p: Player)
    ensures p.lives == 3
    ensures PLAYER_SIZE.width / 2 <= res.width / 2 ==>
      p.pos.x + PLAYER_SIZE.width / 2 == res.width / 2
    ensures PLAYER_SIZE.height <= res.height < I32_LIMIT ==>
      PlayerRect(p).Bottom() == res.height
  {
    Player(
      Point(AsI32(WrappingSubU32(res.width / 2, PLAYER_SIZE.width / 2)),
            AsI32(WrappingSubU32(res.height, PLAYER_SIZE.height))),
      PLAYER_LIVES)
  }

  /** The `spawn_player` system: adds a fresh paddle to the store. */
  function SpawnPlayer(w: World): (w': World)
    ensures w' == w.(players := w'.players)
    ensures w'.players == w.players + [NewPlayer(w.res)]
  {
    w.(players := w.players + [NewPlayer(w.res)])
  }

  /**
   The `update_player` system. It acts only when exactly one paddle exists and
   the joystick read succeeded; a high sample moves left by 5 stopping at 0, a
   low sample moves right by 5 stopping at the right edge.
   */
  function UpdatePlayer(w: World, adc: Option<int>): (w': World)
    ensures w' == w.(players := w'.players)
    ensures |w'.players| == |w.players|
    ensures |w.players| != 1 || adc.None? ==> w' == w
    ensures |w.players| == 1 && adc.Some? ==>
      var p, p' := w.players[0], w'.players[0];
      && p'.lives == p.lives && p'.pos.y == p.pos.y
      && (adc.value > 3000 ==> p'.pos.x == Max(p.pos.x - 5, 0))
      && (adc.value < 1500 ==> p'.pos.x == Min(p.pos.x + 5, RightEdge(w.res)))
      && (1500 <= adc.value <= 3000 ==> p'.pos.x == p.pos.x)
  {
    if |w.players| != 1 then w
    else match adc {
      case None => w
      case Some(value) =>
        var p := w.players[0];
        if value > LEFT_THRESHOLD then
          w.(players := [p.(pos := p.pos.(x := Max(p.pos.x - PLAYER_SPEED, 0)))])
        else if value < RIGHT_THRESHOLD then
          var right := RightEdge(w.res);
          w.(players := [p.(pos := p.pos.(x := Min(p.pos.x + PLAYER_SPEED, right)))])
        else w
    }
  }

  /** On the 128x64 panel the fresh paddle sits at (44, 59), touching the bottom. */
  lemma NewPlayerOnPanel()
    ensures NewPlayer(SSD1306_RESOLUTION) == Player(Point(44, 59), 3)
  {
  }
}
