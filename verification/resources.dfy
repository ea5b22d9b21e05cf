/**
 Process-wide resources: the phase of the game, the running score and the
 size of the display.
 */
module Resources {
  import opened Prelude

  /** The five phases of the game; `MainMenu` is the default. */
  datatype GameState = MainMenu | Playing | LevelCompleted | GameOver | Resetting

  /** The singleton holding the phase and the unsigned 32-bit score. */
  datatype GameStatus = GameStatus(state: GameState, score: u32)

  /** Width and height of the render surface in pixels (unsigned). */
  datatype DisplayResolution = DisplayResolution(width: u32, height: u32)

  /** The panel the game ships for. */
  const SSD1306_RESOLUTION: DisplayResolution := DisplayResolution(128, 64)

  /** `GameStatus::default()`: the derived default of each field. */
  function DefaultStatus(): (s: GameStatus)
    ensures s.state.MainMenu? && s.score == 0
  {
    GameStatus(MainMenu, 0)
  }
}
