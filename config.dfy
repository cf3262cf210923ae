/** The game's fixed configuration (the `Config` class of rhythm_game.py).
    Positions are integers: letters start at -FontSize and move by WordSpeed,
    which is exact for these values. */
module Config {
  const ScreenWidth: int := 800
  const ScreenHeight: int := 600
  /** Vertical coordinate of the line at which letters should be struck. */
  const HitLineY: int := 500
  /** Pixels a letter that is not hit falls per update tick (3.0 in the source). */
  const WordSpeed: int := 3
  /** Milliseconds between spawn ticks. */
  const WordSpawnRate: int := 500
  const FontSize: int := 30
  /** Distance on either side of the hit line within which a key press can strike a letter. */
  const HitTolerance: int := 25
  const GameDurationSeconds: int := 60
  const MaxHighScores: nat := 5
  /** The glyphs the spawner draws from. */
  const Alphabet: string := "abcdefghijklmnopqrstuvwxyz"
  /** Left margin of the spawn range. */
  const SpawnMargin: int := 20
}

module Options {
  datatype Option<T> = None | Some(value: T)
}
