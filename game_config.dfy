/** The validated game configuration. */
module Config {

  import opened Difficulty
  import opened Wrappers

  /** The smallest side length a board may have. */
  const MinLongSide := 5

  datatype GameConfig = GameConfig(cellSize: int, mapWidth: int, mapHeight: int, difficulty: GameDifficulty) {

    /** Both sides reach the minimum; nothing else is checked. */
    predicate Valid() {
      mapWidth >= MinLongSide && mapHeight >= MinLongSide
    }
  }

  /** A configuration that passed construction. */
  type ValidConfig = c: GameConfig | c.Valid() witness GameConfig(10, MinLongSide, MinLongSide, Easy)

  datatype ConfigError = MapWidthTooSmall | MapHeightTooSmall

  /** Construction: the width check runs first, then the height check. */
  function NewGameConfig(cellSize: int, mapWidth: int, mapHeight: int, difficulty: GameDifficulty)
    : (r: Result<ValidConfig, ConfigError>)
    ensures r.Ok? <==> mapWidth >= MinLongSide && mapHeight >= MinLongSide
    ensures r.Ok? ==> r.value == GameConfig(cellSize, mapWidth, mapHeight, difficulty)
    ensures mapWidth < MinLongSide ==> r == Err(MapWidthTooSmall)
    ensures mapWidth >= MinLongSide && mapHeight < MinLongSide ==> r == Err(MapHeightTooSmall)
  {
    if mapWidth < MinLongSide then Err(MapWidthTooSmall)
    else if mapHeight < MinLongSide then Err(MapHeightTooSmall)
    else Ok(GameConfig(cellSize, mapWidth, mapHeight, difficulty))
  }

  /** Any cell size, any difficulty and any large sides are accepted. */
  lemma NoUpperBound(cellSize: int, mapWidth: int, mapHeight: int, difficulty: GameDifficulty)
    requires mapWidth >= MinLongSide && mapHeight >= MinLongSide
    ensures NewGameConfig(cellSize, mapWidth, mapHeight, difficulty).Ok?
  {
  }
}
