/** The three-state scene and the systems that end a round. */
module Scene {
  import opened Events

  datatype GameScene = Over | Clear | InGame

  /** The scene the game starts in. */
  const Initial := InGame

  /** `check_game_over_system`: every loss event read sets the scene to `Over`. */
  function CheckGameOver(scene: GameScene, events: seq<OnGameOver>): (r: GameScene)
    ensures r == if events == [] then scene else Over
    decreases |events|
  {
    if events == [] then scene else CheckGameOver(Over, events[1..])
  }

  /** `check_game_clear_system`: every clear event read (a unit event, so
      only their number matters) sets the scene to `Clear`. */
  function CheckGameClear(scene: GameScene, clears: nat): (r: GameScene)
    ensures r == if clears == 0 then scene else Clear
    decreases clears
  {
    if clears == 0 then scene else CheckGameClear(Clear, clears - 1)
  }
}
