/** The input gating systems. Mouse and keyboard state are given as booleans
    and the cell under the cursor as a given cell. */
module Controller {
  import opened HexGrid
  import opened Model
  import opened Scene

  /** The open and flag intents written in one frame, one list per queue. */
  datatype MoveIntents = MoveIntents(opens: seq<PointyHexGrid>, flags: seq<PointyHexGrid>)

  /** `check_try_move_tile_system`: while in game, a released left button asks
      to open the on-board cell under the cursor and a released right button
      asks to flag it. */
  function CheckTryMoveTile(scene: GameScene, b: GameBoard, grid: PointyHexGrid,
                            leftReleased: bool, rightReleased: bool): (r: MoveIntents)
    ensures |r.opens| <= 1 && |r.flags| <= 1
    ensures r.opens != [] <==> scene == InGame && !IsOutOfBound(b, grid) && leftReleased
    ensures r.flags != [] <==> scene == InGame && !IsOutOfBound(b, grid) && rightReleased
    ensures forall g | g in r.opens + r.flags :: g == grid && !IsOutOfBound(b, g)
  {
    if scene == InGame then
      MoveIntents(if !IsOutOfBound(b, grid) && leftReleased then [grid] else [],
                  if !IsOutOfBound(b, grid) && rightReleased then [grid] else [])
    else MoveIntents([], [])
  }

  /** `check_retry_system`: from `Over` or `Clear`, a released mouse button
      returns to the game and writes one retry event; in game it does nothing. */
  function CheckRetry(scene: GameScene, leftReleased: bool, rightReleased: bool): (r: (GameScene, nat))
    ensures r.1 <= 1
    ensures r.1 == 1 <==> scene != InGame && (leftReleased || rightReleased)
    ensures r.0 == if r.1 == 1 then InGame else scene
  {
    match scene
    case Over | Clear =>
      if leftReleased || rightReleased then (InGame, 1) else (scene, 0)
    case InGame => (scene, 0)
  }

  /** `check_try_undo_system`: while in game, Z released with left Control held
      asks for one undo. */
  function CheckTryUndo(scene: GameScene, lControlPressed: bool, zReleased: bool): (r: nat)
    ensures r <= 1
    ensures r == 1 <==> scene == InGame && lControlPressed && zReleased
  {
    if scene == InGame && lControlPressed && zReleased then 1 else 0
  }

  /** Intents the controller writes always name on-board cells, so the model
      acts on each of them unless the tile is already open or flagged. */
  lemma IntentsReachTheBoard(scene: GameScene, b: GameBoard, grid: PointyHexGrid, l: bool, r: bool, g: PointyHexGrid)
    requires Valid(b)
    requires g in CheckTryMoveTile(scene, b, grid, l, r).opens + CheckTryMoveTile(scene, b, grid, l, r).flags
    ensures Get(b, g).Some?
  {
    GetSpec(b, g);
  }

  /** Once a loss or a clear has been read, no open, flag or undo intent is
      written until a retry. */
  lemma RoundEndFreezesInput(scene: GameScene, overs: seq<Events.OnGameOver>, clears: nat,
                             b: GameBoard, grid: PointyHexGrid, l: bool, r: bool, ctrl: bool, z: bool)
    requires overs != [] || clears > 0
    ensures
      var s := CheckGameClear(CheckGameOver(scene, overs), clears);
      && CheckTryMoveTile(s, b, grid, l, r) == MoveIntents([], [])
      && CheckTryUndo(s, ctrl, z) == 0
  {
  }

  /** A retry returns to the game, after which retry checks do nothing and
      input is accepted again. */
  lemma RetryReturnsToGame(scene: GameScene, l: bool, r: bool, l': bool, r': bool)
    requires scene != InGame && (l || r)
    ensures CheckRetry(scene, l, r) == (InGame, 1)
    ensures CheckRetry(CheckRetry(scene, l, r).0, l', r') == (InGame, 0)
  {
  }
}
