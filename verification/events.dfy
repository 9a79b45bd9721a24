/** The events the board systems read and write. Their shapes follow their
    use in the model and view systems. */
module Events {
  import opened HexGrid

  /** An applied move: both a move-stack entry and an event for the view. */
  datatype OnMoveTile = Open(target: PointyHexGrid) | Flag(target: PointyHexGrid)

  /** Why the round was lost: a mine was opened or a safe tile was flagged. */
  datatype OnGameOver = Open(target: PointyHexGrid) | Flag(target: PointyHexGrid)

  /** A move taken back by undo. */
  datatype OnUndoTile = UnOpen(target: PointyHexGrid) | UnFlag(target: PointyHexGrid)

  /** The player intents the board systems consume, in one queue. */
  datatype Intent = TryOpen(target: PointyHexGrid) | TryFlag(target: PointyHexGrid) | TryUndo
}
