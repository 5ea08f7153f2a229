/**
 * Stand-ins for the two types of the game's `board` and `players` modules
 * that the inventory code consumes. Neither module is part of this model:
 * the engine only compares positions for equality and carries directions
 * around as part of a magic word.
 */
module Board {

  /** A board cell. Only its structural equality matters to the engine. */
  datatype Position = Position(row: int, col: int)

  /**
   * A wall of a room (`players::Direction`); opaque here, it is only carried
   * by a magic word. It sits beside `Position` because `Thing` needs it and
   * the `Players` module here imports `Things`.
   */
  datatype Direction = Direction(id: nat)
}
