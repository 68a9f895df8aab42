/**
 Cells of the 6x6 grid and the four one-cell directions.
 */
module Geometry {

  /** Side of the square board (`RushHour.SIZE`). */
  const Size: int := 6

  /** The exit cell the solver's goal test looks for: row 2, last column. */
  const ExitRow: int := 2
  const ExitCol: int := Size - 1

  /** A (row, column) pair; any pair of integers, on the board or not. */
  datatype Position = Position(row: int, col: int)

  datatype Direction = Up | Down | Left | Right

  /** The order `Direction.values()` enumerates the directions in. */
  const Directions: seq<Direction> := [Up, Down, Left, Right]

  predicate IsHorizontalDirection(d: Direction) {
    d == Left || d == Right
  }

  /** The direction that undoes `d`. */
  function Opposite(d: Direction): Direction {
    match d
    case Up => Down
    case Down => Up
    case Left => Right
    case Right => Left
  }

  /** `Position.createPosition`: a fresh pair, unrelated to any receiver. */
  function CreatePosition(row: int, col: int): (p: Position)
    ensures p.row == row && p.col == col
  {
    Position(row, col)
  }

  /** `RushHour.isWithinBounds`: both coordinates in [0, Size). */
  predicate InBounds(p: Position) {
    0 <= p.row < Size && 0 <= p.col < Size
  }

  function Abs(x: int): nat {
    if x < 0 then -x else x
  }

  /**
   `RushHour.calculateNewPosition`: the neighbouring cell in direction `d`.
   Exactly one coordinate changes, and it changes by exactly one.
   */
  function Shift(p: Position, d: Direction): (q: Position)
    ensures Abs(q.row - p.row) + Abs(q.col - p.col) == 1
    ensures IsHorizontalDirection(d) <==> q.row == p.row
    ensures !IsHorizontalDirection(d) <==> q.col == p.col
    ensures d == Up ==> q.row < p.row
    ensures d == Down ==> q.row > p.row
    ensures d == Left ==> q.col < p.col
    ensures d == Right ==> q.col > p.col
  {
    match d
    case Up => Position(p.row - 1, p.col)
    case Down => Position(p.row + 1, p.col)
    case Left => Position(p.row, p.col - 1)
    case Right => Position(p.row, p.col + 1)
  }

  /** Shifting back in the opposite direction returns to the start. */
  lemma ShiftOpposite(p: Position, d: Direction)
    ensures Shift(Shift(p, d), Opposite(d)) == p
  {
  }
}
