/**
 A vehicle: an id, a back and a front cell, and an orientation fixed when the
 vehicle is built.  Both copies of `Vehicle.java` (the board's and the earlier
 top-level one) share this model: their constructors and `move` are identical.
 */
module Vehicles {
  import opened Geometry

  /**
   `horizontal` is the field the Java constructor sets once; it is stored, not
   derived, because `move` consults the stored flag.
   */
  datatype Vehicle = Vehicle(id: char, back: Position, front: Position, horizontal: bool)

  /** The stored flag agrees with the geometry, as the constructor makes it. */
  predicate Oriented(v: Vehicle) {
    v.horizontal == (v.back.row == v.front.row)
  }

  /** The constructor: horizontal exactly when back and front share a row. */
  function NewVehicle(id: char, back: Position, front: Position): (v: Vehicle)
    ensures v.id == id && v.back == back && v.front == front
    ensures v.horizontal <==> back.row == front.row
    ensures Oriented(v)
  {
    Vehicle(id, back, front, back.row == front.row)
  }

  /** `d` is a direction `move` acts on: LEFT/RIGHT when horizontal, UP/DOWN otherwise. */
  predicate Along(v: Vehicle, d: Direction) {
    v.horizontal == IsHorizontalDirection(d)
  }

  /**
   `Vehicle.move`: along the orientation both ends take one step, exactly as
   `calculateNewPosition` shifts a cell; across it nothing happens.
   */
  function Move(v: Vehicle, d: Direction): (r: Vehicle)
    ensures r.id == v.id && r.horizontal == v.horizontal
    ensures Along(v, d) ==> r.back == Shift(v.back, d) && r.front == Shift(v.front, d)
    ensures !Along(v, d) ==> r == v
  {
    if v.horizontal then
      if d == Left then
        v.(back := Position(v.back.row, v.back.col - 1), front := Position(v.front.row, v.front.col - 1))
      else if d == Right then
        v.(back := Position(v.back.row, v.back.col + 1), front := Position(v.front.row, v.front.col + 1))
      else
        v
    else
      if d == Up then
        v.(back := Position(v.back.row - 1, v.back.col), front := Position(v.front.row - 1, v.front.col))
      else if d == Down then
        v.(back := Position(v.back.row + 1, v.back.col), front := Position(v.front.row + 1, v.front.col))
      else
        v
  }

  /** A move keeps the front-minus-back offset, and with it the orientation. */
  lemma MoveKeepsShape(v: Vehicle, d: Direction)
    ensures Move(v, d).front.row - Move(v, d).back.row == v.front.row - v.back.row
    ensures Move(v, d).front.col - Move(v, d).back.col == v.front.col - v.back.col
    ensures Oriented(v) ==> Oriented(Move(v, d))
    ensures v.horizontal && Oriented(v) ==> Move(v, d).back.row == Move(v, d).front.row
  {
  }

  /** Moving in a direction and then in the opposite one restores the vehicle. */
  lemma MoveRoundTrip(v: Vehicle, d: Direction)
    ensures Move(Move(v, d), Opposite(d)) == v
  {
    if Along(v, d) {
      ShiftOpposite(v.back, d);
      ShiftOpposite(v.front, d);
    }
  }

  /** The cell one step past `p` along the given orientation. */
  function Next(p: Position, horizontal: bool): Position {
    if horizontal then Position(p.row, p.col + 1) else Position(p.row + 1, p.col)
  }

  /**
   `Vehicle.getOccupiedPositions`: a fixed two-cell footprint starting at
   `back`, whatever `front` says.
   */
  function OccupiedPositions(v: Vehicle): (cells: seq<Position>)
    ensures |cells| == 2 && cells[0] == v.back
    ensures cells[0] != cells[1]
    ensures cells[1] == Next(v.back, v.horizontal)
  {
    [v.back, Next(v.back, v.horizontal)]
  }

  /** The footprint depends only on `back` and the orientation. */
  lemma OccupiedIgnoresFront(v: Vehicle, front: Position)
    ensures OccupiedPositions(v.(front := front)) == OccupiedPositions(v)
    ensures v.horizontal ==> forall k :: 0 <= k < 2 ==> OccupiedPositions(v)[k] == Position(v.back.row, v.back.col + k)
    ensures !v.horizontal ==> forall k :: 0 <= k < 2 ==> OccupiedPositions(v)[k] == Position(v.back.row + k, v.back.col)
  {
  }

  /**
   The rectangle `RushHour.overlaps` scans: rows back.row..front.row and columns
   back.col..front.col, both inclusive (empty when back lies past front).
   */
  predicate Covers(v: Vehicle, p: Position) {
    v.back.row <= p.row <= v.front.row && v.back.col <= p.col <= v.front.col
  }

  /** A length-2 vehicle whose front is one step past its back. */
  predicate TwoCell(v: Vehicle) {
    Oriented(v) && v.front == Next(v.back, v.horizontal)
  }

  /** For two-cell vehicles the two notions of occupied cell coincide. */
  lemma CoversIffOccupied(v: Vehicle, p: Position)
    requires TwoCell(v)
    ensures Covers(v, p) <==> p in OccupiedPositions(v)
  {
  }

  /** With back past front the rectangle is empty but the footprint is not. */
  lemma CoversDisagreesWhenReversed()
    ensures var v := NewVehicle('A', Position(0, 1), Position(0, 0));
            v.back in OccupiedPositions(v) && !Covers(v, v.back)
  {
  }

  /** With back past front the rectangle is empty, yet the footprint still holds `back`. */
  lemma ReversedRectangleEmpty(v: Vehicle, p: Position)
    requires v.back.row > v.front.row || v.back.col > v.front.col
    ensures !Covers(v, p) && v.back in OccupiedPositions(v)
  {
  }

  /** For every vehicle that is not two-cell, some cell is in one notion and not the other. */
  lemma DisagreeOtherwise(v: Vehicle)
    requires !TwoCell(v)
    ensures exists p :: Covers(v, p) != (p in OccupiedPositions(v))
  {
    var cells := OccupiedPositions(v);
    if !Covers(v, v.back) {
      assert Covers(v, v.back) != (v.back in cells);
    } else if !Covers(v, Next(v.back, v.horizontal)) {
      assert Covers(v, cells[1]) != (cells[1] in cells);
    } else {
      assert Covers(v, v.front) != (v.front in cells);
    }
  }

  /** A move keeps a two-cell vehicle two-cell, and moves its footprint with it. */
  lemma MoveKeepsTwoCell(v: Vehicle, d: Direction)
    requires TwoCell(v)
    ensures TwoCell(Move(v, d))
    ensures Along(v, d) ==> OccupiedPositions(Move(v, d)) == [Shift(v.back, d), Shift(v.front, d)]
  {
  }
}
