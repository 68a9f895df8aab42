/**
 The board (`RushHour`): an ordered list of vehicles with distinct ids and a
 move counter.  Mutating Java methods become functions that return the new
 board, or the error the Java method would throw.
 */
module Boards {
  import opened Failures
  import opened Geometry
  import opened Vehicles

  /** Vehicles in insertion order, plus the number of moves made so far. */
  datatype Board = Board(vehicles: seq<Vehicle>, moveCount: int)

  /** `new RushHour()`: no vehicles, no moves. */
  const Empty: Board := Board([], 0)

  predicate HasId(vs: seq<Vehicle>, id: char) {
    exists i :: 0 <= i < |vs| && vs[i].id == id
  }

  /** `i` is the index of the first vehicle with this id. */
  predicate IsFirst(vs: seq<Vehicle>, id: char, i: int) {
    0 <= i < |vs| && vs[i].id == id && forall j :: 0 <= j < i ==> vs[j].id != id
  }

  predicate UniqueIds(vs: seq<Vehicle>) {
    forall i, j :: 0 <= i < j < |vs| ==> vs[i].id != vs[j].id
  }

  predicate AllOriented(vs: seq<Vehicle>) {
    forall i :: 0 <= i < |vs| ==> Oriented(vs[i])
  }

  /** The stream search `filter(id).findFirst()` of `getVehicle` and `getRedCar`. */
  function FindFirst(vs: seq<Vehicle>, id: char): (r: Option<nat>)
    ensures r.Some? ==> IsFirst(vs, id, r.value)
    ensures r.None? <==> !HasId(vs, id)
  {
    if vs == [] then None
    else if vs[0].id == id then Some(0)
    else match FindFirst(vs[1..], id)
      case None => None
      case Some(k) => Some(k + 1)
  }

  /** Appending a vehicle does not change the lookup of any id already present. */
  lemma {:induction false} FindFirstAppend(vs: seq<Vehicle>, v: Vehicle, id: char)
    ensures FindFirst(vs + [v], id) ==
      if HasId(vs, id) then FindFirst(vs, id)
      else if v.id == id then Some(|vs|)
      else None
  {
    if vs != [] && vs[0].id != id {
      assert (vs + [v])[1..] == vs[1..] + [v];
      FindFirstAppend(vs[1..], v, id);
      if HasId(vs[1..], id) {
        var k :| 0 <= k < |vs[1..]| && vs[1..][k].id == id;
        assert vs[k + 1].id == id;
      }
    }
  }

  /** Lookup reads only the ids, so two lists with the same ids agree on it. */
  lemma {:induction false} FindFirstSameIds(vs: seq<Vehicle>, ws: seq<Vehicle>, id: char)
    requires |vs| == |ws|
    requires forall i :: 0 <= i < |vs| ==> vs[i].id == ws[i].id
    ensures FindFirst(vs, id) == FindFirst(ws, id)
  {
    if vs != [] {
      FindFirstSameIds(vs[1..], ws[1..], id);
    }
  }

  /**
   `addVehicle`: refuses an id already on the board, otherwise appends the
   vehicle at the end.
   */
  function AddVehicle(b: Board, v: Vehicle): (r: Result<Board>)
    ensures r.Err? <==> HasId(b.vehicles, v.id)
    ensures r.Err? ==> r.error == DuplicateId
    ensures r.Ok? ==> r.value.vehicles == b.vehicles + [v] && r.value.moveCount == b.moveCount
  {
    if FindFirst(b.vehicles, v.id).Some? then Err(DuplicateId)
    else Ok(Board(b.vehicles + [v], b.moveCount))
  }

  /**
   `getVehicle`: the first vehicle with the id, or "Vehicle not found.".
   */
  function GetVehicle(b: Board, id: char): (r: Result<Vehicle>)
    ensures r.Ok? <==> HasId(b.vehicles, id)
    ensures r.Err? ==> r.error == VehicleNotFound
    ensures r.Ok? ==> exists i :: IsFirst(b.vehicles, id, i) && b.vehicles[i] == r.value
  {
    match FindFirst(b.vehicles, id)
    case None => Err(VehicleNotFound)
    case Some(i) => Ok(b.vehicles[i])
  }

  /** `getRedCar`: the first vehicle with id 'X', or null. */
  function GetRedCar(b: Board): (r: Option<Vehicle>)
    ensures r.Some? <==> HasId(b.vehicles, 'X')
    ensures r.Some? ==> exists i :: IsFirst(b.vehicles, 'X', i) && b.vehicles[i] == r.value
  {
    match FindFirst(b.vehicles, 'X')
    case None => None
    case Some(i) => Some(b.vehicles[i])
  }

  /**
   A successful add keeps ids distinct and orientations consistent, finds the
   new vehicle under its id, and leaves every other lookup as it was.
   */
  lemma AddVehicleThenGet(b: Board, v: Vehicle, id: char)
    requires AddVehicle(b, v).Ok?
    ensures UniqueIds(b.vehicles) ==> UniqueIds(AddVehicle(b, v).value.vehicles)
    ensures AllOriented(b.vehicles) && Oriented(v) ==> AllOriented(AddVehicle(b, v).value.vehicles)
    ensures GetVehicle(AddVehicle(b, v).value, v.id) == Ok(v)
    ensures id != v.id ==> GetVehicle(AddVehicle(b, v).value, id) == GetVehicle(b, id)
  {
    var vs := b.vehicles;
    FindFirstAppend(vs, v, v.id);
    FindFirstAppend(vs, v, id);
  }

  /** Some vehicle other than the one at index `i` has `p` in its rectangle. */
  predicate CoveredByOther(vs: seq<Vehicle>, i: int, p: Position) {
    exists j :: 0 <= j < |vs| && j != i && Covers(vs[j], p)
  }

  /** `collidesWithOtherVehicles`: either new end lies in another vehicle's rectangle. */
  predicate CollidesWithOthers(vs: seq<Vehicle>, i: int, newBack: Position, newFront: Position) {
    CoveredByOther(vs, i, newBack) || CoveredByOther(vs, i, newFront)
  }

  /** The vehicle at index `i` may take one step in direction `d`. */
  predicate StepAllowed(vs: seq<Vehicle>, i: int, d: Direction)
    requires 0 <= i < |vs|
  {
    var newBack := Shift(vs[i].back, d);
    var newFront := Shift(vs[i].front, d);
    InBounds(newBack) && InBounds(newFront) && !CollidesWithOthers(vs, i, newBack, newFront)
  }

  /**
   `canMove`: false for an unknown id; otherwise both shifted ends must stay on
   the board and outside every other vehicle's rectangle.  The vehicle's
   orientation is never consulted.
   */
  function CanMove(b: Board, id: char, d: Direction): (ok: bool)
    ensures !HasId(b.vehicles, id) ==> !ok
    ensures ok <==> exists i ::
              && IsFirst(b.vehicles, id, i)
              && InBounds(Shift(b.vehicles[i].back, d))
              && InBounds(Shift(b.vehicles[i].front, d))
              && forall j :: 0 <= j < |b.vehicles| && j != i ==>
                   && !Covers(b.vehicles[j], Shift(b.vehicles[i].back, d))
                   && !Covers(b.vehicles[j], Shift(b.vehicles[i].front, d))
  {
    match FindFirst(b.vehicles, id)
    case None => false
    case Some(i) => StepAllowed(b.vehicles, i, d)
  }

  /**
   `moveVehicle`: "Vehicle not found." for an unknown id, an illegal-move error
   when `canMove` fails, and otherwise `Vehicle.move` applied to the first
   vehicle with the id, nothing else changed, and the counter one higher.
   */
  function MoveVehicle(b: Board, id: char, d: Direction): (r: Result<Board>)
    ensures r.Ok? <==> CanMove(b, id, d)
    ensures !HasId(b.vehicles, id) ==> r == Err(VehicleNotFound)
    ensures HasId(b.vehicles, id) && !CanMove(b, id, d) ==> r == Err(IllegalMove)
    ensures r.Ok? ==> r.value.moveCount == b.moveCount + 1
    ensures r.Ok? ==> forall i :: IsFirst(b.vehicles, id, i) ==>
      r.value.vehicles == b.vehicles[i := Move(b.vehicles[i], d)]
  {
    match FindFirst(b.vehicles, id)
    case None => Err(VehicleNotFound)
    case Some(i) =>
      if !CanMove(b, id, d) then Err(IllegalMove)
      else Ok(Board(b.vehicles[i := Move(b.vehicles[i], d)], b.moveCount + 1))
  }

  /** A successful move keeps the ids distinct and the orientations consistent. */
  lemma MoveVehicleKeepsInvariant(b: Board, id: char, d: Direction)
    requires MoveVehicle(b, id, d).Ok?
    ensures UniqueIds(b.vehicles) ==> UniqueIds(MoveVehicle(b, id, d).value.vehicles)
    ensures AllOriented(b.vehicles) ==> AllOriented(MoveVehicle(b, id, d).value.vehicles)
    ensures HasId(MoveVehicle(b, id, d).value.vehicles, id)
  {
    var i := FindFirst(b.vehicles, id).value;
    var vs' := MoveVehicle(b, id, d).value.vehicles;
    assert vs' == b.vehicles[i := Move(b.vehicles[i], d)];
    MoveKeepsShape(b.vehicles[i], d);
    assert vs'[i].id == id;
  }

  /**
   A move across the vehicle's orientation is accepted whenever `canMove`
   passes: the positions stay put while the counter still goes up.
   */
  lemma CrossMoveOnlyCounts(b: Board, id: char, d: Direction, i: int)
    requires CanMove(b, id, d) && IsFirst(b.vehicles, id, i)
    requires !Along(b.vehicles[i], d)
    ensures MoveVehicle(b, id, d) == Ok(Board(b.vehicles, b.moveCount + 1))
  {
    assert b.vehicles[i := Move(b.vehicles[i], d)] == b.vehicles;
  }

  /** A horizontal red car with free cells above is allowed to "move UP". */
  lemma CrossMoveExample()
    ensures var b := Board([NewVehicle('X', Position(2, 0), Position(2, 1))], 0);
            CanMove(b, 'X', Up) && MoveVehicle(b, 'X', Up) == Ok(Board(b.vehicles, 1))
  {
    var b := Board([NewVehicle('X', Position(2, 0), Position(2, 1))], 0);
    assert IsFirst(b.vehicles, 'X', 0);
    CrossMoveOnlyCounts(b, 'X', Up, 0);
  }

  /**
   `isGameOver`: some vehicle with id 'X' has its front in the last column,
   whatever its row.
   */
  predicate IsGameOver(b: Board) {
    exists i :: 0 <= i < |b.vehicles| && b.vehicles[i].id == 'X' && b.vehicles[i].front.col == Size - 1
  }

  /** The loop of `isGameOver`, which stops at the first red car in the last column. */
  method IsGameOverScan(b: Board) returns (over: bool)
    ensures over <==> IsGameOver(b)
  {
    var i := 0;
    while i < |b.vehicles|
      invariant 0 <= i <= |b.vehicles|
      invariant forall j :: 0 <= j < i ==> !(b.vehicles[j].id == 'X' && b.vehicles[j].front.col == Size - 1)
    {
      var v := b.vehicles[i];
      if v.id == 'X' && v.front.col == Size - 1 {
        return true;
      }
      i := i + 1;
    }
    return false;
  }

  /** `reset`: no vehicles and a zero counter, as a freshly built board. */
  function Reset(b: Board): (r: Board)
    ensures r.vehicles == [] && r.moveCount == 0
  {
    Empty
  }

  /** After a reset nothing can be found, moved, or win. */
  lemma ResetForgets(b: Board, id: char, d: Direction)
    ensures Reset(b) == Empty
    ensures GetVehicle(Reset(b), id) == Err(VehicleNotFound)
    ensures GetRedCar(Reset(b)) == None
    ensures !CanMove(Reset(b), id, d)
    ensures MoveVehicle(Reset(b), id, d) == Err(VehicleNotFound)
    ensures !IsGameOver(Reset(b))
  {
  }

  /**
   The copy constructor `RushHour(RushHour other)`: same counter, and in the
   same order a fresh vehicle built from each id, back and front.  Building
   through the constructor recomputes each orientation flag.
   */
  function Copy(b: Board): (r: Board)
    ensures r.moveCount == b.moveCount && |r.vehicles| == |b.vehicles|
    ensures forall i :: 0 <= i < |b.vehicles| ==>
      r.vehicles[i].id == b.vehicles[i].id &&
      r.vehicles[i].back == b.vehicles[i].back &&
      r.vehicles[i].front == b.vehicles[i].front
    ensures AllOriented(r.vehicles)
  {
    var vs := b.vehicles;
    Board(seq(|vs|, i requires 0 <= i < |vs| => NewVehicle(vs[i].id, vs[i].back, vs[i].front)), b.moveCount)
  }

  /**
   The copy equals the original exactly when every stored orientation agrees
   with the geometry, which construction and `move` guarantee.
   */
  lemma CopyIsIdentity(b: Board)
    ensures Copy(b) == b <==> AllOriented(b.vehicles)
  {
    if AllOriented(b.vehicles) {
      var c := Copy(b);
      assert forall i :: 0 <= i < |b.vehicles| ==> c.vehicles[i] == b.vehicles[i];
      assert c.vehicles == b.vehicles;
    }
  }

  /** `canMove` reads ids, backs and fronts only, so it agrees on a board and its copy. */
  lemma CanMoveIgnoresOrientation(b: Board, id: char, d: Direction)
    ensures CanMove(Copy(b), id, d) == CanMove(b, id, d)
    ensures HasId(Copy(b).vehicles, id) == HasId(b.vehicles, id)
  {
    var c := Copy(b);
    FindFirstSameIds(c.vehicles, b.vehicles, id);
    if FindFirst(b.vehicles, id).Some? {
      StepAllowedSameRectangles(c.vehicles, b.vehicles, FindFirst(b.vehicles, id).value, d);
    }
  }

  /** Whether a step is allowed depends only on the backs and fronts. */
  lemma StepAllowedSameRectangles(vs: seq<Vehicle>, ws: seq<Vehicle>, i: int, d: Direction)
    requires |vs| == |ws| && 0 <= i < |vs|
    requires forall j :: 0 <= j < |vs| ==> vs[j].back == ws[j].back && vs[j].front == ws[j].front
    ensures StepAllowed(vs, i, d) == StepAllowed(ws, i, d)
  {
    var nb := Shift(vs[i].back, d);
    var nf := Shift(vs[i].front, d);
    assert forall j :: 0 <= j < |vs| ==> (Covers(vs[j], nb) <==> Covers(ws[j], nb));
    assert forall j :: 0 <= j < |vs| ==> (Covers(vs[j], nf) <==> Covers(ws[j], nf));
  }

  /**
   The double loop of `overlaps`, walking the rectangle row by row and column
   by column until it meets `p`.
   */
  method OverlapsScan(v: Vehicle, p: Position) returns (hit: bool)
    ensures hit <==> Covers(v, p)
  {
    var row := v.back.row;
    while row <= v.front.row
      invariant v.back.row <= row
      invariant v.back.row <= p.row < row ==> !(v.back.col <= p.col <= v.front.col)
      decreases v.front.row - row
    {
      var col := v.back.col;
      while col <= v.front.col
        invariant v.back.col <= col
        invariant !(row == p.row && v.back.col <= p.col < col)
        decreases v.front.col - col
      {
        if row == p.row && col == p.col {
          return true;
        }
        col := col + 1;
      }
      row := row + 1;
    }
    return false;
  }

  /** The loop of `collidesWithOtherVehicles` over every vehicle but the mover. */
  method CollidesScan(vs: seq<Vehicle>, mover: nat, newBack: Position, newFront: Position) returns (hit: bool)
    ensures hit <==> CollidesWithOthers(vs, mover, newBack, newFront)
  {
    var j := 0;
    while j < |vs|
      invariant 0 <= j <= |vs|
      invariant forall k :: 0 <= k < j && k != mover ==> !Covers(vs[k], newBack) && !Covers(vs[k], newFront)
    {
      if j != mover {
        var hitBack := OverlapsScan(vs[j], newBack);
        var hitFront := OverlapsScan(vs[j], newFront);
        if hitBack || hitFront {
          return true;
        }
      }
      j := j + 1;
    }
    return false;
  }

  /** The statements of `canMove`, with the lookup failure caught as `false`. */
  method CanMoveScan(b: Board, id: char, d: Direction) returns (ok: bool)
    ensures ok == CanMove(b, id, d)
  {
    var found := FindFirst(b.vehicles, id);
    if found.None? {
      return false;
    }
    var i := found.value;
    var v := b.vehicles[i];
    var newBack := Shift(v.back, d);
    var newFront := Shift(v.front, d);
    if !InBounds(newBack) || !InBounds(newFront) {
      return false;
    }
    var hit := CollidesScan(b.vehicles, i, newBack, newFront);
    return !hit;
  }
}
