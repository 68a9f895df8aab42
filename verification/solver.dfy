/**
 Search nodes (`RushHourSolver`): a board snapshot and the moves that led to
 it, with successor generation, the validity re-check and the goal test.
 */
module Solver {
  import opened Failures
  import opened Geometry
  import opened Vehicles
  import opened Boards

  /** `Move`: an id and a direction, accepted as given and never changed. */
  datatype Move = Move(vehicleId: char, direction: Direction)

  /** A board snapshot and the path of moves from the root. */
  datatype Node = Node(board: Board, moves: seq<Move>)

  predicate NoDuplicates<T(==)>(xs: seq<T>) {
    forall i, j :: 0 <= i < j < |xs| ==> xs[i] != xs[j]
  }

  /**
   The public constructor `RushHourSolver(RushHour)`: an empty path and a copy
   of the board, equal to the board itself when its orientations are consistent.
   */
  function Root(b: Board): (n: Node)
    ensures n.moves == []
    ensures n.board.moveCount == b.moveCount && |n.board.vehicles| == |b.vehicles|
    ensures AllOriented(n.board.vehicles)
    ensures AllOriented(b.vehicles) ==> n.board == b
  {
    CopyIsIdentity(b);
    Node(Copy(b), [])
  }

  // ---------------------------------------------------------------------------
  // Successor generation
  // ---------------------------------------------------------------------------

  lemma EveryDirectionListed(d: Direction)
    ensures d in Directions
  {
  }

  /** The inner loop of `getSuccessors`: the directions of `ds` that pass `canMove`. */
  function {:induction false} LegalDirections(b: Board, id: char, ds: seq<Direction>): (ms: seq<Move>)
    ensures forall m :: m in ms <==> m.vehicleId == id && m.direction in ds && CanMove(b, id, m.direction)
    ensures NoDuplicates(ds) ==> NoDuplicates(ms)
  {
    if ds == [] then []
    else
      var rest := LegalDirections(b, id, ds[1..]);
      assert NoDuplicates(ds) ==> NoDuplicates(ds[1..]) && ds[0] !in ds[1..];
      if CanMove(b, id, ds[0]) then [Move(id, ds[0])] + rest else rest
  }

  /**
   The outer loop of `getSuccessors` over the vehicles `vs`: every (id,
   direction) pair that passes `canMove`, vehicle by vehicle.
   */
  function {:induction false} LegalMovesOf(b: Board, vs: seq<Vehicle>): (ms: seq<Move>)
    ensures forall m :: m in ms <==> HasId(vs, m.vehicleId) && CanMove(b, m.vehicleId, m.direction)
  {
    if vs == [] then []
    else
      var here := LegalDirections(b, vs[0].id, Directions);
      var rest := LegalMovesOf(b, vs[1..]);
      assert forall id :: HasId(vs, id) <==> id == vs[0].id || HasId(vs[1..], id) by {
        forall id | HasId(vs, id) && id != vs[0].id
          ensures HasId(vs[1..], id)
        {
          var k :| 0 <= k < |vs| && vs[k].id == id;
          assert vs[1..][k - 1].id == id;
        }
      }
      forall d: Direction ensures d in Directions { EveryDirectionListed(d); }
      here + rest
  }

  /** Every move that passes `canMove` for a vehicle on the board. */
  function LegalMoves(b: Board): seq<Move> {
    LegalMovesOf(b, b.vehicles)
  }

  lemma NoDuplicatesConcat<T>(xs: seq<T>, ys: seq<T>)
    requires NoDuplicates(xs) && NoDuplicates(ys)
    requires forall x :: x in xs ==> x !in ys
    ensures NoDuplicates(xs + ys)
  {
    forall i, j | 0 <= i < j < |xs + ys|
      ensures (xs + ys)[i] != (xs + ys)[j]
    {
      if i < |xs| && |xs| <= j {
        assert (xs + ys)[i] in xs;
        assert (xs + ys)[j] == ys[j - |xs|];
      }
    }
  }

  /**
   With distinct ids no (id, direction) pair is listed twice, so the number of
   successors is the number of passing pairs.
   */
  lemma {:induction false} LegalMovesDistinct(b: Board, vs: seq<Vehicle>)
    requires UniqueIds(vs)
    ensures NoDuplicates(LegalMovesOf(b, vs))
  {
    if vs != [] {
      var here := LegalDirections(b, vs[0].id, Directions);
      var rest := LegalMovesOf(b, vs[1..]);
      assert UniqueIds(vs[1..]);
      LegalMovesDistinct(b, vs[1..]);
      assert NoDuplicates(Directions);
      assert !HasId(vs[1..], vs[0].id) by {
        forall k | 0 <= k < |vs[1..]|
          ensures vs[1..][k].id != vs[0].id
        {
          assert vs[1..][k] == vs[k + 1];
        }
      }
      NoDuplicatesConcat(here, rest);
    }
  }

  /**
   One successor: `moveVehicle` on a fresh copy of the board, the path extended
   by the move, and both wrapped by the private constructor (which copies the
   board once more).  `getSuccessors` only builds it after `canMove` passed, so
   the `moveVehicle` inside never throws.
   */
  function Child(n: Node, m: Move): (c: Node)
    requires CanMove(n.board, m.vehicleId, m.direction)
    ensures c.moves == n.moves + [m]
    ensures c.board.moveCount == n.board.moveCount + 1
    ensures |c.board.vehicles| == |n.board.vehicles|
    ensures AllOriented(c.board.vehicles)
    ensures AllOriented(n.board.vehicles) ==> MoveVehicle(n.board, m.vehicleId, m.direction) == Ok(c.board)
  {
    var state := Copy(n.board);
    CanMoveIgnoresOrientation(n.board, m.vehicleId, m.direction);
    var moved := MoveVehicle(state, m.vehicleId, m.direction);
    CopyIsIdentity(n.board);
    MoveVehicleKeepsInvariant(state, m.vehicleId, m.direction);
    CopyIsIdentity(moved.value);
    Node(Copy(moved.value), n.moves + [m])
  }

  /**
   `getSuccessors`: one child per passing (vehicle, direction) pair.  Without
   `equals`/`hashCode` the `HashSet` merges nothing; its iteration order is
   left to the search (see `Backtracking`), so the sequence order here is only
   the order of generation.
   */
  function Successors(n: Node): seq<Node> {
    var ms := LegalMoves(n.board);
    seq(|ms|, k requires 0 <= k < |ms| => Child(n, ms[k]))
  }

  /**
   A successor exists for a move exactly when the move's vehicle is on the
   board and `canMove` passes; each one extends the path by its move, adds one
   to the counter, and holds the parent board with that move applied.
   */
  lemma SuccessorsExactly(n: Node, m: Move)
    ensures (exists c :: c in Successors(n) && c.moves == n.moves + [m]) <==>
            HasId(n.board.vehicles, m.vehicleId) && CanMove(n.board, m.vehicleId, m.direction)
  {
    if HasId(n.board.vehicles, m.vehicleId) && CanMove(n.board, m.vehicleId, m.direction) {
      SuccessorFor(n, m);
    }
    if c :| c in Successors(n) && c.moves == n.moves + [m] {
      SuccessorMoveListed(n, c);
      assert c.moves[|n.moves|] == m;
    }
  }

  /** A legal move yields a successor whose path ends with it. */
  lemma SuccessorFor(n: Node, m: Move)
    requires HasId(n.board.vehicles, m.vehicleId) && CanMove(n.board, m.vehicleId, m.direction)
    ensures exists c :: c in Successors(n) && c.moves == n.moves + [m]
  {
    var ms := LegalMoves(n.board);
    var cs := Successors(n);
    assert m in ms;
    var k :| 0 <= k < |ms| && ms[k] == m;
    assert cs[k] == Child(n, m);
    assert cs[k] in cs;
  }

  /** The last move on a successor's path is one of the legal moves. */
  lemma SuccessorMoveListed(n: Node, c: Node)
    requires c in Successors(n)
    ensures |c.moves| == |n.moves| + 1 && c.moves[|n.moves|] in LegalMoves(n.board)
  {
    var ms := LegalMoves(n.board);
    var k :| 0 <= k < |Successors(n)| && Successors(n)[k] == c;
    ChildShape(n, ms[k]);
  }

  /** What every successor looks like, seen from its parent. */
  lemma SuccessorShape(n: Node, c: Node)
    requires c in Successors(n)
    ensures |c.moves| == |n.moves| + 1 && c.moves[..|n.moves|] == n.moves
    ensures CanMove(n.board, c.moves[|n.moves|].vehicleId, c.moves[|n.moves|].direction)
    ensures c.board.moveCount == n.board.moveCount + 1
    ensures AllOriented(c.board.vehicles)
    ensures AllOriented(n.board.vehicles) ==>
      MoveVehicle(n.board, c.moves[|n.moves|].vehicleId, c.moves[|n.moves|].direction) == Ok(c.board)
  {
    var ms := LegalMoves(n.board);
    var k :| 0 <= k < |Successors(n)| && Successors(n)[k] == c;
    ChildShape(n, ms[k]);
  }

  /** The same facts for one child, stated through its move. */
  lemma ChildShape(n: Node, m: Move)
    requires CanMove(n.board, m.vehicleId, m.direction)
    ensures Child(n, m).moves[..|n.moves|] == n.moves && Child(n, m).moves[|n.moves|] == m
  {
    assert (n.moves + [m])[..|n.moves|] == n.moves;
  }

  /** With distinct ids no two successors are equal: nothing is merged. */
  lemma SuccessorsDistinct(n: Node)
    requires UniqueIds(n.board.vehicles)
    ensures NoDuplicates(Successors(n))
    ensures |Successors(n)| == |LegalMoves(n.board)|
  {
    var ms := LegalMoves(n.board);
    var cs := Successors(n);
    LegalMovesDistinct(n.board, n.board.vehicles);
    forall i, j | 0 <= i < j < |cs|
      ensures cs[i] != cs[j]
    {
      assert cs[i].moves[|n.moves|] == ms[i];
      assert cs[j].moves[|n.moves|] == ms[j];
    }
  }

  /** Successors keep the board invariants of their parent. */
  lemma SuccessorKeepsIds(n: Node, c: Node)
    requires c in Successors(n)
    requires UniqueIds(n.board.vehicles)
    ensures UniqueIds(c.board.vehicles)
  {
    var ms := LegalMoves(n.board);
    var k :| 0 <= k < |Successors(n)| && Successors(n)[k] == c;
    var m := ms[k];
    var state := Copy(n.board);
    assert UniqueIds(state.vehicles);
    CanMoveIgnoresOrientation(n.board, m.vehicleId, m.direction);
    MoveVehicleKeepsInvariant(state, m.vehicleId, m.direction);
    var moved := MoveVehicle(state, m.vehicleId, m.direction).value;
    assert UniqueIds(Copy(moved).vehicles);
  }

  // ---------------------------------------------------------------------------
  // Validity
  // ---------------------------------------------------------------------------

  /** Every occupied position, vehicle by vehicle, two per vehicle. */
  function AllCells(vs: seq<Vehicle>): (cells: seq<Position>)
    ensures |cells| == 2 * |vs|
    ensures forall a :: 0 <= a < |cells| ==> cells[a] == OccupiedPositions(vs[a / 2])[a % 2]
  {
    seq(2 * |vs|, a requires 0 <= a < 2 * |vs| => OccupiedPositions(vs[a / 2])[a % 2])
  }

  /** All footprint cells on the board and no cell listed twice. */
  predicate ValidBoard(b: Board) {
    var cells := AllCells(b.vehicles);
    && (forall a :: 0 <= a < |cells| ==> InBounds(cells[a]))
    && (forall a, c :: 0 <= a < c < |cells| ==> cells[a] != cells[c])
  }

  /**
   The loops of `isValid` over the footprint cells in order: a cell off the
   board fails, a cell already in `occupied` fails, and otherwise the cell is
   added.  Positions are compared by row and column.
   */
  function {:induction false} CheckCells(cells: seq<Position>, occupied: set<Position>): bool
    decreases |cells|
  {
    if cells == [] then true
    else if !InBounds(cells[0]) || cells[0] in occupied then false
    else CheckCells(cells[1..], occupied + {cells[0]})
  }

  /** `isValid`: the check run over every footprint cell, starting from an empty set. */
  predicate IsValid(n: Node) {
    CheckCells(AllCells(n.board.vehicles), {})
  }

  /**
   The check passes exactly when every cell is on the board, no cell repeats,
   and none was already in the set.
   */
  lemma {:induction false} CheckCellsIff(cells: seq<Position>, occupied: set<Position>)
    ensures CheckCells(cells, occupied) <==>
      && (forall a :: 0 <= a < |cells| ==> InBounds(cells[a]) && cells[a] !in occupied)
      && (forall a, c :: 0 <= a < c < |cells| ==> cells[a] != cells[c])
    decreases |cells|
  {
    if cells != [] {
      var rest := cells[1..];
      CheckCellsIff(rest, occupied + {cells[0]});
      assert forall a :: 1 <= a < |cells| ==> cells[a] == rest[a - 1];
    }
  }

  /** `isValid` holds exactly on boards whose footprints are on the board and never share a cell. */
  lemma IsValidIff(n: Node)
    ensures IsValid(n) <==> ValidBoard(n.board)
  {
    CheckCellsIff(AllCells(n.board.vehicles), {});
  }

  /**
   `isValid` as written when positions have no `equals`/`hashCode`: each
   footprint position is a fresh object, `HashSet.add` never refuses it, and
   only the bounds check can fail.
   */
  predicate IsValidAsWritten(n: Node) {
    var cells := AllCells(n.board.vehicles);
    forall a :: 0 <= a < |cells| ==> InBounds(cells[a])
  }

  /** Two vehicles stacked on the same cells pass the check as written. */
  lemma OverlapPassesAsWritten()
    ensures var n := Node(Board([NewVehicle('X', Position(2, 0), Position(2, 1)),
                                 NewVehicle('A', Position(2, 0), Position(2, 1))], 0), []);
            IsValidAsWritten(n) && !IsValid(n)
  {
    var n := Node(Board([NewVehicle('X', Position(2, 0), Position(2, 1)),
                         NewVehicle('A', Position(2, 0), Position(2, 1))], 0), []);
    var cells := AllCells(n.board.vehicles);
    assert cells[0] == cells[2];
    IsValidIff(n);
  }

  /** The structural check only ever refuses more than the check as written. */
  lemma ValidIsStricter(n: Node)
    ensures IsValid(n) ==> IsValidAsWritten(n)
  {
    IsValidIff(n);
  }

  /** A vehicle's footprint lies on the board. */
  predicate OnBoard(v: Vehicle) {
    InBounds(OccupiedPositions(v)[0]) && InBounds(OccupiedPositions(v)[1])
  }

  /** Two vehicles share no footprint cell. */
  predicate Disjoint(v: Vehicle, w: Vehicle) {
    forall k, l :: 0 <= k < 2 && 0 <= l < 2 ==> OccupiedPositions(v)[k] != OccupiedPositions(w)[l]
  }

  lemma CellIndex(i: int, k: int)
    requires 0 <= i && 0 <= k < 2
    ensures (2 * i + k) / 2 == i && (2 * i + k) % 2 == k
  {
  }

  /** Every footprint on the board, footprints pairwise disjoint. */
  predicate Pairwise(vs: seq<Vehicle>) {
    && (forall i :: 0 <= i < |vs| ==> OnBoard(vs[i]))
    && (forall i, j :: 0 <= i < j < |vs| ==> Disjoint(vs[i], vs[j]))
  }

  /** Validity vehicle by vehicle: every footprint on the board, footprints pairwise disjoint. */
  lemma ValidIffPairwise(b: Board)
    ensures ValidBoard(b) <==> Pairwise(b.vehicles)
  {
    if ValidBoard(b) {
      ValidToPairwise(b);
    }
    if Pairwise(b.vehicles) {
      PairwiseToValid(b);
    }
  }

  lemma ValidToPairwise(b: Board)
    requires ValidBoard(b)
    ensures Pairwise(b.vehicles)
  {
    var vs := b.vehicles;
    var cells := AllCells(vs);
    forall i | 0 <= i < |vs|
      ensures OnBoard(vs[i])
    {
      CellIndex(i, 0);
      CellIndex(i, 1);
      assert cells[2 * i] == OccupiedPositions(vs[i])[0];
      assert cells[2 * i + 1] == OccupiedPositions(vs[i])[1];
    }
    forall i, j | 0 <= i < j < |vs|
      ensures Disjoint(vs[i], vs[j])
    {
      forall k, l | 0 <= k < 2 && 0 <= l < 2
        ensures OccupiedPositions(vs[i])[k] != OccupiedPositions(vs[j])[l]
      {
        CellIndex(i, k);
        CellIndex(j, l);
        assert cells[2 * i + k] == OccupiedPositions(vs[i])[k];
        assert cells[2 * j + l] == OccupiedPositions(vs[j])[l];
      }
    }
  }

  lemma PairwiseToValid(b: Board)
    requires Pairwise(b.vehicles)
    ensures ValidBoard(b)
  {
    var vs := b.vehicles;
    var cells := AllCells(vs);
    forall a | 0 <= a < |cells|
      ensures InBounds(cells[a])
    {
      assert OnBoard(vs[a / 2]);
    }
    forall a, c | 0 <= a < c < |cells|
      ensures cells[a] != cells[c]
    {
      if a / 2 != c / 2 {
        assert Disjoint(vs[a / 2], vs[c / 2]);
      }
    }
  }

  /** Every vehicle is a two-cell vehicle whose front is one step past its back. */
  predicate AllTwoCell(vs: seq<Vehicle>) {
    forall i :: 0 <= i < |vs| ==> TwoCell(vs[i])
  }

  /**
   On a valid board of two-cell vehicles a move that passes `canMove` leaves
   the board valid: the rectangle test then sees exactly the footprints.
   */
  lemma MoveKeepsValid(b: Board, id: char, d: Direction)
    requires ValidBoard(b) && AllTwoCell(b.vehicles)
    requires CanMove(b, id, d)
    ensures ValidBoard(MoveVehicle(b, id, d).value)
    ensures AllTwoCell(MoveVehicle(b, id, d).value.vehicles)
  {
    var vs := b.vehicles;
    var i := FindFirst(vs, id).value;
    var v := vs[i];
    var vs' := MoveVehicle(b, id, d).value.vehicles;
    assert vs' == vs[i := Vehicles.Move(v, d)];
    MoveKeepsTwoCell(v, d);
    ValidToPairwise(b);
    if Along(v, d) {
      var nb := Shift(v.back, d);
      var nf := Shift(v.front, d);
      assert OccupiedPositions(vs'[i]) == [nb, nf];
      assert StepAllowed(vs, i, d);
      forall j | 0 <= j < |vs| && j != i
        ensures Disjoint(vs'[i], vs[j]) && Disjoint(vs[j], vs'[i])
      {
        assert !CoveredByOther(vs, i, nb) && !CoveredByOther(vs, i, nf);
        assert !Covers(vs[j], nb) && !Covers(vs[j], nf);
        CoversIffOccupied(vs[j], nb);
        CoversIffOccupied(vs[j], nf);
      }
      assert forall j, k :: 0 <= j < k < |vs'| ==> Disjoint(vs'[j], vs'[k]);
      assert Pairwise(vs');
    } else {
      assert vs' == vs;
    }
    PairwiseToValid(MoveVehicle(b, id, d).value);
  }

  /** Every successor of a valid two-cell node is valid and two-cell. */
  lemma SuccessorKeepsValid(n: Node, c: Node)
    requires c in Successors(n)
    requires IsValid(n) && AllTwoCell(n.board.vehicles)
    ensures IsValid(c) && AllTwoCell(c.board.vehicles)
  {
    SuccessorShape(n, c);
    var m := c.moves[|n.moves|];
    IsValidIff(n);
    IsValidIff(c);
    MoveKeepsValid(n.board, m.vehicleId, m.direction);
  }

  // ---------------------------------------------------------------------------
  // Goal test
  // ---------------------------------------------------------------------------

  /**
   `isGoal`: the first red car is horizontal with its front on (2, 5).  With
   no red car the Java method dereferences null.
   */
  function IsGoal(n: Node): (r: Result<bool>)
    ensures r.Err? <==> !HasId(n.board.vehicles, 'X')
    ensures r.Err? ==> r.error == MissingRedCar
    ensures r == Ok(true) <==> exists i ::
              && IsFirst(n.board.vehicles, 'X', i)
              && n.board.vehicles[i].horizontal
              && n.board.vehicles[i].front == Position(ExitRow, ExitCol)
  {
    match GetRedCar(n.board)
    case None => Err(MissingRedCar)
    case Some(red) => Ok(red.horizontal && red.front.row == ExitRow && red.front.col == ExitCol)
  }

  /** The solver's goal implies the board's game-over test. */
  lemma GoalImpliesGameOver(n: Node)
    requires IsGoal(n) == Ok(true)
    ensures IsGameOver(n.board)
  {
    var i :| IsFirst(n.board.vehicles, 'X', i) && n.board.vehicles[i].front == Position(ExitRow, ExitCol);
    assert n.board.vehicles[i].front.col == Size - 1;
  }

  /**
   The converse fails: a red car in the last column of another row, or a
   vertical red car ending on the exit cell, ends the game but is no goal.
   */
  lemma GameOverIsNotGoal()
    ensures var n := Node(Board([NewVehicle('X', Position(0, 4), Position(0, 5))], 0), []);
            IsGameOver(n.board) && IsGoal(n) == Ok(false)
    ensures var n := Node(Board([NewVehicle('X', Position(1, 5), Position(2, 5))], 0), []);
            IsGameOver(n.board) && IsGoal(n) == Ok(false)
  {
    var n := Node(Board([NewVehicle('X', Position(0, 4), Position(0, 5))], 0), []);
    assert n.board.vehicles[0].id == 'X';
    var n' := Node(Board([NewVehicle('X', Position(1, 5), Position(2, 5))], 0), []);
    assert n'.board.vehicles[0].id == 'X';
  }

  // ---------------------------------------------------------------------------
  // Replaying a path
  // ---------------------------------------------------------------------------

  /** `moveVehicle` for each move in turn, stopping at the first error. */
  function {:induction false} Replay(b: Board, ms: seq<Move>): (r: Result<Board>)
    ensures r.Ok? ==> r.value.moveCount == b.moveCount + |ms|
    ensures r.Ok? ==> |r.value.vehicles| == |b.vehicles|
    decreases |ms|
  {
    if ms == [] then Ok(b)
    else match MoveVehicle(b, ms[0].vehicleId, ms[0].direction)
      case Err(e) => Err(e)
      case Ok(next) =>
        assert |next.vehicles| == |b.vehicles| by {
          var i := FindFirst(b.vehicles, ms[0].vehicleId).value;
          assert next.vehicles == b.vehicles[i := Vehicles.Move(b.vehicles[i], ms[0].direction)];
        }
        Replay(next, ms[1..])
  }

  /** Replaying one more move is one more `moveVehicle`. */
  lemma {:induction false} ReplayAppend(b: Board, ms: seq<Move>, m: Move)
    ensures Replay(b, ms + [m]) ==
      match Replay(b, ms)
      case Err(e) => Err(e)
      case Ok(last) => MoveVehicle(last, m.vehicleId, m.direction)
    decreases |ms|
  {
    if ms == [] {
      assert [m][1..] == [];
    } else {
      assert (ms + [m])[0] == ms[0];
      assert (ms + [m])[1..] == ms[1..] + [m];
      match MoveVehicle(b, ms[0].vehicleId, ms[0].direction)
      case Err(e) =>
      case Ok(next) => ReplayAppend(next, ms[1..], m);
    }
  }

  /**
   If replaying a node's path from `start` gives its board, the same holds for
   each of its successors.
   */
  lemma SuccessorReplays(start: Board, n: Node, c: Node)
    requires c in Successors(n)
    requires AllOriented(n.board.vehicles)
    requires Replay(start, n.moves) == Ok(n.board)
    ensures Replay(start, c.moves) == Ok(c.board)
  {
    SuccessorShape(n, c);
    var m := c.moves[|n.moves|];
    assert c.moves == n.moves + [m];
    ReplayAppend(start, n.moves, m);
  }
}
