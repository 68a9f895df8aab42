# Rush Hour search core in Dafny

A functional model of the Rush Hour puzzle engine: the 6x6 board (`RushHour`),
its vehicles (`Vehicle`), the search node (`RushHourSolver`), the move record
(`Move`) and the depth-first search (`Backtracker`), together with the earlier
top-level copies of the board, the vehicle and `Position`.

Java objects that are mutated in place become immutable values here. Each
mutating method is a function that returns the new value, or the error the Java
method would throw.

| file | module | models |
|---|---|---|
| `failures.dfy` | `Failures` | the thrown `RushHourException`s and the `NullPointerException` of `isGoal` as an `Error`; `Option` and `Result` |
| `geometry.dfy` | `Geometry` | `Position`, `Direction`, `calculateNewPosition`, `isWithinBounds`, `SIZE` |
| `vehicles.dfy` | `Vehicles` | `Vehicle`: the constructor's orientation flag, `move`, `getOccupiedPositions`, and the rectangle that `overlaps` scans |
| `boards.dfy` | `Boards` | `RushHour`: `addVehicle`, `getVehicle`, `getRedCar`, `canMove`, `moveVehicle`, `isGameOver`, `reset`, the copy constructor, and loop-level versions of `overlaps`, `collidesWithOtherVehicles`, `canMove` and `isGameOver` |
| `solver.dfy` | `Solver` | `Move` and `RushHourSolver`: the root and successor constructors, `getSuccessors`, `isValid`, `isGoal`, and replaying a path of moves |
| `backtracking.dfy` | `Backtracking` | `Backtracker.solve` and the static `RushHourSolver.solve` |

Quirks of the code that the model keeps on purpose:

- `canMove` never looks at orientation, while `Vehicle.move` ignores a direction
  across the orientation. A horizontal car can therefore "move UP": the move is
  accepted, the counter goes up, and nothing moves (`Boards.CrossMoveOnlyCounts`).
- Collision uses the back..front rectangle (`Vehicles.Covers`). `isValid` uses a
  fixed two-cell footprint counted from `back` (`Vehicles.OccupiedPositions`).
  The two agree for two-cell vehicles (`Vehicles.CoversIffOccupied`) and disagree
  on some cell for every other vehicle (`Vehicles.DisagreeOtherwise`). With back
  past front the rectangle is empty while the footprint is not
  (`Vehicles.ReversedRectangleEmpty`).
- `isGameOver` asks for an 'X' with its front in the last column, in any row.
  `isGoal` asks for the first 'X' to be horizontal with its front on (2, 5)
  (`Solver.GoalImpliesGameOver`, `Solver.GameOverIsNotGoal`).
- `RushHourSolver` has no `equals`/`hashCode`, so the `HashSet` of successors
  merges nothing (`Solver.SuccessorsDistinct`). Its iteration order is unknown,
  so the search takes it as a parameter `arrange`. The soundness lemmas hold for
  every `arrange` that permutes its argument.
- There is no visited set and moves can be undone, so the recursion of `solve`
  has no bound of its own. On the JVM a search that keeps descending ends in a
  `StackOverflowError` thrown out of `solve`. The model gives the search a depth
  budget `fuel` and folds running past it into `OutOfFuel`, an outcome of its
  own, distinct from `null`. A larger budget never changes an answer
  (`Backtracking.SolveNodeFuelMonotone`).

Consequences of the code that are easy to miss:

- Nothing deduplicates successors: `RushHourSolver` has no `equals`/`hashCode`,
  so two nodes with equal boards are both kept.
- A move across the orientation is accepted and only raises the counter.
- In generation order the search never finishes on a lone red car at
  (2,0)-(2,1), though four RIGHT moves would solve it: its first successor is
  the UP no-op, and the search keeps descending into the same board until every
  budget runs out (`Backtracking.LoneRedCarNeverSolved`). Under another
  `HashSet` order the outcome depends on that order.
- With no visited set the search need not end: where it finds no goal it can
  keep descending until the stack overflows, instead of reporting that every
  position was tried.

## Model

| member | source | states |
|---|---|---|
| Geometry.CreatePosition | model/Position.java:7-14 | builds a position with exactly the given row and column, whatever the receiver, with no bounds check |
| Geometry.Shift | rushhour/src/main/java/model/RushHour.java:136-149 | exactly one coordinate changes, by exactly one; LEFT/RIGHT keep the row and UP/DOWN keep the column; UP and LEFT decrease, DOWN and RIGHT increase |
| Geometry.ShiftOpposite | rushhour/src/main/java/model/RushHour.java:136-149 | shifting a cell and then shifting it in the opposite direction gives back the cell |
| Vehicles.NewVehicle | rushhour/src/main/java/model/Vehicle.java:13-18 | the constructor keeps id, back and front as given, and sets the orientation flag once, to back.row == front.row |
| Vehicles.Move | rushhour/src/main/java/model/Vehicle.java:36-54 | along the stored orientation both ends shift one cell in the direction; across it the vehicle is unchanged; id and flag never change |
| Vehicles.MoveKeepsShape | model/Vehicle.java:10-51 | a move keeps the front-minus-back offset, so a flag the constructor set consistently stays consistent, and a horizontal vehicle keeps back.row == front.row |
| Vehicles.MoveRoundTrip | model/Vehicle.java:33-51 | a move followed by the opposite move restores the vehicle |
| Vehicles.OccupiedPositions | rushhour/src/main/java/model/Vehicle.java:55-74 | exactly two distinct cells: back, then the next cell along the stored orientation |
| Vehicles.OccupiedIgnoresFront | rushhour/src/main/java/model/Vehicle.java:55-74 | the footprint does not depend on front; cell k is back plus k columns (horizontal) or k rows (vertical) |
| Vehicles.CoversIffOccupied | rushhour/src/main/java/model/RushHour.java:167-179 | for a two-cell vehicle, the rectangle that `overlaps` scans holds exactly the footprint cells |
| Vehicles.ReversedRectangleEmpty | rushhour/src/main/java/model/RushHour.java:167-179 | for every vehicle with back past front in a row or a column, no cell is in the rectangle, yet back is in the footprint |
| Vehicles.DisagreeOtherwise | rushhour/src/main/java/model/RushHour.java:167-179 | for every vehicle that is not two-cell, some cell is in the rectangle and not the footprint, or the other way round |
| Vehicles.CoversDisagreesWhenReversed | rushhour/src/main/java/model/RushHour.java:167-179 | one concrete case: the vehicle A built with back (0,1) and front (0,0) has its back in its footprint but outside its rectangle |
| Vehicles.MoveKeepsTwoCell | rushhour/src/main/java/model/Vehicle.java:36-74 | a move keeps a two-cell vehicle two-cell, and a move along it shifts both footprint cells |
| Boards.FindFirst | rushhour/src/main/java/model/RushHour.java:61-66 | finds an index exactly when some vehicle has the id, and that index is the first such vehicle's |
| Boards.FindFirstAppend | rushhour/src/main/java/model/RushHour.java:47-66 | after an append, an id already present is found where it was, and a new id is found at the end |
| Boards.FindFirstSameIds | rushhour/src/main/java/model/RushHour.java:61-66 | lookup reads only the ids, so two lists with the same ids agree on it |
| Boards.AddVehicle | rushhour/src/main/java/model/RushHour.java:47-55 | fails with the duplicate-id error exactly when the id is on the board; otherwise appends the vehicle and keeps the rest and the counter |
| Boards.AddVehicleThenGet | model/RushHour.java:23-42 | a successful add keeps ids distinct, `getVehicle` then finds the new vehicle, and every other id's lookup is unchanged |
| Boards.GetVehicle | rushhour/src/main/java/model/RushHour.java:61-66 | succeeds exactly when the id is present, with the first vehicle that has it; otherwise "vehicle not found" |
| Boards.GetRedCar | model/RushHour.java:44-49 | the first vehicle with id 'X', or nothing exactly when there is none |
| Boards.CanMove | rushhour/src/main/java/model/RushHour.java:98-116 | true exactly when the id is present and the first such vehicle's shifted back and front are on the board and outside every other vehicle's rectangle; orientation is not consulted |
| Boards.CanMoveScan | rushhour/src/main/java/model/RushHour.java:98-116 | the statement-by-statement `canMove`, with the lookup failure caught, returns exactly `Boards.CanMove` |
| Boards.CollidesScan | rushhour/src/main/java/model/RushHour.java:155-165 | the loop reports a hit exactly when some vehicle other than the mover has a shifted end in its rectangle |
| Boards.OverlapsScan | rushhour/src/main/java/model/RushHour.java:167-179 | the double loop reports a hit exactly when the cell lies in the back..front rectangle |
| Boards.StepAllowedSameRectangles | rushhour/src/main/java/model/RushHour.java:103-112 | whether a step is allowed depends only on the vehicles' backs and fronts |
| Boards.MoveVehicle | rushhour/src/main/java/model/RushHour.java:117-134 | succeeds exactly when `canMove` does; an unknown id is "vehicle not found", a refused move is an illegal-move error; on success only the first vehicle with the id is moved and the counter rises by exactly one |
| Boards.MoveVehicleKeepsInvariant | rushhour/src/main/java/model/RushHour.java:117-134 | a successful move keeps ids distinct, keeps orientation flags consistent, and keeps the moved id on the board |
| Boards.CrossMoveOnlyCounts | rushhour/src/main/java/model/RushHour.java:103-127 | a move across the vehicle's orientation that `canMove` allows succeeds with every vehicle unchanged and the counter one higher |
| Boards.CrossMoveExample | rushhour/src/main/java/model/RushHour.java:98-134 | a lone horizontal red car at (2,0)-(2,1) may "move UP", and doing so only raises the counter |
| Boards.IsGameOverScan | rushhour/src/main/java/model/RushHour.java:89-96 | the loop answers true exactly when some vehicle with id 'X' has its front in column 5, in any row |
| Boards.Reset | model/RushHour.java:55-59 | the board has no vehicles and a zero counter |
| Boards.ResetForgets | rushhour/src/main/java/model/RushHour.java:79-96 | after `reset` no id is found, the red car is null, nothing can move, `moveVehicle` fails with "vehicle not found", and the game is not over |
| Boards.Copy | rushhour/src/main/java/model/RushHour.java:15-35 | same counter and, in the same order, vehicles with the same ids, backs and fronts, with orientation recomputed by the constructor |
| Boards.CopyIsIdentity | rushhour/src/main/java/model/RushHour.java:15-35 | the copy equals the original exactly when every stored orientation flag agrees with its vehicle's geometry |
| Boards.CanMoveIgnoresOrientation | rushhour/src/main/java/model/RushHour.java:98-112 | a board and its copy agree on every `canMove` question and on which ids are present |
| Solver.Root | rushhour/src/main/java/model/RushHourSolver.java:13-21 | the root node has an empty path and a copy of the board with the same counter and vehicle count, equal to the board when its flags are consistent |
| Solver.LegalDirections | rushhour/src/main/java/model/RushHourSolver.java:29-30 | lists a move exactly for the directions that pass `canMove`, each at most once |
| Solver.LegalMovesOf | rushhour/src/main/java/model/RushHourSolver.java:27-43 | lists a move exactly when its vehicle is on the board and `canMove` passes for it |
| Solver.LegalMovesDistinct | rushhour/src/main/java/model/RushHourSolver.java:27-43 | with distinct ids no (vehicle, direction) pair is listed twice |
| Solver.Child | rushhour/src/main/java/model/RushHourSolver.java:31-40 | a child extends the path by its move, raises the counter by one, keeps the vehicle count, and holds exactly the `moveVehicle` result when the parent's flags are consistent |
| Solver.SuccessorsExactly | rushhour/src/main/java/model/RushHourSolver.java:23-45 | a successor whose path is the parent's plus a move exists exactly when that move's vehicle is on the board and `canMove` passes |
| Solver.SuccessorShape | rushhour/src/main/java/model/RushHourSolver.java:32-40 | every successor's path is one longer with the parent's as prefix, its move passed `canMove`, its counter is one higher, and its board is `moveVehicle` applied to the parent's |
| Solver.SuccessorsDistinct | rushhour/src/main/java/model/RushHourSolver.java:23-45 | with distinct ids no two successors are equal, so the `HashSet` merges none and their number is the number of passing pairs |
| Solver.SuccessorKeepsIds | rushhour/src/main/java/model/RushHourSolver.java:31-40 | successors of a board with distinct ids have distinct ids |
| Solver.CheckCellsIff | rushhour/src/main/java/model/RushHourSolver.java:47-66 | the loop of `isValid` passes exactly when every cell is on the board, none is already in the set, and none repeats |
| Solver.IsValidIff | rushhour/src/main/java/model/RushHourSolver.java:47-66 | `isValid` holds exactly when every footprint cell is on the board and no cell is occupied twice |
| Solver.ValidIsStricter | rushhour/src/main/java/model/RushHourSolver.java:47-66 | every node the structural check accepts is also accepted by the check as written |
| Solver.OverlapPassesAsWritten | rushhour/src/main/java/model/RushHourSolver.java:59-62 | two vehicles stacked on (2,0)-(2,1) pass the check as written but fail the structural one |
| Solver.ValidIffPairwise | rushhour/src/main/java/model/RushHourSolver.java:51-63 | validity vehicle by vehicle: every footprint is on the board and any two footprints are disjoint |
| Solver.MoveKeepsValid | rushhour/src/main/java/model/RushHour.java:98-134 | on a valid board of two-cell vehicles, a move that `canMove` allows keeps the board valid and two-cell |
| Solver.SuccessorKeepsValid | rushhour/src/main/java/model/RushHourSolver.java:23-66 | every successor of a valid node of two-cell vehicles is valid and two-cell |
| Solver.IsGoal | rushhour/src/main/java/model/RushHourSolver.java:68-75 | fails exactly when there is no 'X'; true exactly when the first 'X' is horizontal with its front on (2, 5) |
| Solver.GoalImpliesGameOver | rushhour/src/main/java/model/RushHour.java:89-96 | a goal node's board is also game over |
| Solver.GameOverIsNotGoal | rushhour/src/main/java/model/RushHourSolver.java:68-75 | the converse fails: a red car in the last column of row 0, or a vertical one ending on (2, 5), is game over but no goal |
| Solver.Replay | rushhour/src/main/java/model/RushHour.java:117-134 | replaying a path with `moveVehicle`, when it succeeds, raises the counter by the path length and keeps the vehicle count |
| Solver.ReplayAppend | rushhour/src/main/java/model/RushHourSolver.java:32-37 | replaying one more move is one more `moveVehicle` on the replayed board |
| Solver.SuccessorReplays | rushhour/src/main/java/model/RushHourSolver.java:32-40 | if a node's path replays to its board, so does each successor's path |
| Backtracking.SolveNode | rushhour/src/main/java/model/Backtracker.java:12-24 | an invalid node gives null; a valid goal node is returned as itself; a valid node with no red car crashes |
| Backtracking.Explore | rushhour/src/main/java/model/Backtracker.java:26-33 | no children gives null |
| Backtracking.Solve | rushhour/src/main/java/model/Backtracker.java:12-24 | null and invalid nodes give null; a valid goal is returned as itself |
| Backtracking.ExploreReturnsFirst | rushhour/src/main/java/model/Backtracker.java:26-31 | the first child whose search is not null decides the result, and later children are not searched |
| Backtracking.ExploreFailsIffAllFail | rushhour/src/main/java/model/Backtracker.java:26-33 | the loop gives null exactly when every child's search gives null |
| Backtracking.SolveNodeStep | rushhour/src/main/java/model/Backtracker.java:12-31 | a valid non-goal node with budget left returns what its arranged successors return; otherwise only the node itself can be returned, as a valid goal |
| Backtracking.SolveNodeSound | rushhour/src/main/java/model/Backtracker.java:12-34 | any node returned is valid and a goal |
| Backtracking.SolveNodePrefix | rushhour/src/main/java/model/Backtracker.java:22-31 | a node the search returns has the starting node's moves as a prefix of its own, for every node and every permuting order |
| Backtracking.BelowPrefix | rushhour/src/main/java/model/RushHourSolver.java:32-40 | every node any number of successor steps below a node extends that node's path |
| Backtracking.SolveNodeBelow | rushhour/src/main/java/model/Backtracker.java:22-31 | a node returned is the input or reached from it by at most `fuel` successor steps |
| Backtracking.BelowDescends | rushhour/src/main/java/model/RushHourSolver.java:32-40 | below a node whose flags are consistent and whose path replays to its board from a start, every node's path also replays to its board |
| Backtracking.SolveGame | rushhour/src/main/java/model/RushHourSolver.java:81-85 | whatever the static `solve` returns is valid and a goal, for every order of the successors |
| Backtracking.SolveGameSound | rushhour/src/main/java/model/RushHourSolver.java:81-85 | what the static `solve` returns is valid, a goal, rebuilt by replaying its moves from the game, and counts one move per step of its path |
| Backtracking.SolveNodeFuelMonotone | rushhour/src/main/java/model/Backtracker.java:12-34 | an answer reached within some budget is the answer for every larger budget |
| Backtracking.LoneRedCarStep | rushhour/src/main/java/model/RushHourSolver.java:27-40 | for a lone red car short of the exit, the first successor is the UP no-op: the same board with one more move counted |
| Backtracking.LoneRedCarRunsOut | rushhour/src/main/java/model/Backtracker.java:26-31 | searched in generation order from such a board, every budget runs out |
| Backtracking.LoneRedCarNeverSolved | rushhour/src/main/java/model/RushHourSolver.java:81-85 | the static `solve` on a lone red car short of the exit, in generation order, runs out of every budget: it never finds the exit (in Java the recursion ends in a stack overflow) |

## Left out

- Observers (`addObserver`, `notifyObservers`, `RushHourObserver`) are left out. They are side-effect callbacks with no state the search reads.
- The verbose printing in `Backtracker` is left out because it is output only. The `verbose` flag therefore has no counterpart, and it cannot change a result.
- Exception messages are left out. Each thrown exception is an `Error` variant.
- The `NullPointerException` of `isGoal` on a board without 'X' is the error `MissingRedCar`. The search reports it as `Crashed`.
- Java `int` is 32 bits wide, but `moveCount` and the coordinates are unbounded here. Wrapping `moveCount` would need about 2^31 moves. A coordinate that a move wraps around never lands in [0, 6), so `canMove` would refuse that move anyway. This argument does not cover the loop counters of `overlaps`; the next line covers them.
- Boards.OverlapsScan: the loop counters of `overlaps` (rushhour/src/main/java/model/RushHour.java:171-172) are not 32-bit here. When a vehicle's front row or column is `Integer.MAX_VALUE`, `row <= front.getRow()` or `col <= front.getCol()` stays true, and the Java counter wraps to `Integer.MIN_VALUE`. The loop then never ends, or after wrapping it matches a cell that lies before `back`. The model's rectangle `Vehicles.Covers` simply answers false for such cells. An example is X at (2,0)-(2,1) with B added at back (4,0), front (4, 2147483647). `isValid` accepts this board, because B's footprint is (4,0),(4,1), yet `canMove('X', UP)` does not return in Java while `Boards.CanMove` holds. `Boards.CanMove`, `Boards.CollidesScan` and `Boards.CanMoveScan` inherit this, because they use the same rectangle.
- The `HashSet` iteration order is not modelled. The search takes it as the `arrange` parameter, and the soundness lemmas quantify over every permutation.
- Backtracking.SolveNode: termination and completeness are not claimed. The Java recursion has no bound, so the model bounds its depth with `fuel`. An answer found within a budget stays the answer under every larger one.
- The `StackOverflowError` that ends a Java search descending too deep is not modelled as an error of its own. Its depth depends on the JVM's stack size, so it is folded into `OutOfFuel`, the outcome of a search that goes deeper than its budget.
- The `Direction` enum is not part of this model. `Direction.values()` is taken to list UP, DOWN, LEFT, RIGHT, the order of the switch in `calculateNewPosition`. Only the generation order of successors depends on this.
- The `Position` class of the `rushhour` package is not part of this model. It is taken to be the top-level `model/Position.java`, whose public `row`/`col` fields and getters become the fields of `Geometry.Position`. `Geometry.Position` compares by row and column; the search's `isValid` relies on this; see ## Findings.
- `getRow`, `getCol`, `getVehicleId`, `getDirection`, `getVehicles`, `getMoveCount`, `getMoves`, `getSize` and the `RushHour()` getter of the solver are plain accessors. They are the datatype fields and the constant `Geometry.Size`, so no member states anything about them.
- `Move` has private fields and no setters, so it cannot change. `Position` has public mutable fields `row` and `col` (model/Position.java:4-5), so any holder of a `getBack()` or `getFront()` could change a vehicle's geometry in place. No code in the core does so: `move`, `calculateNewPosition`, the copy constructor and `getOccupiedPositions` always build new positions. The model therefore treats `Geometry.Position` as a value, and `Solver.Move` and `Geometry.Position` are plain datatypes that accept any values, since neither class validates its arguments.
- Java aliasing is left out. The model has no shared mutable state: the copy constructor, `getSuccessors` and `moveVehicle` all return new values, so a copy cannot affect its original and a parent is never changed by expanding it.
- `vehicle != movingVehicle` in `collidesWithOtherVehicles` compares references. The model compares list indices instead. The two tests agree because no vehicle object appears twice in a board's list: `addVehicle` refuses a repeated id, and the copy constructor builds a fresh object for every vehicle.
- The top-level `model/RushHour.java` repeats `addVehicle`, `getVehicle`, `getRedCar`, `reset` and `isGameOver` of the `rushhour` board unchanged, and has no copy constructor, `canMove`, `moveVehicle` or collision helpers. The top-level `model/Vehicle.java` repeats the constructor and `move` unchanged and has no `getOccupiedPositions`. One model serves both copies of what they share; `Vehicles.OccupiedPositions` models only the `rushhour` vehicle. Some rows above cite the older copy.

## Findings

| source | as written | input that shows it | evidently intended | confidence | as-written member | corrected member |
|---|---|---|---|---|---|---|
| rushhour/src/main/java/model/RushHourSolver.java:59-62 | the overlap check adds each footprint cell to a `HashSet<Position>`, but every cell is a freshly built `Position` and `model/Position.java` defines neither `equals` nor `hashCode`, so the add never refuses a cell and only the bounds check can fail | two vehicles, X and A, both at (2,0)-(2,1) | a cell occupied twice makes the node invalid | medium, not executed; the `rushhour` package's own `Position` is not part of this model and might define equality | Solver.OverlapPassesAsWritten (with Solver.IsValidAsWritten) | Solver.IsValidIff (with Solver.CheckCellsIff), used by the search |
