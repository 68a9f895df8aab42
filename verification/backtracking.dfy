/**
 The depth-first search of `Backtracker.solve` and the static
 `RushHourSolver.solve`.  The Java recursion has no visited set and moves are
 reversible, so nothing bounds it but the stack; the model carries a depth
 budget `fuel`, and running out of it is an outcome of its own, distinct from
 `null`.
 */
module Backtracking {
  import opened Failures
  import opened Geometry
  import opened Vehicles
  import opened Boards
  import opened Solver

  datatype Outcome =
    | Found(node: Node)       // a node is returned
    | Failed                  // null is returned
    | OutOfFuel               // the recursion would go deeper than the budget
    | Crashed(error: Error)   // an exception escapes the search

  /**
   The order a `HashSet` of successors is iterated in: some rearrangement of
   the successors, nothing added and nothing lost.
   */
  ghost predicate Permutes(arrange: seq<Node> -> seq<Node>) {
    forall cs {:trigger arrange(cs)} :: multiset(arrange(cs)) == multiset(cs)
  }

  /**
   One call of `solve` on a non-null node: invalid nodes fail, a goal node is
   returned as is, and otherwise the successors are searched in the order
   `arrange` gives them.
   */
  function SolveNode(n: Node, fuel: nat, arrange: seq<Node> -> seq<Node>): (r: Outcome)
    ensures !IsValid(n) ==> r == Failed
    ensures IsValid(n) && IsGoal(n) == Ok(true) ==> r == Found(n)
    ensures IsValid(n) && !HasId(n.board.vehicles, 'X') ==> r == Crashed(MissingRedCar)
    decreases fuel, 0
  {
    if !IsValid(n) then Failed
    else match IsGoal(n)
      case Err(e) => Crashed(e)
      case Ok(true) => Found(n)
      case Ok(false) =>
        if fuel == 0 then OutOfFuel
        else Explore(arrange(Successors(n)), fuel - 1, arrange)
  }

  /** The loop over the successors: the first result that is not null ends it. */
  function Explore(children: seq<Node>, fuel: nat, arrange: seq<Node> -> seq<Node>): (r: Outcome)
    ensures children == [] ==> r == Failed
    decreases fuel, 1, |children|
  {
    if children == [] then Failed
    else
      var first := SolveNode(children[0], fuel, arrange);
      if first.Failed? then Explore(children[1..], fuel, arrange) else first
  }

  /** `Backtracker.solve`, null included. */
  function Solve(config: Option<Node>, fuel: nat, arrange: seq<Node> -> seq<Node>): (r: Outcome)
    ensures config.None? ==> r == Failed
    ensures config.Some? && !IsValid(config.value) ==> r == Failed
    ensures config.Some? && IsValid(config.value) && IsGoal(config.value) == Ok(true) ==> r == Found(config.value)
  {
    match config
    case None => Failed
    case Some(n) => SolveNode(n, fuel, arrange)
  }

  /** The static `RushHourSolver.solve`: search from a root built on a copy of the game. */
  function SolveGame(game: Board, fuel: nat, arrange: seq<Node> -> seq<Node>): (r: Outcome)
    ensures r.Found? ==> Solved(r.node)
  {
    SolveNodeSound(Root(game), fuel, arrange);
    Solve(Some(Root(game)), fuel, arrange)
  }

  // ---------------------------------------------------------------------------
  // Order of exploration
  // ---------------------------------------------------------------------------

  /**
   The first child whose search does not fail decides the result; the children
   after it are never searched.
   */
  lemma {:induction false} ExploreReturnsFirst(children: seq<Node>, fuel: nat, arrange: seq<Node> -> seq<Node>, k: nat)
    requires k < |children|
    requires forall j :: 0 <= j < k ==> SolveNode(children[j], fuel, arrange).Failed?
    requires !SolveNode(children[k], fuel, arrange).Failed?
    ensures Explore(children, fuel, arrange) == SolveNode(children[k], fuel, arrange)
    decreases k
  {
    if k > 0 {
      ExploreReturnsFirst(children[1..], fuel, arrange, k - 1);
    }
  }

  /** The loop returns null exactly when every child's search returns null. */
  lemma {:induction false} ExploreFailsIffAllFail(children: seq<Node>, fuel: nat, arrange: seq<Node> -> seq<Node>)
    ensures Explore(children, fuel, arrange).Failed? <==>
            forall j :: 0 <= j < |children| ==> SolveNode(children[j], fuel, arrange).Failed?
    decreases |children|
  {
    if children != [] {
      ExploreFailsIffAllFail(children[1..], fuel, arrange);
      assert forall j :: 1 <= j < |children| ==> children[j] == children[1..][j - 1];
    }
  }

  // ---------------------------------------------------------------------------
  // Soundness
  // ---------------------------------------------------------------------------

  /** A node `solve` accepts as an answer: valid, and a goal. */
  predicate Solved(n: Node) {
    IsValid(n) && IsGoal(n) == Ok(true)
  }

  /** A node the search returns is valid and a goal. */
  lemma {:induction false} SolveNodeSound(n: Node, fuel: nat, arrange: seq<Node> -> seq<Node>)
    ensures SolveNode(n, fuel, arrange).Found? ==> Solved(SolveNode(n, fuel, arrange).node)
    decreases fuel, 0
  {
    SolveNodeStep(n, fuel, arrange);
    if IsValid(n) && IsGoal(n) == Ok(false) && fuel > 0 {
      ExploreSound(arrange(Successors(n)), fuel - 1, arrange);
    }
  }

  lemma {:induction false} ExploreSound(children: seq<Node>, fuel: nat, arrange: seq<Node> -> seq<Node>)
    ensures Explore(children, fuel, arrange).Found? ==> Solved(Explore(children, fuel, arrange).node)
    decreases fuel, 1, |children|
  {
    if children != [] {
      if SolveNode(children[0], fuel, arrange).Failed? {
        ExploreSound(children[1..], fuel, arrange);
      } else {
        SolveNodeSound(children[0], fuel, arrange);
      }
    }
  }

  /** `prefix` is an initial segment of `path`. */
  predicate IsPrefix(prefix: seq<Move>, path: seq<Move>) {
    |prefix| <= |path| && path[..|prefix|] == prefix
  }

  /** Every node in an arrangement of the successors is a successor. */
  lemma ArrangedAreSuccessors(n: Node, arrange: seq<Node> -> seq<Node>, c: Node)
    requires Permutes(arrange)
    requires c in arrange(Successors(n))
    ensures c in Successors(n)
  {
    assert c in multiset(arrange(Successors(n)));
  }

  /**
   One unfolding of `solve`: either the node decides the result by itself
   (null, a crash, itself as a goal, or the budget), or its successors do.
   */
  lemma SolveNodeStep(n: Node, fuel: nat, arrange: seq<Node> -> seq<Node>)
    ensures var r := SolveNode(n, fuel, arrange);
      if IsValid(n) && IsGoal(n) == Ok(false) && fuel > 0 then
        r == Explore(arrange(Successors(n)), fuel - 1, arrange)
      else
        r.Found? ==> r == Found(n) && Solved(n)
  {
  }

  /** `r` is `n` itself or lies at most `depth` successor steps below it. */
  ghost predicate Below(n: Node, r: Node, depth: nat)
    decreases depth
  {
    r == n || (depth > 0 && exists c :: c in Successors(n) && Below(c, r, depth - 1))
  }

  /** A node the search returns lies below the node it started at, at most `fuel` steps down. */
  lemma {:induction false} SolveNodeBelow(n: Node, fuel: nat, arrange: seq<Node> -> seq<Node>)
    requires Permutes(arrange)
    ensures SolveNode(n, fuel, arrange).Found? ==> Below(n, SolveNode(n, fuel, arrange).node, fuel)
    decreases fuel, 0
  {
    var r := SolveNode(n, fuel, arrange);
    SolveNodeStep(n, fuel, arrange);
    if IsValid(n) && IsGoal(n) == Ok(false) && fuel > 0 {
      var e := Explore(arrange(Successors(n)), fuel - 1, arrange);
      ExploreBelow(n, arrange(Successors(n)), fuel - 1, arrange);
      assert r == e;
      assert e.Found? ==> Below(n, e.node, fuel);
    } else if r.Found? {
      assert Below(n, r.node, fuel);
    }
  }

  lemma {:induction false} ExploreBelow(parent: Node, children: seq<Node>, fuel: nat, arrange: seq<Node> -> seq<Node>)
    requires Permutes(arrange)
    requires forall c :: c in children ==> c in arrange(Successors(parent))
    ensures Explore(children, fuel, arrange).Found? ==> Below(parent, Explore(children, fuel, arrange).node, fuel + 1)
    decreases fuel, 1, |children|
  {
    if children != [] {
      var c := children[0];
      var first := SolveNode(c, fuel, arrange);
      if first.Failed? {
        ExploreBelow(parent, children[1..], fuel, arrange);
      } else if first.Found? {
        ArrangedAreSuccessors(parent, arrange, c);
        SolveNodeBelow(c, fuel, arrange);
        assert Below(parent, first.node, fuel + 1);
      }
    }
  }

  /** Every node below `n` extends its path. */
  lemma {:induction false} BelowPrefix(n: Node, r: Node, depth: nat)
    requires Below(n, r, depth)
    ensures IsPrefix(n.moves, r.moves)
    decreases depth
  {
    if r == n {
      assert n.moves[..|n.moves|] == n.moves;
    } else {
      var c :| c in Successors(n) && Below(c, r, depth - 1);
      SuccessorExtends(n, c);
      BelowPrefix(c, r, depth - 1);
      PrefixTransitive(n.moves, c.moves, r.moves);
    }
  }

  /** A node the search returns has the starting node's path as a prefix of its own. */
  lemma SolveNodePrefix(n: Node, fuel: nat, arrange: seq<Node> -> seq<Node>)
    requires Permutes(arrange)
    ensures SolveNode(n, fuel, arrange).Found? ==> IsPrefix(n.moves, SolveNode(n, fuel, arrange).node.moves)
  {
    var r := SolveNode(n, fuel, arrange);
    if r.Found? {
      SolveNodeBelow(n, fuel, arrange);
      BelowPrefix(n, r.node, fuel);
    }
  }

  /**
   Replaying the path of a node below `n` from `start` rebuilds its board
   whenever that holds of `n`.
   */
  lemma {:induction false} BelowDescends(start: Board, n: Node, r: Node, depth: nat)
    requires Below(n, r, depth)
    requires AllOriented(n.board.vehicles)
    requires Replay(start, n.moves) == Ok(n.board)
    ensures IsPrefix(n.moves, r.moves)
    ensures Replay(start, r.moves) == Ok(r.board)
    decreases depth
  {
    BelowPrefix(n, r, depth);
    if r != n {
      var c :| c in Successors(n) && Below(c, r, depth - 1);
      SuccessorExtends(n, c);
      SuccessorReplays(start, n, c);
      BelowDescends(start, c, r, depth - 1);
    }
  }

  lemma SuccessorExtends(n: Node, c: Node)
    requires c in Successors(n)
    ensures IsPrefix(n.moves, c.moves)
    ensures AllOriented(c.board.vehicles)
  {
    SuccessorShape(n, c);
  }

  lemma PrefixTransitive(a: seq<Move>, b: seq<Move>, c: seq<Move>)
    requires IsPrefix(a, b) && IsPrefix(b, c)
    ensures IsPrefix(a, c)
  {
    assert c[..|a|] == c[..|b|][..|a|];
  }

  /**
   The static `solve`: whatever it returns is valid, a goal, and reached from
   the game by replaying its moves with `moveVehicle`, one count per move.
   */
  lemma SolveGameSound(game: Board, fuel: nat, arrange: seq<Node> -> seq<Node>)
    requires Permutes(arrange)
    requires AllOriented(game.vehicles)
    requires SolveGame(game, fuel, arrange).Found?
    ensures IsValid(SolveGame(game, fuel, arrange).node)
    ensures IsGoal(SolveGame(game, fuel, arrange).node) == Ok(true)
    ensures Replay(game, SolveGame(game, fuel, arrange).node.moves) == Ok(SolveGame(game, fuel, arrange).node.board)
    ensures SolveGame(game, fuel, arrange).node.board.moveCount == game.moveCount + |SolveGame(game, fuel, arrange).node.moves|
  {
    var root := Root(game);
    SolveNodeSound(root, fuel, arrange);
    SolveNodeBelow(root, fuel, arrange);
    BelowDescends(game, root, SolveNode(root, fuel, arrange).node, fuel);
  }

  // ---------------------------------------------------------------------------
  // The budget
  // ---------------------------------------------------------------------------

  /**
   The budget only cuts the search off: an answer reached within some budget
   is the answer for every larger budget, and so the answer of the unbounded
   Java recursion.
   */
  lemma {:induction false} SolveNodeFuelMonotone(n: Node, fuel: nat, more: nat, arrange: seq<Node> -> seq<Node>)
    requires fuel <= more
    requires SolveNode(n, fuel, arrange) != OutOfFuel
    ensures SolveNode(n, more, arrange) == SolveNode(n, fuel, arrange)
    decreases fuel, 0
  {
    SolveNodeStep(n, fuel, arrange);
    SolveNodeStep(n, more, arrange);
    if IsValid(n) && IsGoal(n) == Ok(false) {
      ExploreFuelMonotone(arrange(Successors(n)), fuel - 1, more - 1, arrange);
    }
  }

  lemma {:induction false} ExploreFuelMonotone(children: seq<Node>, fuel: nat, more: nat, arrange: seq<Node> -> seq<Node>)
    requires fuel <= more
    requires Explore(children, fuel, arrange) != OutOfFuel
    ensures Explore(children, more, arrange) == Explore(children, fuel, arrange)
    decreases fuel, 1, |children|
  {
    if children != [] {
      SolveNodeFuelMonotone(children[0], fuel, more, arrange);
      if SolveNode(children[0], fuel, arrange).Failed? {
        ExploreFuelMonotone(children[1..], fuel, more, arrange);
      }
    }
  }

  // ---------------------------------------------------------------------------
  // A search that never finds the exit
  // ---------------------------------------------------------------------------

  /** A lone horizontal red car on the exit row with its back in column `col`, after `count` moves. */
  function LoneRedCar(col: int, count: int): Board {
    Board([NewVehicle('X', Position(ExitRow, col), Position(ExitRow, col + 1))], count)
  }

  /** Successors searched in the order they were generated. */
  function InOrder(cs: seq<Node>): seq<Node> {
    cs
  }

  /** Short of the exit, the lone red car's board is valid and not yet a goal. */
  lemma LoneRedCarOpen(col: int, count: int, moves: seq<Move>)
    requires 0 <= col < ExitCol - 1
    ensures IsValid(Node(LoneRedCar(col, count), moves))
    ensures IsGoal(Node(LoneRedCar(col, count), moves)) == Ok(false)
  {
    var n := Node(LoneRedCar(col, count), moves);
    assert IsFirst(n.board.vehicles, 'X', 0);
    IsValidIff(n);
    assert AllCells(n.board.vehicles) == [Position(ExitRow, col), Position(ExitRow, col + 1)];
  }

  /**
   The lone red car can "move UP": the first successor is the same board with
   one more move on the counter.
   */
  lemma LoneRedCarStep(col: int, count: int, moves: seq<Move>)
    requires 0 <= col < ExitCol - 1
    ensures |Successors(Node(LoneRedCar(col, count), moves))| > 0
    ensures Successors(Node(LoneRedCar(col, count), moves))[0] ==
      Node(LoneRedCar(col, count + 1), moves + [Move('X', Up)])
  {
    var b := LoneRedCar(col, count);
    assert IsFirst(b.vehicles, 'X', 0);
    assert CanMove(b, 'X', Up);
    assert LegalDirections(b, 'X', Directions)[0] == Move('X', Up);
    assert LegalMoves(b)[0] == Move('X', Up);
    CrossMoveOnlyCounts(Copy(b), 'X', Up, 0);
  }

  /**
   Searched in generation order, the lone red car never reaches the exit: the
   search keeps descending into the same board, and every budget runs out.
   */
  lemma {:induction false} LoneRedCarRunsOut(col: int, count: int, moves: seq<Move>, fuel: nat)
    requires 0 <= col < ExitCol - 1
    ensures SolveNode(Node(LoneRedCar(col, count), moves), fuel, InOrder) == OutOfFuel
    decreases fuel
  {
    var n := Node(LoneRedCar(col, count), moves);
    LoneRedCarOpen(col, count, moves);
    LoneRedCarStep(col, count, moves);
    if fuel > 0 {
      var c := Node(LoneRedCar(col, count + 1), moves + [Move('X', Up)]);
      LoneRedCarRunsOut(col, count + 1, moves + [Move('X', Up)], fuel - 1);
      assert InOrder(Successors(n))[0] == c;
    }
  }

  /** So the static `solve` on such a game never finds the exit: every budget runs out. */
  lemma LoneRedCarNeverSolved(col: int, fuel: nat)
    requires 0 <= col < ExitCol - 1
    ensures SolveGame(LoneRedCar(col, 0), fuel, InOrder) == OutOfFuel
  {
    CopyIsIdentity(LoneRedCar(col, 0));
    LoneRedCarRunsOut(col, 0, [], fuel);
  }
}
