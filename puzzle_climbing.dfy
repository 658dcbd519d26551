/**
  `EightPuzzleHillClimbing` (hillclimbing.py): an eight-puzzle state paired
  with the goal state it is scored against, seen by the engines through
  `get_neighbors`, `evaluate` and `is_goal`. The score is 100 minus the total
  Manhattan distance of the tiles from their places on the goal board.
 */
module PuzzleClimbing {
  import opened Wrappers
  import opened Integers
  import opened Search
  import opened EightPuzzle
  import opened HillClimbing

  datatype PuzzleClimber = PuzzleClimber(puzzle: PuzzleState, goal: PuzzleState)

  /** Both boards are constructed states. */
  type Climber = c: PuzzleClimber | Valid(c.puzzle) && Valid(c.goal)
    witness PuzzleClimber(PuzzleState(GoalBoard, Pos(0, 0)), PuzzleState(GoalBoard, Pos(0, 0)))

  /** The goal `generate_random_state` uses: `[[0,1,2],[3,4,5],[6,7,8]]`. */
  const GoalBoard: Board := [[0, 1, 2], [3, 4, 5], [6, 7, 8]]

  // ---------------------------------------------------------------------
  // get_neighbors
  // ---------------------------------------------------------------------

  /** The comprehension of `get_neighbors` over the directions `ms`: one
      climber, with the same goal, per direction whose move succeeds. */
  function NeighborsVia(c: Climber, ms: seq<string>): (ns: seq<Climber>)
    ensures |ns| <= |ms|
    ensures forall n :: n in ns ==> n.goal == c.goal
  {
    if ms == [] then [] else MoveNeighbor(c, ms[0]) + NeighborsVia(c, ms[1..])
  }

  /** The climber the move in direction `d` reaches, if that move succeeds. */
  function MoveNeighbor(c: Climber, d: string): (ns: seq<Climber>)
    ensures |ns| <= 1 && forall n :: n in ns ==> n.goal == c.goal
  {
    match Move(c.puzzle, d)
    case None => []
    case Some(t) => [PuzzleClimber(t, c.goal)]
  }

  /** `EightPuzzleHillClimbing.get_neighbors`: at most four neighbours, all
      scored against the same goal. */
  function Neighbors(c: Climber): (ns: seq<Climber>)
    ensures |ns| <= 4 && forall n :: n in ns ==> n.goal == c.goal
  {
    NeighborsVia(c, PossibleMoves(c.puzzle.blank))
  }

  /** When every direction in `ms` succeeds, there is one neighbour per
      direction, in order, each the move in that direction. */
  lemma {:induction false} NeighborsViaAll(c: Climber, ms: seq<string>)
    requires forall k :: 0 <= k < |ms| ==> |MoveNeighbor(c, ms[k])| == 1
    ensures |NeighborsVia(c, ms)| == |ms|
    ensures forall k :: 0 <= k < |ms| ==> MoveNeighbor(c, ms[k]) == [NeighborsVia(c, ms)[k]]
  {
    if ms != [] {
      var head := MoveNeighbor(c, ms[0]);
      var rest := NeighborsVia(c, ms[1..]);
      assert |head| == 1;
      NeighborsViaAll(c, ms[1..]);
      assert NeighborsVia(c, ms) == head + rest;
      assert head == [NeighborsVia(c, ms)[0]];
      forall k | 1 <= k < |ms|
        ensures MoveNeighbor(c, ms[k]) == [NeighborsVia(c, ms)[k]]
      {
        assert ms[1..][k - 1] == ms[k];
        assert NeighborsVia(c, ms)[k] == rest[k - 1];
      }
    }
  }

  /** A climber has one neighbour per possible move, in order: the board
      after that move, scored against the same goal. */
  lemma NeighborsMoves(c: Climber)
    ensures |Neighbors(c)| == |PossibleMoves(c.puzzle.blank)|
    ensures forall k :: 0 <= k < |Neighbors(c)| ==>
      Move(c.puzzle, PossibleMoves(c.puzzle.blank)[k]) == Some(Neighbors(c)[k].puzzle)
  {
    var ms := PossibleMoves(c.puzzle.blank);
    forall k | 0 <= k < |ms| ensures |MoveNeighbor(c, ms[k])| == 1 {
      PossibleMovesSpec(c.puzzle, ms[k]);
    }
    NeighborsViaAll(c, ms);
    var ns := Neighbors(c);
    forall k | 0 <= k < |ns| ensures Move(c.puzzle, ms[k]) == Some(ns[k].puzzle) {
      assert MoveNeighbor(c, ms[k]) == [ns[k]];
    }
  }

  /** A climber has one neighbour per possible move (two at a corner, three
      on an edge, four at the centre), each the board after that move,
      holding the same tiles and scored against the same goal. */
  lemma NeighborsSpec(c: Climber)
    ensures var ms := PossibleMoves(c.puzzle.blank);
      var ns := Neighbors(c);
      && |ns| == |ms|
      && 2 <= |ns| <= 4
      && forall k :: 0 <= k < |ns| ==>
           && Move(c.puzzle, ms[k]) == Some(ns[k].puzzle)
           && ns[k].goal == c.goal
           && multiset(Cells(ns[k].puzzle.board)) == multiset(Cells(c.puzzle.board))
  {
    var ms := PossibleMoves(c.puzzle.blank);
    var ns := Neighbors(c);
    NeighborsMoves(c);
    PossibleMovesCount(c.puzzle.blank);
    forall k | 0 <= k < |ns|
      ensures multiset(Cells(ns[k].puzzle.board)) == multiset(Cells(c.puzzle.board))
    {
      MoveKeepsTiles(c.puzzle, ms[k]);
    }
  }

  // ---------------------------------------------------------------------
  // evaluate
  // ---------------------------------------------------------------------

  /** The distance added for tile `v` at `(i, j)` by the goal cells from
      `(gi, gj)` on in row-major order: `|i - gi| + |j - gj|` for each goal
      cell holding `v`. */
  function MatchCost(v: int, i: int, j: int, g: Board, gi: nat, gj: nat): (d: nat)
    requires IsGrid(g) && gi <= Size && gj <= Size
    decreases Size - gi, Size - gj
  {
    if gi == Size then 0
    else if gj == Size then MatchCost(v, i, j, g, gi + 1, 0)
    else (if g[gi][gj] == v then Abs(i - gi) + Abs(j - gj) else 0) + MatchCost(v, i, j, g, gi, gj + 1)
  }

  /** The distance of the tiles of `b` from `(i, j)` on; the blank adds nothing. */
  function DistanceFrom(b: Board, g: Board, i: nat, j: nat): (d: nat)
    requires IsGrid(b) && IsGrid(g) && i <= Size && j <= Size
    decreases Size - i, Size - j
  {
    if i == Size then 0
    else if j == Size then DistanceFrom(b, g, i + 1, 0)
    else (if b[i][j] != 0 then MatchCost(b[i][j], i, j, g, 0, 0) else 0) + DistanceFrom(b, g, i, j + 1)
  }

  /** `EightPuzzleHillClimbing.evaluate`; no board scores above 100. */
  function Score(c: Climber): (r: int)
    ensures r <= 100
  {
    100 - DistanceFrom(c.puzzle.board, c.goal.board, 0, 0)
  }

  /** `EightPuzzleHillClimbing.is_goal`: every tile stands on the goal
      cells that hold it, and on no other. */
  predicate IsGoal(c: Climber): (r: bool)
    ensures r <==> PlacedFrom(c.puzzle.board, c.goal.board, 0, 0)
  {
    DistancePlaced(c.puzzle.board, c.goal.board, 0, 0);
    Score(c) == 100
  }

  /** The two inner loops of `evaluate`: the distance tile `v` at `(i, j)`
      adds, summed over the goal cells holding `v`. */
  method TileDistance(v: int, i: int, j: int, g: Board) returns (d: nat)
    requires IsGrid(g)
    ensures d == MatchCost(v, i, j, g, 0, 0)
  {
    d := 0;
    for gi := 0 to Size
      invariant d + MatchCost(v, i, j, g, gi, 0) == MatchCost(v, i, j, g, 0, 0)
    {
      for gj := 0 to Size
        invariant d + MatchCost(v, i, j, g, gi, gj) == MatchCost(v, i, j, g, 0, 0)
      {
        if g[gi][gj] == v {
          d := d + Abs(i - gi) + Abs(j - gj);
        }
      }
    }
  }

  /** `EightPuzzleHillClimbing.evaluate`: 100 minus the distance summed
      over the tiles of the board. */
  method Evaluate(c: Climber) returns (score: int)
    ensures score == Score(c)
  {
    var b, g := c.puzzle.board, c.goal.board;
    var distance := 0;
    for i := 0 to Size
      invariant distance + DistanceFrom(b, g, i, 0) == DistanceFrom(b, g, 0, 0)
    {
      for j := 0 to Size
        invariant distance + DistanceFrom(b, g, i, j) == DistanceFrom(b, g, 0, 0)
      {
        if b[i][j] != 0 {
          var d := TileDistance(b[i][j], i, j, g);
          distance := distance + d;
        }
      }
    }
    return 100 - distance;
  }

  /** The board holds the tiles `0`..`8`, each once, as every board that
      `generate_random_puzzle` shuffles, the fixed goal, and every board a
      move reaches from one of them do. */
  ghost predicate Permutation(b: Board)
    requires IsGrid(b)
  {
    multiset(Cells(b)) == multiset(Tiles())
  }

  /** A cell holding value `v`, for a value the board holds. */
  lemma Locate(g: Board, v: int) returns (x: int, y: int)
    requires IsGrid(g) && v in multiset(Cells(g))
    ensures InBoard(x, y) && g[x][y] == v
  {
    var k :| 0 <= k < |Cells(g)| && Cells(g)[k] == v;
    x := RowOf(k);
    y := k - Size * x;
    CellAt(g, x, y);
  }

  /** Every value of a board is in its multiset of tiles. */
  lemma CellInTiles(b: Board, x: int, y: int)
    requires IsGrid(b) && InBoard(x, y)
    ensures b[x][y] in multiset(Cells(b))
  {
    CellsAt(b);
    assert Cells(b)[Size * x + y] == b[x][y];
  }

  /** A permutation board holds each of its values once. */
  lemma CountOne(g: Board, v: int)
    requires IsGrid(g) && Permutation(g) && v in multiset(Cells(g))
    ensures multiset(Cells(g))[v] == 1
  {
    var k :| 0 <= k < |Tiles()| && Tiles()[k] == v;
    DistinctCount(Tiles(), v, 0);
    assert Tiles()[0..] == Tiles();
  }

  /** On a permutation board no value is at two cells. */
  lemma Injective(g: Board, x: int, y: int, x': int, y': int)
    requires IsGrid(g) && Permutation(g) && InBoard(x, y) && InBoard(x', y') && g[x][y] == g[x'][y']
    ensures x == x' && y == y'
  {
    CellInTiles(g, x, y);
    CountOne(g, g[x][y]);
    if Pos(x, y) != Pos(x', y') {
      TwoCells(g, x, y, x', y');
    }
  }

  /** On a permutation board a value's cell is the only one holding it. */
  lemma OwnCell(b: Board, i: int, j: int)
    requires IsGrid(b) && Permutation(b) && InBoard(i, j)
    ensures forall x, y :: InBoard(x, y) && b[x][y] == b[i][j] ==> x == i && y == j
  {
    forall x, y | InBoard(x, y) && b[x][y] == b[i][j] ensures x == i && y == j {
      Injective(b, x, y, i, j);
    }
  }

  /** A tile the goal holds at one cell only, its own, costs nothing. */
  lemma {:induction false} MatchCostOwn(v: int, i: int, j: int, g: Board, gi: nat, gj: nat)
    requires IsGrid(g) && gi <= Size && gj <= Size
    requires forall x, y :: InBoard(x, y) && g[x][y] == v ==> x == i && y == j
    decreases Size - gi, Size - gj
    ensures MatchCost(v, i, j, g, gi, gj) == 0
  {
    if gi < Size {
      if gj == Size {
        MatchCostOwn(v, i, j, g, gi + 1, 0);
      } else {
        MatchCostOwn(v, i, j, g, gi, gj + 1);
      }
    }
  }

  lemma OwnCellCostsNothing(b: Board, i: int, j: int)
    requires IsGrid(b) && Permutation(b) && InBoard(i, j)
    ensures MatchCost(b[i][j], i, j, b, 0, 0) == 0
  {
    OwnCell(b, i, j);
    MatchCostOwn(b[i][j], i, j, b, 0, 0);
  }

  lemma {:induction false} DistanceSelf(b: Board, i: nat, j: nat)
    requires IsGrid(b) && i <= Size && j <= Size && Permutation(b)
    decreases Size - i, Size - j
    ensures DistanceFrom(b, b, i, j) == 0
  {
    if i < Size {
      if j == Size {
        DistanceSelf(b, i + 1, 0);
      } else {
        OwnCellCostsNothing(b, i, j);
        DistanceSelf(b, i, j + 1);
      }
    }
  }

  /** A tile whose matches cost nothing sits where the goal holds it. */
  lemma {:induction false} MatchCostZero(v: int, i: int, j: int, g: Board, gi: nat, gj: nat)
    requires IsGrid(g) && gi <= Size && gj <= Size
    requires MatchCost(v, i, j, g, gi, gj) == 0
    decreases Size - gi, Size - gj
    ensures forall x, y :: InBoard(x, y) && !Before(x, y, gi, gj) && g[x][y] == v ==> x == i && y == j
  {
    if gi < Size {
      if gj == Size {
        MatchCostZero(v, i, j, g, gi + 1, 0);
      } else {
        MatchCostZero(v, i, j, g, gi, gj + 1);
      }
    }
  }

  /** Every tile of `b` from `(i, j)` on sits where the goal holds it. */
  ghost predicate PlacedFrom(b: Board, g: Board, i: int, j: int)
    requires IsGrid(b) && IsGrid(g)
  {
    forall x, y, x', y' ::
      InBoard(x, y) && !Before(x, y, i, j) && b[x][y] != 0 && InBoard(x', y') && g[x'][y'] == b[x][y]
      ==> x' == x && y' == y
  }

  /** With no distance left, every tile sits where the goal holds it. */
  lemma {:induction false} DistanceZero(b: Board, g: Board, i: nat, j: nat)
    requires IsGrid(b) && IsGrid(g) && i <= Size && j <= Size
    requires DistanceFrom(b, g, i, j) == 0
    decreases Size - i, Size - j
    ensures PlacedFrom(b, g, i, j)
  {
    if i < Size {
      if j == Size {
        DistanceZero(b, g, i + 1, 0);
      } else {
        if b[i][j] != 0 {
          MatchCostZero(b[i][j], i, j, g, 0, 0);
        }
        DistanceZero(b, g, i, j + 1);
      }
    }
  }

  /** With every tile placed there is no distance left. */
  lemma {:induction false} PlacedDistance(b: Board, g: Board, i: nat, j: nat)
    requires IsGrid(b) && IsGrid(g) && i <= Size && j <= Size
    requires PlacedFrom(b, g, i, j)
    decreases Size - i, Size - j
    ensures DistanceFrom(b, g, i, j) == 0
  {
    if i < Size {
      if j == Size {
        PlacedDistance(b, g, i + 1, 0);
      } else {
        if b[i][j] != 0 {
          MatchCostOwn(b[i][j], i, j, g, 0, 0);
        }
        PlacedDistance(b, g, i, j + 1);
      }
    }
  }

  /** No distance is left exactly when every tile is placed. */
  lemma DistancePlaced(b: Board, g: Board, i: nat, j: nat)
    requires IsGrid(b) && IsGrid(g) && i <= Size && j <= Size
    ensures DistanceFrom(b, g, i, j) == 0 <==> PlacedFrom(b, g, i, j)
  {
    if DistanceFrom(b, g, i, j) == 0 {
      DistanceZero(b, g, i, j);
    }
    if PlacedFrom(b, g, i, j) {
      PlacedDistance(b, g, i, j);
    }
  }

  /** A placed tile is on the goal's cell for it. */
  lemma TilePlaced(b: Board, g: Board, x: int, y: int)
    requires IsGrid(b) && IsGrid(g) && InBoard(x, y) && Permutation(b) && Permutation(g)
    requires PlacedFrom(b, g, 0, 0) && b[x][y] != 0
    ensures g[x][y] == b[x][y]
  {
    CellInTiles(b, x, y);
    var x', y' := Locate(g, b[x][y]);
  }

  /** With every tile of one permutation board placed on another, the two
      agree everywhere, the blank included. */
  lemma PlacedCell(b: Board, g: Board, x: int, y: int)
    requires IsGrid(b) && IsGrid(g) && InBoard(x, y) && Permutation(b) && Permutation(g)
    requires PlacedFrom(b, g, 0, 0)
    ensures b[x][y] == g[x][y]
  {
    if g[x][y] != 0 {
      CellInTiles(g, x, y);
      var x', y' := Locate(b, g[x][y]);
      TilePlaced(b, g, x', y');
      Injective(g, x, y, x', y');
    } else if b[x][y] != 0 {
      TilePlaced(b, g, x, y);
    }
  }

  /** Two grids that agree on every cell are equal. */
  lemma SameCells(b: Board, g: Board)
    requires IsGrid(b) && IsGrid(g)
    requires forall x, y :: InBoard(x, y) ==> b[x][y] == g[x][y]
    ensures b == g
  {
    forall x | 0 <= x < Size ensures b[x] == g[x] {
      assert forall y :: 0 <= y < Size ==> b[x][y] == g[x][y];
    }
  }

  lemma SolvedBoards(b: Board, g: Board)
    requires IsGrid(b) && IsGrid(g) && Permutation(b) && Permutation(g)
    requires DistanceFrom(b, g, 0, 0) == 0
    ensures b == g
  {
    DistanceZero(b, g, 0, 0);
    forall x, y | InBoard(x, y) ensures b[x][y] == g[x][y] {
      PlacedCell(b, g, x, y);
    }
    SameCells(b, g);
  }

  /** For boards holding the tiles `0`..`8`, `is_goal` holds exactly when
      the board is the goal board. */
  lemma GoalIffSolved(c: Climber)
    requires Permutation(c.puzzle.board) && Permutation(c.goal.board)
    ensures IsGoal(c) <==> c.puzzle.board == c.goal.board
  {
    if c.puzzle.board == c.goal.board {
      DistanceSelf(c.goal.board, 0, 0);
    }
    if IsGoal(c) {
      SolvedBoards(c.puzzle.board, c.goal.board);
    }
  }

  // ---------------------------------------------------------------------
  // The engine's view and the random start
  // ---------------------------------------------------------------------

  /** The three calls the engines make on an eight-puzzle climber. */
  function PuzzleProblem(): Problem<Climber>
  {
    Problem(Neighbors, Score, IsGoal)
  }

  /** `EightPuzzleHillClimbing.generate_random_state`: a shuffled board
      scored against the fixed goal. */
  function RandomClimber(numbers: seq<int>): (c: Climber)
    requires |numbers| == Size * Size && multiset(numbers) == multiset(Tiles())
    ensures Cells(c.puzzle.board) == numbers && c.goal.board == GoalBoard
    ensures Permutation(c.puzzle.board) && Permutation(c.goal.board)
  {
    RandomPuzzleValid(numbers);
    GoalValid();
    PuzzleClimber(RandomPuzzle(numbers).value, PuzzleState(GoalBoard, Pos(0, 0)))
  }

  lemma GoalValid()
    ensures Valid(PuzzleState(GoalBoard, Pos(0, 0))) && Permutation(GoalBoard)
  {
    assert Cells(GoalBoard) == Tiles();
  }

  /** Every neighbour of a climber on a permutation board is on one too, so
      along any path the engines take from a random start, `is_goal` means
      the board is the goal board. */
  lemma NeighborsKeepPermutation(c: Climber, n: Climber)
    requires Permutation(c.puzzle.board) && n in Neighbors(c)
    ensures Permutation(n.puzzle.board) && n.goal == c.goal
  {
    NeighborsSpec(c);
  }

  /** A solved start is a local maximum: steepest ascent returns it at once,
      with a one-entry trace of 100. */
  lemma SolvedStartStays(c: Climber, steps: nat)
    requires Permutation(c.goal.board) && c.puzzle.board == c.goal.board
    ensures Score(c) == 100 && IsGoal(c)
    ensures SteepestClimb(PuzzleProblem(), c, steps) == [c]
    ensures SteepestOutcome(PuzzleProblem(), c) == Outcome(c, [100])
  {
    DistanceSelf(c.goal.board, 0, 0);
    assert LocalMaximum(PuzzleProblem(), c);
    SteepestClimbAtLocalMaximum(PuzzleProblem(), c, steps);
    SteepestClimbAtLocalMaximum(PuzzleProblem(), c, DefaultMaxSteps);
  }
}
