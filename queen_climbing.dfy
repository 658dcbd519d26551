/**
  `QueenHillClimbing` (hillclimbing.py): an N-queens state seen by the
  engines. A neighbour moves one row's queen to another column of that
  row; the score is 100 minus the number of attacking pairs of rows. An
  empty row holds column -1 and is scored like any other column.
 */
module QueenClimbing {
  import opened Search
  import opened Integers
  import opened EightQueen

  /** The value of a `QueenHillClimbing` object the engines pass around: its
      size and its columns, one per row. */
  datatype QueenBoard = QueenBoard(size: nat, cols: seq<int>)

  type Queens = q: QueenBoard | |q.cols| == q.size witness QueenBoard(0, [])

  /** The columns of the body of `get_neighbors` from row `row`, column
      `col` on: a copy with `row`'s queen moved to each other column. */
  function NeighborsFrom(q: Queens, row: nat, col: nat): (ns: seq<Queens>)
    requires row <= q.size && col <= q.size
    decreases q.size - row, q.size - col
  {
    if row == q.size then []
    else if col == q.size then NeighborsFrom(q, row + 1, 0)
    else if col != q.cols[row] then [QueenBoard(q.size, q.cols[row := col])] + NeighborsFrom(q, row, col + 1)
    else NeighborsFrom(q, row, col + 1)
  }

  /** `QueenHillClimbing.get_neighbors`: every neighbour has the same size,
      and no state is its own neighbour. */
  function Neighbors(q: Queens): (ns: seq<Queens>)
    ensures forall n :: n in ns ==> n.size == q.size && n.cols != q.cols
  {
    NeighborsFromSound(q, 0, 0);
    NeighborsFrom(q, 0, 0)
  }

  /** `QueenHillClimbing.get_neighbors`: the two nested loops. */
  method GetNeighbors(q: Queens) returns (neighbors: seq<Queens>)
    ensures neighbors == Neighbors(q)
  {
    neighbors := [];
    for row := 0 to q.size
      invariant neighbors + NeighborsFrom(q, row, 0) == Neighbors(q)
    {
      neighbors := RowNeighbors(q, row, neighbors);
    }
  }

  /** The inner loop of `get_neighbors` for one row: `neighbors` gains the
      moves of that row's queen, in column order. */
  method RowNeighbors(q: Queens, row: nat, before: seq<Queens>) returns (neighbors: seq<Queens>)
    requires row < q.size
    ensures neighbors + NeighborsFrom(q, row + 1, 0) == before + NeighborsFrom(q, row, 0)
  {
    neighbors := before;
    var currentCol := q.cols[row];
    for newCol := 0 to q.size
      invariant neighbors + NeighborsFrom(q, row, newCol) == before + NeighborsFrom(q, row, 0)
    {
      if newCol != currentCol {
        var newState := QueenBoard(q.size, q.cols[row := newCol]);
        assert NeighborsFrom(q, row, newCol) == [newState] + NeighborsFrom(q, row, newCol + 1);
        assert neighbors + ([newState] + NeighborsFrom(q, row, newCol + 1))
            == (neighbors + [newState]) + NeighborsFrom(q, row, newCol + 1);
        neighbors := neighbors + [newState];
      }
    }
    assert NeighborsFrom(q, row, q.size) == NeighborsFrom(q, row + 1, 0);
  }

  /** `n` is `q` with the queen of one row moved to another column on the board. */
  ghost predicate OneQueenMoved(q: Queens, n: Queens)
  {
    && n.size == q.size
    && exists row :: 0 <= row < q.size && 0 <= n.cols[row] < q.size && n.cols[row] != q.cols[row] && n.cols == q.cols[row := n.cols[row]]
  }

  /** Every neighbour moves one queen within its row; from `(row, col)` on. */
  lemma {:induction false} NeighborsFromSound(q: Queens, row: nat, col: nat)
    requires row <= q.size && col <= q.size
    decreases q.size - row, q.size - col
    ensures forall n :: n in NeighborsFrom(q, row, col) ==> OneQueenMoved(q, n)
  {
    if row < q.size {
      if col == q.size {
        NeighborsFromSound(q, row + 1, 0);
      } else {
        NeighborsFromSound(q, row, col + 1);
        if col != q.cols[row] {
          var n := QueenBoard(q.size, q.cols[row := col]);
          assert n.cols[row] == col;
          assert OneQueenMoved(q, n);
        }
      }
    }
  }

  /** Every such move from `(row, col)` on is a neighbour. */
  lemma {:induction false} NeighborsFromComplete(q: Queens, row: nat, col: nat, r: nat, c: nat)
    requires row <= q.size && col <= q.size
    requires r < q.size && c < q.size && c != q.cols[r] && (row < r || (row == r && col <= c))
    decreases q.size - row, q.size - col
    ensures QueenBoard(q.size, q.cols[r := c]) in NeighborsFrom(q, row, col)
  {
    if col == q.size {
      NeighborsFromComplete(q, row + 1, 0, r, c);
    } else if row == r && col == c {
    } else {
      NeighborsFromComplete(q, row, col + 1, r, c);
    }
  }

  /** The neighbours are exactly the states with one queen moved to another
      column of its row. */
  lemma NeighborsSpec(q: Queens, n: Queens)
    ensures n in Neighbors(q) <==> OneQueenMoved(q, n)
  {
    NeighborsFromSound(q, 0, 0);
    if OneQueenMoved(q, n) {
      var row :| 0 <= row < q.size && 0 <= n.cols[row] < q.size && n.cols[row] != q.cols[row] && n.cols == q.cols[row := n.cols[row]];
      NeighborsFromComplete(q, 0, 0, row, n.cols[row]);
    }
  }

  /** A moved queen changes exactly one entry. */
  lemma OneQueenMovedChangesOneRow(q: Queens, n: Queens, row: int, col: int)
    requires 0 <= row < q.size && 0 <= col < q.size && col != q.cols[row]
    requires n.size == q.size && n.cols == q.cols[row := col]
    ensures forall r :: 0 <= r < q.size ==> (n.cols[r] != q.cols[r] <==> r == row)
  {
  }

  /** Every queen stands on the board. */
  predicate OnBoard(q: Queens)
  {
    forall r :: 0 <= r < q.size ==> 0 <= q.cols[r] < q.size
  }

  /** The number of neighbours from `(row, col)` on, when every queen is on
      the board: the rest of this row, less its own column, and `size - 1`
      for each later row. */
  function RemainingMoves(q: Queens, row: nat, col: nat): (m: int)
    requires row <= q.size && col <= q.size && OnBoard(q)
    decreases q.size - row
  {
    if row == q.size then 0
    else (q.size - col) - (if col <= q.cols[row] then 1 else 0) + RemainingMoves(q, row + 1, 0)
  }

  lemma {:induction false} NeighborsFromCount(q: Queens, row: nat, col: nat)
    requires row <= q.size && col <= q.size && OnBoard(q)
    decreases q.size - row, q.size - col
    ensures |NeighborsFrom(q, row, col)| == RemainingMoves(q, row, col)
  {
    if row < q.size {
      if col == q.size {
        NeighborsFromCount(q, row + 1, 0);
      } else {
        NeighborsFromCount(q, row, col + 1);
        if col != q.cols[row] {
          assert |NeighborsFrom(q, row, col)| == 1 + |NeighborsFrom(q, row, col + 1)|;
        } else {
          assert NeighborsFrom(q, row, col) == NeighborsFrom(q, row, col + 1);
        }
      }
    }
  }

  lemma {:induction false} RemainingMovesFull(q: Queens, row: nat)
    requires row <= q.size && OnBoard(q)
    decreases q.size - row
    ensures RemainingMoves(q, row, 0) == (q.size - row) * (q.size - 1)
  {
    if row < q.size {
      RemainingMovesFull(q, row + 1);
      assert (q.size - row) * (q.size - 1) == (q.size - (row + 1)) * (q.size - 1) + (q.size - 1);
    }
  }

  /** With every queen on the board there are `size * (size - 1)` neighbours. */
  lemma NeighborsCount(q: Queens)
    requires OnBoard(q)
    ensures |Neighbors(q)| == q.size * (q.size - 1)
  {
    NeighborsFromCount(q, 0, 0);
    RemainingMovesFull(q, 0);
  }

  // ---------------------------------------------------------------------
  // evaluate and is_goal
  // ---------------------------------------------------------------------

  /** The attacking pairs `(i, j)`, `i < j`, from `(i, j)` on in the order
      `evaluate` visits them. */
  function ConflictsFrom(q: Queens, i: nat, j: nat): (c: nat)
    requires i <= q.size
    decreases q.size - i, q.size - j
  {
    if i == q.size then 0
    else if j >= q.size then ConflictsFrom(q, i + 1, i + 2)
    else (if Attacks(i, q.cols[i], j, q.cols[j]) then 1 else 0) + ConflictsFrom(q, i, j + 1)
  }

  function Conflicts(q: Queens): (c: nat)
  {
    ConflictsFrom(q, 0, 1)
  }

  /** `QueenHillClimbing.evaluate`: 100 less at most one point per pair of
      rows, so the score lies in `[100 - N(N-1)/2, 100]`. */
  function Score(q: Queens): (r: int)
    ensures r <= 100
    ensures 2 * (100 - r) <= q.size * (q.size - 1)
  {
    ConflictsAtMostPairs(q, 0, 1);
    PairsCount(q.size, 0);
    100 - Conflicts(q)
  }

  /** `QueenHillClimbing.is_goal`: no two rows share a column or a diagonal,
      an empty row counting as column -1. */
  predicate IsGoal(q: Queens): (r: bool)
    ensures r <==> forall a, b :: 0 <= a < b < q.size ==> !Attacks(a, q.cols[a], b, q.cols[b])
  {
    ConflictsZero(q, 0, 1);
    Score(q) == 100
  }

  /** `QueenHillClimbing.evaluate`: the loop over pairs `i < j`. */
  method Evaluate(q: Queens) returns (score: int)
    ensures score == Score(q)
  {
    var conflicts := 0;
    for i := 0 to q.size
      invariant conflicts + ConflictsFrom(q, i, i + 1) == Conflicts(q)
    {
      for j := i + 1 to q.size
        invariant conflicts + ConflictsFrom(q, i, j) == Conflicts(q)
      {
        var col1 := q.cols[i];
        var col2 := q.cols[j];
        if col1 == col2 || Abs(i - j) == Abs(col1 - col2) {
          conflicts := conflicts + 1;
        }
      }
    }
    return 100 - conflicts;
  }

  /** The number of pairs `(i, j)`, `i < j`, from `(i, j)` on. */
  function PairsFrom(n: nat, i: nat, j: nat): (c: nat)
    requires i <= n
    decreases n - i, n - j
  {
    if i == n then 0
    else if j >= n then PairsFrom(n, i + 1, i + 2)
    else 1 + PairsFrom(n, i, j + 1)
  }

  lemma {:induction false} ConflictsAtMostPairs(q: Queens, i: nat, j: nat)
    requires i <= q.size
    decreases q.size - i, q.size - j
    ensures ConflictsFrom(q, i, j) <= PairsFrom(q.size, i, j)
  {
    if i < q.size {
      if j >= q.size {
        ConflictsAtMostPairs(q, i + 1, i + 2);
      } else {
        ConflictsAtMostPairs(q, i, j + 1);
      }
    }
  }

  lemma {:induction false} PairsRow(n: nat, i: nat, j: nat)
    requires i < n && i < j <= n
    decreases n - j
    ensures PairsFrom(n, i, j) == (n - j) + PairsFrom(n, i + 1, i + 2)
  {
    if j < n {
      PairsRow(n, i, j + 1);
    }
  }

  lemma {:induction false} PairsCount(n: nat, i: nat)
    requires i <= n
    decreases n - i
    ensures 2 * PairsFrom(n, i, i + 1) == (n - i) * (n - i - 1)
  {
    if i < n {
      PairsRow(n, i, i + 1);
      PairsCount(n, i + 1);
      var m := n - i;
      assert m * (m - 1) == (m - 1) * (m - 2) + 2 * (m - 1);
    }
  }

  /** No pair `(i, j)` from `(i, j)` on attacks. */
  ghost predicate PeacefulFrom(q: Queens, i: nat, j: nat)
  {
    forall a, b :: 0 <= a < b < q.size && (i < a || (i == a && j <= b)) ==> !Attacks(a, q.cols[a], b, q.cols[b])
  }

  lemma {:induction false} ConflictsZero(q: Queens, i: nat, j: nat)
    requires i <= q.size && i < j
    decreases q.size - i, q.size - j
    ensures ConflictsFrom(q, i, j) == 0 <==> PeacefulFrom(q, i, j)
  {
    if i < q.size {
      if j >= q.size {
        ConflictsZero(q, i + 1, i + 2);
      } else {
        ConflictsZero(q, i, j + 1);
      }
    }
  }

  /** A goal is a board on which `is_valid_position` accepts every placed
      queen where it stands. */
  lemma GoalIffEverySafe(q: Queens)
    requires forall r :: 0 <= r < q.size ==> q.cols[r] != NoQueen
    ensures IsGoal(q) <==> forall r :: 0 <= r < q.size ==> SafeAt(q.cols, r, q.cols[r])
  {
    if forall r :: 0 <= r < q.size ==> SafeAt(q.cols, r, q.cols[r]) {
      forall a, b | 0 <= a < b < q.size ensures !Attacks(a, q.cols[a], b, q.cols[b]) {
        assert SafeAt(q.cols, a, q.cols[a]);
      }
    }
    if IsGoal(q) {
      forall r | 0 <= r < q.size ensures SafeAt(q.cols, r, q.cols[r]) {
        forall r' | 0 <= r' < q.size && r' != r && q.cols[r'] != NoQueen
          ensures !Attacks(r, q.cols[r], r', q.cols[r'])
        {
          if r < r' {
            assert !Attacks(r, q.cols[r], r', q.cols[r']);
          } else {
            assert !Attacks(r', q.cols[r'], r, q.cols[r]);
          }
        }
      }
    }
  }

  /** Four queens in one column attack in all six pairs. */
  lemma OneColumnScore()
    ensures Score(QueenBoard(4, [0, 0, 0, 0])) == 94
  {
  }

  /** Empty rows are scored as column -1: a board with no queen at all is
      not a goal, and an empty row beside a queen in column 0 shares its
      diagonal. */
  lemma EmptyRowsScored()
    ensures !IsGoal(QueenBoard(2, [NoQueen, NoQueen]))
    ensures Score(QueenBoard(2, [NoQueen, 0])) == 99
  {
  }

  /** `[1, 3, 0, 2]` solves four queens. */
  lemma FourQueensSolved()
    ensures Score(QueenBoard(4, [1, 3, 0, 2])) == 100 && IsGoal(QueenBoard(4, [1, 3, 0, 2]))
  {
  }

  // ---------------------------------------------------------------------
  // The engine's view and the random start
  // ---------------------------------------------------------------------

  /** The three calls the engines make on a queens state. */
  function QueenProblem(): Problem<Queens>
  {
    Problem(Neighbors, Score, IsGoal)
  }

  /** `QueenHillClimbing.generate_random_state`: a copy of the columns of
      a random default-size `QueenState`. */
  function RandomQueens(randint: nat -> int): (q: Queens)
    ensures q.size == DefaultSize
    ensures forall r :: 0 <= r < q.size ==> q.cols[r] == NoQueen || 0 <= q.cols[r] < q.size
  {
    QueenBoard(DefaultSize, RandomColumns(randint, DefaultSize))
  }

  /** With `randint` drawing on the board, the random start has every queen
      on the board, and so `size * (size - 1)` neighbours. */
  lemma RandomQueensOnBoard(randint: nat -> int)
    requires forall r :: 0 <= r < DefaultSize ==> 0 <= randint(r) <= DefaultSize - 1
    ensures OnBoard(RandomQueens(randint))
    ensures |Neighbors(RandomQueens(randint))| == DefaultSize * (DefaultSize - 1)
  {
    RandomColumnsPlaced(randint, DefaultSize);
    NeighborsCount(RandomQueens(randint));
  }
}
