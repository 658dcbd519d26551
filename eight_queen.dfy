/**
  `QueenState` (eightqueen.py): one queen column per row, `-1` for a row
  without a queen. The state is an object whose `queen_cols` list
  `place_queen` overwrites in place.
 */
module EightQueen {
  import opened Wrappers
  import opened Integers

  /** The size `QueenState()` defaults to. */
  const DefaultSize: nat := 8

  /** The column `-1` marks a row without a queen. */
  const NoQueen: int := -1

  /** Queens at `(r1, c1)` and `(r2, c2)` share a column or a diagonal. */
  predicate Attacks(r1: int, c1: int, r2: int, c2: int)
  {
    c1 == c2 || Abs(r1 - r2) == Abs(c1 - c2)
  }

  /** Where Python's `xs[k]` reads in a list of length `n`, for `-n <= k < n`. */
  function PyIndex(k: int, n: nat): (i: nat)
    requires 0 <= k + n && k < n
    ensures i < n
    ensures k >= 0 ==> i == k
  {
    if k < 0 then k + n else k
  }

  /** A row of `n` entries without a queen. */
  function Unplaced(n: nat): (cols: seq<int>)
    ensures |cols| == n && forall r :: 0 <= r < n ==> cols[r] == NoQueen
  {
    seq(n, _ => NoQueen)
  }

  /** `is_valid_position`: no other row holding a queen attacks `(row, col)`. */
  predicate SafeAt(cols: seq<int>, row: int, col: int)
  {
    forall r :: 0 <= r < |cols| && r != row && cols[r] != NoQueen ==> !Attacks(row, col, r, cols[r])
  }

  /** The board `get_board` draws: `'Q'` at the cell each placed queen's
      column indexes (Python's negative indexing included), `'.'` elsewhere. */
  function Rendered(cols: seq<int>, n: nat): (board: seq<seq<char>>)
    requires |cols| == n && forall r :: 0 <= r < n ==> 0 <= cols[r] + n && cols[r] < n
  {
    seq(n, i requires 0 <= i < n => seq(n, j => if cols[i] != NoQueen && PyIndex(cols[i], n) == j then 'Q' else '.'))
  }

  /** The columns `generate_random_state` places, given what `randint` drew
      for each row: a drawn column outside the board is refused by
      `place_queen`, which leaves that row without a queen. */
  function RandomColumns(randint: nat -> int, n: nat): (cols: seq<int>)
    ensures |cols| == n
  {
    seq(n, (r: nat) => if 0 <= randint(r) < n then randint(r) else NoQueen)
  }

  /** `random.randint(0, n - 1)` draws inside the board, so every row gets a queen. */
  lemma RandomColumnsPlaced(randint: nat -> int, n: nat)
    requires forall r :: 0 <= r < n ==> 0 <= randint(r) <= n - 1
    ensures forall r :: 0 <= r < n ==> RandomColumns(randint, n)[r] == randint(r)
    ensures forall r :: 0 <= r < n ==> 0 <= RandomColumns(randint, n)[r] < n
  {
  }

  /** Nothing is unsafe on an empty board. */
  lemma EmptyBoardSafe(n: nat, row: int, col: int)
    ensures SafeAt(Unplaced(n), row, col)
  {
  }

  class QueenState {
    var size: nat
    var queenCols: seq<int>

    /** One entry per row. */
    ghost predicate Valid()
      reads this
    {
      |queenCols| == size
    }

    /** `QueenState(size)`: every row without a queen. */
    constructor (size: nat)
      ensures Valid() && this.size == size && queenCols == Unplaced(size)
    {
      this.size := size;
      queenCols := Unplaced(size);
    }

    /** `get_queen_position`: the column of the row's queen, `None` for a
        row without one; a negative row counts from the end. */
    function QueenPosition(row: int): (r: Option<int>)
      reads this
      requires Valid() && 0 <= row + size && row < size
      ensures r.None? <==> queenCols[PyIndex(row, size)] == NoQueen
      ensures r.Some? ==> r.value == queenCols[PyIndex(row, size)]
    {
      var col := queenCols[PyIndex(row, size)];
      if col != NoQueen then Some(col) else None
    }

    /** `place_queen`: outside the board it refuses and changes nothing;
        inside, it sets that one row's column, which `get_queen_position`
        then reports. */
    method PlaceQueen(row: int, col: int) returns (placed: bool)
      requires Valid()
      modifies this
      ensures Valid() && size == old(size)
      ensures placed <==> 0 <= row < size && 0 <= col < size
      ensures queenCols == if placed then old(queenCols)[row := col] else old(queenCols)
      ensures placed ==> QueenPosition(row) == Some(col)
    {
      if !(0 <= row < size && 0 <= col < size) {
        return false;
      }
      queenCols := queenCols[row := col];
      return true;
    }

    /** `is_valid_position`: the early-exit scan over the other rows. */
    method IsValidPosition(row: int, col: int) returns (valid: bool)
      requires Valid()
      ensures valid <==> SafeAt(queenCols, row, col)
    {
      for other := 0 to size
        invariant forall r :: 0 <= r < other && r != row && queenCols[r] != NoQueen ==> !Attacks(row, col, r, queenCols[r])
      {
        var otherCol := queenCols[other];
        if otherCol == NoQueen || other == row {
          continue;
        }
        if Attacks(row, col, other, otherCol) {
          return false;
        }
      }
      return true;
    }

    /** `get_board`: a `size` by `size` grid of `'.'`, with `'Q'` written at
        each placed queen, so it shows a queen exactly where
        `get_queen_position` reports one. */
    method GetBoard() returns (board: seq<seq<char>>)
      requires Valid() && forall r :: 0 <= r < size ==> 0 <= queenCols[r] + size && queenCols[r] < size
      ensures board == Rendered(queenCols, size)
      ensures |board| == size && forall i :: 0 <= i < size ==> |board[i]| == size
      ensures forall i, j :: 0 <= i < size && 0 <= j < size ==>
                (board[i][j] == 'Q' <==> QueenPosition(i).Some? && PyIndex(QueenPosition(i).value, size) == j)
    {
      var n := size;
      board := seq(n, _ => seq(n, _ => '.'));
      for row := 0 to n
        invariant |board| == n && forall i :: 0 <= i < n ==> |board[i]| == n
        invariant forall i, j :: 0 <= i < n && 0 <= j < n ==>
                    board[i][j] == if i < row then Rendered(queenCols, n)[i][j] else '.'
      {
        var col := queenCols[row];
        if col != NoQueen {
          board := board[row := board[row][PyIndex(col, n) := 'Q']];
        }
      }
      assert forall i :: 0 <= i < n ==> board[i] == Rendered(queenCols, n)[i];
    }

    /** `__eq__`: two states are equal when their columns are, whatever
        their sizes. */
    function Equals(other: QueenState): (r: bool)
      reads this, other
      ensures r <==> |queenCols| == |other.queenCols| && forall i :: 0 <= i < |queenCols| ==> queenCols[i] == other.queenCols[i]
    {
      queenCols == other.queenCols
    }

    /** `generate_random_state`: a default-size state whose rows get the
        columns `randint` draws, each through `place_queen`. */
    static method GenerateRandomState(randint: nat -> int) returns (s: QueenState)
      ensures fresh(s) && s.Valid() && s.size == DefaultSize
      ensures s.queenCols == RandomColumns(randint, DefaultSize)
    {
      s := new QueenState(DefaultSize);
      for row := 0 to s.size
        invariant s.Valid() && s.size == DefaultSize
        invariant s.queenCols == RandomColumns(randint, DefaultSize)[..row] + Unplaced(DefaultSize - row)
      {
        var col := randint(row);
        var _ := s.PlaceQueen(row, col);
        assert s.queenCols == RandomColumns(randint, DefaultSize)[..row + 1] + Unplaced(DefaultSize - (row + 1));
      }
      assert RandomColumns(randint, DefaultSize)[..DefaultSize] == RandomColumns(randint, DefaultSize);
    }
  }
}
