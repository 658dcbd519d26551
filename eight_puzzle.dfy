/**
  `EightPuzzleState` (eightpuzzle.py): a 3x3 board of tiles with one blank
  cell (0), the moves that slide the blank, and the random start position.
  A state is never changed after construction, so it is a value here; a
  move builds a new board (the deep copy) and constructs a new state from it.
 */
module EightPuzzle {
  import opened Wrappers

  /** `self.size`. */
  const Size: int := 3

  type Board = seq<seq<int>>

  predicate IsGrid(b: Board)
  {
    |b| == Size && forall i :: 0 <= i < Size ==> |b[i]| == Size
  }

  datatype Pos = Pos(row: int, col: int)

  predicate InBoard(x: int, y: int)
  {
    0 <= x < Size && 0 <= y < Size
  }

  /** Cell `(i, j)` comes strictly before cell `(x, y)` in row-major order. */
  predicate Before(i: int, j: int, x: int, y: int)
  {
    i < x || (i == x && j < y)
  }

  /** The first blank at or after cell `(i, j)` in row-major order. */
  function ScanBlank(b: Board, i: nat, j: nat): (r: Option<Pos>)
    requires IsGrid(b) && i <= Size && j <= Size
    decreases Size - i, Size - j
    ensures r.Some? ==> InBoard(r.value.row, r.value.col) && b[r.value.row][r.value.col] == 0
  {
    if i == Size then None
    else if j == Size then ScanBlank(b, i + 1, 0)
    else if b[i][j] == 0 then Some(Pos(i, j))
    else ScanBlank(b, i, j + 1)
  }

  /** `ScanBlank` finds the first blank from `(i, j)` on, and none exactly
      when there is no blank from `(i, j)` on. */
  lemma {:induction false} ScanBlankSpec(b: Board, i: nat, j: nat)
    requires IsGrid(b) && i <= Size && j <= Size
    decreases Size - i, Size - j
    ensures var r := ScanBlank(b, i, j);
      && (r.Some? ==> !Before(r.value.row, r.value.col, i, j)
                      && forall x, y :: InBoard(x, y) && !Before(x, y, i, j) && Before(x, y, r.value.row, r.value.col) ==> b[x][y] != 0)
      && (r.None? <==> forall x, y :: InBoard(x, y) && !Before(x, y, i, j) ==> b[x][y] != 0)
  {
    if i < Size {
      if j == Size {
        ScanBlankSpec(b, i + 1, 0);
      } else if b[i][j] != 0 {
        ScanBlankSpec(b, i, j + 1);
      }
    }
  }

  /** The first blank of the board in row-major order, or `None` where
      `_find_blank` raises. */
  function FirstBlank(b: Board): (r: Option<Pos>)
    requires IsGrid(b)
    ensures r.Some? ==> InBoard(r.value.row, r.value.col) && b[r.value.row][r.value.col] == 0
  {
    ScanBlank(b, 0, 0)
  }

  /** `_find_blank` returns the first blank cell in row-major order, and
      fails exactly when the board has no blank. */
  lemma FirstBlankSpec(b: Board)
    requires IsGrid(b)
    ensures var r := FirstBlank(b);
      && (r.Some? ==> forall x, y :: InBoard(x, y) && Before(x, y, r.value.row, r.value.col) ==> b[x][y] != 0)
      && (r.None? <==> forall x, y :: InBoard(x, y) ==> b[x][y] != 0)
  {
    ScanBlankSpec(b, 0, 0);
  }

  /** `EightPuzzleState._find_blank`: the nested search loop. */
  method FindBlank(b: Board) returns (r: Option<Pos>)
    requires IsGrid(b)
    ensures r == FirstBlank(b)
  {
    for i := 0 to Size
      invariant ScanBlank(b, i, 0) == FirstBlank(b)
    {
      for j := 0 to Size
        invariant ScanBlank(b, i, j) == FirstBlank(b)
      {
        if b[i][j] == 0 {
          return Some(Pos(i, j));
        }
      }
    }
    return None;
  }

  /** A constructed state: its blank is the board's first blank. */
  datatype PuzzleState = PuzzleState(board: Board, blank: Pos)

  predicate Valid(s: PuzzleState)
  {
    IsGrid(s.board) && FirstBlank(s.board) == Some(s.blank)
  }

  /** `EightPuzzleState(board)`, `None` where the constructor raises. */
  function Make(b: Board): (r: Option<PuzzleState>)
    requires IsGrid(b)
    ensures r.Some? <==> FirstBlank(b).Some?
    ensures r.Some? ==> r.value.board == b && Valid(r.value)
  {
    match FirstBlank(b)
    case None => None
    case Some(pos) => Some(PuzzleState(b, pos))
  }

  /** `EightPuzzleState.__init__`: store the board and look the blank up. */
  method Init(b: Board) returns (r: Option<PuzzleState>)
    requires IsGrid(b)
    ensures r == Make(b)
  {
    var blank := FindBlank(b);
    if blank.None? {
      return None;
    }
    return Some(PuzzleState(b, blank.value));
  }

  // ---------------------------------------------------------------------
  // Moves
  // ---------------------------------------------------------------------

  const Up: string := "上"
  const Down: string := "下"
  const Left: string := "左"
  const Right: string := "右"

  /** The `moves` table of `move`: the blank's offset for each direction. */
  function Offset(d: string): (r: Option<(int, int)>)
    ensures r.Some? <==> d in {Up, Down, Left, Right}
  {
    if d == Up then Some((-1, 0))
    else if d == Down then Some((1, 0))
    else if d == Left then Some((0, -1))
    else if d == Right then Some((0, 1))
    else None
  }

  /** The cell the blank would move to in direction `d`. */
  function Target(blank: Pos, d: string): (t: Pos)
    requires Offset(d).Some?
  {
    Pos(blank.row + Offset(d).value.0, blank.col + Offset(d).value.1)
  }

  /** The directions `get_possible_moves` lists, in its order. */
  function PossibleMoves(blank: Pos): (ms: seq<string>)
  {
    (if blank.row > 0 then [Up] else [])
    + (if blank.row < 2 then [Down] else [])
    + (if blank.col > 0 then [Left] else [])
    + (if blank.col < 2 then [Right] else [])
  }

  /** `EightPuzzleState.get_possible_moves`: append each direction whose
      guard holds. */
  method GetPossibleMoves(s: PuzzleState) returns (moves: seq<string>)
    ensures moves == PossibleMoves(s.blank)
  {
    moves := [];
    var x, y := s.blank.row, s.blank.col;
    if x > 0 { moves := moves + [Up]; }
    if x < 2 { moves := moves + [Down]; }
    if y > 0 { moves := moves + [Left]; }
    if y < 2 { moves := moves + [Right]; }
  }

  /** The copied board with the blank's cell given the target's tile and the
      target cell cleared: the two assignments of `move`. */
  function Slide(b: Board, blank: Pos, t: Pos): (r: Board)
    requires IsGrid(b) && InBoard(blank.row, blank.col) && InBoard(t.row, t.col)
    ensures IsGrid(r)
  {
    var nb := b[blank.row := b[blank.row][blank.col := b[t.row][t.col]]];
    nb[t.row := nb[t.row][t.col := 0]]
  }

  /** `EightPuzzleState.move`. */
  function Move(s: PuzzleState, d: string): (r: Option<PuzzleState>)
    requires Valid(s)
    ensures r.Some? ==> Valid(r.value)
  {
    if Offset(d).None? then None
    else
      var t := Target(s.blank, d);
      if InBoard(t.row, t.col) then Make(Slide(s.board, s.blank, t)) else None
  }

  /** Every cell of `Slide`'s board: the target is blank, the old blank cell
      holds the target's tile, and every other cell is unchanged. */
  lemma SlideCells(b: Board, blank: Pos, t: Pos)
    requires IsGrid(b) && InBoard(blank.row, blank.col) && InBoard(t.row, t.col) && blank != t
    ensures var r := Slide(b, blank, t);
      && r[t.row][t.col] == 0
      && r[blank.row][blank.col] == b[t.row][t.col]
      && forall x, y :: InBoard(x, y) && Pos(x, y) != blank && Pos(x, y) != t ==> r[x][y] == b[x][y]
  {
  }

  /** The blank is the only empty cell. */
  ghost predicate UniqueBlank(s: PuzzleState)
    requires IsGrid(s.board)
  {
    forall x, y :: InBoard(x, y) && s.board[x][y] == 0 ==> Pos(x, y) == s.blank
  }

  /** `move` fails exactly for an unknown direction or a target off the
      board. A move that succeeds slides the tile at the target into the
      blank, clears the target, and leaves every other cell as it was; when
      the blank is the only empty cell, the new blank is the target and it is
      again the only empty cell. */
  lemma MoveSpec(s: PuzzleState, d: string)
    requires Valid(s)
    ensures Move(s, d).Some? <==> Offset(d).Some? && InBoard(Target(s.blank, d).row, Target(s.blank, d).col)
    ensures Move(s, d).Some? ==>
      var t := Target(s.blank, d);
      var r := Move(s, d).value;
      && r.board == Slide(s.board, s.blank, t)
      && r.board[t.row][t.col] == 0
      && r.board[s.blank.row][s.blank.col] == s.board[t.row][t.col]
      && (forall x, y :: InBoard(x, y) && Pos(x, y) != s.blank && Pos(x, y) != t ==> r.board[x][y] == s.board[x][y])
      && (UniqueBlank(s) ==> r.blank == t && UniqueBlank(r))
  {
    FirstBlankSpec(s.board);
    if Offset(d).Some? {
      var t := Target(s.blank, d);
      if InBoard(t.row, t.col) {
        var nb := Slide(s.board, s.blank, t);
        SlideCells(s.board, s.blank, t);
        assert nb[t.row][t.col] == 0;
        FirstBlankSpec(nb);
        if UniqueBlank(s) {
          var r := Move(s, d).value;
          assert s.board[t.row][t.col] != 0;
          forall x, y | InBoard(x, y) && nb[x][y] == 0 ensures Pos(x, y) == t {
          }
        }
      }
    }
  }

  /** The directions `get_possible_moves` lists are exactly those for which
      `move` succeeds. */
  lemma PossibleMovesSpec(s: PuzzleState, d: string)
    requires Valid(s)
    ensures d in PossibleMoves(s.blank) <==> Move(s, d).Some?
  {
    MoveSpec(s, d);
  }

  /** Two moves at a corner, three on an edge, four at the centre, none
      listed twice. */
  lemma PossibleMovesCount(blank: Pos)
    requires InBoard(blank.row, blank.col)
    ensures var ms := PossibleMoves(blank);
      && |ms| == 4 - (if blank.row != 1 then 1 else 0) - (if blank.col != 1 then 1 else 0)
      && (blank.row != 1 && blank.col != 1 ==> |ms| == 2)
      && (blank == Pos(1, 1) ==> |ms| == 4)
      && ((blank.row == 1) != (blank.col == 1) ==> |ms| == 3)
      && forall a, c :: 0 <= a < c < |ms| ==> ms[a] != ms[c]
  {
  }

  /** The direction that undoes a move. */
  function Opposite(d: string): (e: string)
  {
    if d == Up then Down
    else if d == Down then Up
    else if d == Left then Right
    else if d == Right then Left
    else d
  }

  /** Moving the blank and then moving it back restores the state, when the
      blank is the only empty cell. */
  lemma MoveBack(s: PuzzleState, d: string)
    requires Valid(s) && UniqueBlank(s)
    requires Move(s, d).Some?
    ensures Move(Move(s, d).value, Opposite(d)) == Some(s)
  {
    MoveSpec(s, d);
    var t := Target(s.blank, d);
    var r := Move(s, d).value;
    assert Offset(Opposite(d)).Some? && Target(t, Opposite(d)) == s.blank;
    MoveSpec(r, Opposite(d));
    var back := Move(r, Opposite(d)).value;
    forall x | 0 <= x < Size ensures back.board[x] == s.board[x] {
      forall y | 0 <= y < Size ensures back.board[x][y] == s.board[x][y] {
      }
    }
    assert back.board == s.board;
  }

  // ---------------------------------------------------------------------
  // Tiles as a multiset
  // ---------------------------------------------------------------------

  /** The cells in row-major order. */
  function Cells(b: Board): (c: seq<int>)
    requires IsGrid(b)
    ensures |c| == Size * Size
  {
    b[0] + b[1] + b[2]
  }

  /** The row of the `k`-th cell in row-major order. */
  function RowOf(k: int): (x: int)
    ensures 0 <= k < Size * Size ==> InBoard(x, k - Size * x)
  {
    if k < Size then 0 else if k < 2 * Size then 1 else 2
  }

  lemma CellsAt(b: Board)
    requires IsGrid(b)
    ensures forall x, y :: InBoard(x, y) ==> Cells(b)[Size * x + y] == b[x][y]
  {
  }

  /** A move only exchanges two cells: the tiles on the board are the same. */
  lemma MoveKeepsTiles(s: PuzzleState, d: string)
    requires Valid(s) && Move(s, d).Some?
    ensures multiset(Cells(Move(s, d).value.board)) == multiset(Cells(s.board))
  {
    var t := Target(s.blank, d);
    assert Move(s, d).value.board == Slide(s.board, s.blank, t);
    SlideKeepsTiles(s.board, s.blank, t);
  }

  /** Sliding a tile into the blank exchanges two cells. */
  lemma SlideKeepsTiles(b: Board, a: Pos, t: Pos)
    requires IsGrid(b) && InBoard(a.row, a.col) && InBoard(t.row, t.col) && b[a.row][a.col] == 0
    ensures multiset(Cells(Slide(b, a, t))) == multiset(Cells(b))
  {
    var u, v := Size * a.row + a.col, Size * t.row + t.col;
    var nb := b[a.row := b[a.row][a.col := b[t.row][t.col]]];
    CellsUpdate(b, a.row, a.col, b[t.row][t.col]);
    CellsUpdate(nb, t.row, t.col, 0);
    CellAt(b, a.row, a.col);
    CellAt(b, t.row, t.col);
    assert Cells(Slide(b, a, t)) == Cells(nb)[v := 0];
    assert Cells(nb) == Cells(b)[u := Cells(b)[v]];
    SwapKeepsMultiset(Cells(b), u, v);
  }

  lemma CellAt(b: Board, x: int, y: int)
    requires IsGrid(b) && InBoard(x, y)
    ensures Cells(b)[Size * x + y] == b[x][y]
  {
  }

  /** Writing one cell writes one position of the row-major cells. */
  lemma CellsUpdate(b: Board, x: int, y: int, value: int)
    requires IsGrid(b) && InBoard(x, y)
    ensures IsGrid(b[x := b[x][y := value]])
    ensures Cells(b[x := b[x][y := value]]) == Cells(b)[Size * x + y := value]
  {
    var r := b[x := b[x][y := value]];
    if x == 0 {
      assert r[0] + r[1] + r[2] == (b[0] + b[1] + b[2])[y := value];
    } else if x == 1 {
      assert r[0] + r[1] + r[2] == (b[0] + b[1] + b[2])[Size + y := value];
    } else {
      assert r[0] + r[1] + r[2] == (b[0] + b[1] + b[2])[2 * Size + y := value];
    }
  }

  lemma SwapKeepsMultiset(c: seq<int>, u: nat, v: nat)
    requires u < |c| && v < |c|
    ensures multiset(c[u := c[v]][v := c[u]]) == multiset(c)
  {
    var m := multiset(c);
    assert multiset(c[u := c[v]]) == m - multiset{c[u]} + multiset{c[v]};
    if u != v {
      assert c[u := c[v]][v] == c[v];
    }
  }

  // ---------------------------------------------------------------------
  // Random start
  // ---------------------------------------------------------------------

  /** The rows `numbers[0:3]`, `numbers[3:6]`, `numbers[6:9]`. */
  function BoardOf(numbers: seq<int>): (b: Board)
    requires |numbers| == Size * Size
    ensures IsGrid(b) && Cells(b) == numbers
  {
    [numbers[0..3], numbers[3..6], numbers[6..9]]
  }

  /** The numbers `0..8` in order, `list(range(9))`. */
  function Tiles(): (ts: seq<int>)
    ensures |ts| == Size * Size && forall k :: 0 <= k < |ts| ==> ts[k] == k
  {
    [0, 1, 2, 3, 4, 5, 6, 7, 8]
  }

  /** `EightPuzzleState.generate_random_puzzle`, where `numbers` is the
      order `random.shuffle` leaves `list(range(9))` in. */
  function RandomPuzzle(numbers: seq<int>): (r: Option<PuzzleState>)
    requires |numbers| == Size * Size
    ensures r.Some? ==> Valid(r.value) && Cells(r.value.board) == numbers
  {
    Make(BoardOf(numbers))
  }

  /** A shuffled start always constructs, holds every tile once, and its
      blank is its only empty cell. */
  lemma RandomPuzzleValid(numbers: seq<int>)
    requires |numbers| == Size * Size && multiset(numbers) == multiset(Tiles())
    ensures var r := RandomPuzzle(numbers);
      && r.Some? && Cells(r.value.board) == numbers && UniqueBlank(r.value)
  {
    assert Tiles()[0] == 0;
    BoardOfHasBlank(numbers);
    DistinctCount(Tiles(), 0, 0);
    OneZeroCell(BoardOf(numbers), RandomPuzzle(numbers).value.blank);
  }

  /** When the tiles hold one `0`, the blank is the only empty cell. */
  lemma OneZeroCell(b: Board, p: Pos)
    requires IsGrid(b) && InBoard(p.row, p.col) && b[p.row][p.col] == 0
    requires multiset(Cells(b))[0] == 1
    ensures forall x, y :: InBoard(x, y) && b[x][y] == 0 ==> Pos(x, y) == p
  {
    forall x, y | InBoard(x, y) && b[x][y] == 0 ensures Pos(x, y) == p {
      if Pos(x, y) != p {
        TwoCells(b, x, y, p.row, p.col);
      }
    }
  }

  /** A value at two cells counts twice among the tiles. */
  lemma TwoCells(g: Board, x: int, y: int, x': int, y': int)
    requires IsGrid(g) && InBoard(x, y) && InBoard(x', y') && Pos(x, y) != Pos(x', y') && g[x][y] == g[x'][y']
    ensures multiset(Cells(g))[g[x][y]] >= 2
  {
    CellsAt(g);
    var a, c := Size * x + y, Size * x' + y';
    assert a != c by {
      if x < x' {
      } else if x' < x {
      }
    }
    TwiceCount(Cells(g), a, c);
  }

  /** A board made of numbers that include `0` constructs. */
  lemma BoardOfHasBlank(numbers: seq<int>)
    requires |numbers| == Size * Size && 0 in numbers
    ensures FirstBlank(BoardOf(numbers)).Some?
  {
    var b := BoardOf(numbers);
    CellsAt(b);
    var k :| 0 <= k < |numbers| && numbers[k] == 0;
    assert b[RowOf(k)][k - Size * RowOf(k)] == 0;
    FirstBlankSpec(b);
  }

  /** A value at two different positions occurs at least twice. */
  lemma TwiceCount(xs: seq<int>, a: nat, c: nat)
    requires a < |xs| && c < |xs| && a != c && xs[a] == xs[c]
    ensures multiset(xs)[xs[a]] >= 2
  {
    var lo, hi := if a < c then a else c, if a < c then c else a;
    assert xs == xs[..lo] + [xs[lo]] + xs[lo + 1..hi] + [xs[hi]] + xs[hi + 1..];
  }

  /** In a sequence whose `k`-th element is `k`, the value `v` occurs once. */
  lemma {:induction false} DistinctCount(xs: seq<int>, v: int, from: nat)
    requires from <= |xs| && forall k :: 0 <= k < |xs| ==> xs[k] == k
    requires 0 <= v < |xs|
    decreases |xs| - from
    ensures multiset(xs[from..])[v] == if v >= from then 1 else 0
  {
    if from < |xs| {
      DistinctCount(xs, v, from + 1);
      assert xs[from..] == [xs[from]] + xs[from + 1..];
    }
  }
}
