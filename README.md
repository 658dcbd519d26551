# tpsearch in Dafny

A model of the core of tpsearch, a small Python library of local-search
algorithms and the two benchmark problems it runs them on.

- **The engines.** `HillClimbing` offers steepest ascent, first choice and
  random restart. `SimulatedAnnealing` offers annealing and random-restart
  annealing. An engine sees a problem only through `get_neighbors`, `evaluate`
  and `is_goal`, and returns `(state, score_trace)`.
- **The fixtures.** The eight puzzle is modelled as `EightPuzzleState` plus
  `EightPuzzleHillClimbing`. N queens is modelled as `QueenState` plus
  `QueenHillClimbing`.

Modules, in dependency order:

- `Wrappers`: `Option`.
- `Integers` (integers.dfy): `Abs`, shared by both fixtures.
- `Search` (search.dfy): the problem interface (`Problem`: the three calls)
  and `Outcome`, the `(state, score_trace)` pair. It also holds the shared
  vocabulary: score traces, the first maximal index (what Python's `max`
  picks among ties), and paths of neighbour steps.
- `Restart` (restart.dfy): the restart loop both engines share. It is
  parameterised by the inner search `run` and the fresh-state generator
  `generate`.
- `HillClimbing` (hill_climbing.dfy): `steepest_ascent`, `first_choice` and
  `random_restart`.
- `SimulatedAnnealing` (simulated_annealing.dfy): `anneal` and
  `random_restart_anneal`.
- `EightPuzzle` (eight_puzzle.dfy): `EightPuzzleState`.
- `PuzzleClimbing` (puzzle_climbing.dfy): `EightPuzzleHillClimbing`.
- `EightQueen` (eight_queen.dfy): `QueenState`, a class with a mutable
  `queenCols` field.
- `QueenClimbing` (queen_climbing.dfy): `QueenHillClimbing`.

Each loop of the source is a Dafny `method` with that loop. The method is
proved equal to a reference function: the visited states for the climbs,
the accumulated outcome for annealing and restarts, the first blank, and
the distance and conflict sums. Lemmas then state what the source promises
about those functions. Randomness is an explicit input:

- `random.shuffle` becomes a reordering oracle.
- `random.choice` becomes an index oracle.
- `random.random() < exp(delta / temp)` becomes an acceptance oracle.
- `random.randint` becomes a column oracle.
- The `isinstance` dispatch to `generate_random_state` becomes the
  generator `generate`.

## Model

| member | source | states |
|---|---|---|
| Search.ArgMaxSpec | hillclimbing.py:43-44 | the index `max(..., key=...)` picks holds a maximal score, and every earlier entry scores strictly less |
| HillClimbing.SteepestAscent | hillclimbing.py:32-57 | the loop returns the last state and the scores of exactly the states `SteepestClimb` visits |
| HillClimbing.SteepestClimb | hillclimbing.py:34-51 | the visited states start with the initial state; there are at least 1 and at most `max_steps + 1` of them |
| HillClimbing.SteepestClimbSteps | hillclimbing.py:43-51 | every move goes to the first best-scoring neighbour and scores strictly more than the state it leaves |
| HillClimbing.SteepestClimbAscends | hillclimbing.py:44-51 | the states form a path of neighbour steps, and the score trace is strictly increasing |
| HillClimbing.SteepestClimbStops | hillclimbing.py:37-55 | the climb ends for one of three reasons: the budget is spent, the last move reached a goal, or no neighbour improves (a dead end included); no state strictly between the first and the last is a goal (the initial state is never tested) |
| HillClimbing.SteepestClimbAtLocalMaximum | hillclimbing.py:38-48 | a state that no neighbour beats is returned at once, with a one-entry trace |
| HillClimbing.FirstAtLeastSpec | hillclimbing.py:75-81 | the scan finds nothing exactly when every neighbour scores below the current score; otherwise it finds the first one that does not |
| HillClimbing.ScanFirstAtLeast | hillclimbing.py:75-81 | the inner scan loop returns the index `FirstAtLeast` specifies |
| HillClimbing.FirstChoice | hillclimbing.py:60-89 | the loop returns the last state and the scores of exactly the states `FirstChoiceClimb` visits, for the given shuffles |
| HillClimbing.FirstChoiceClimb | hillclimbing.py:62-87 | the visited states start with the initial state; there are at least 1 and at most `max_steps + 1` of them |
| HillClimbing.FirstChoiceClimbSteps | hillclimbing.py:71-81 | for shuffles that reorder the neighbours, each accepted state is a neighbour of the previous state and scores at least as much |
| HillClimbing.FirstChoiceClimbAscends | hillclimbing.py:75-81 | the states form a path of neighbour steps, and the trace never decreases |
| HillClimbing.FirstChoiceClimbStops | hillclimbing.py:65-87 | the climb ends for one of three reasons: the budget is spent, the last move reached a goal, or every neighbour scores strictly less (a dead end included); no state strictly between the first and the last is a goal (the initial state is never tested) |
| HillClimbing.RandomRestart | hillclimbing.py:92-120 | the loop returns what the restart function `Result` gives when every attempt is a default-budget steepest ascent |
| HillClimbing.RandomRestartOutcome | hillclimbing.py:94-112 | the trace is the initial score followed by each attempt's trace; the result is the first best of the initial state and the attempts' final states, scoring at least the initial state and every attempt; there are at most `max_restarts` attempts, the first from the initial state and each later one from a generated state; no attempt but the last ends at a goal |
| HillClimbing.SteepestOutcomeTrace | hillclimbing.py:100-101 | each attempt's trace starts with its start's score and ends with its final state's score |
| Restart.Better | hillclimbing.py:104-106 | the kept best is one of the two; it is the new candidate exactly when the candidate scores strictly more than the best so far, and it scores at least both |
| Restart.KeepBestIsFirstMax | hillclimbing.py:104-106 | updating the best with `>` one candidate at a time keeps the first candidate of maximal score |
| Restart.ResultBest | hillclimbing.py:98-112 | the restart loop's state is the best kept from the initial state and the attempts' final states |
| Restart.ResultTrace | hillclimbing.py:98-112 | the restart loop's trace is the trace so far followed by every attempt's trace |
| Restart.BestDominates | simannealing.py:100-102 | the first candidate of maximal score scores at least the initial state and every attempt |
| Restart.AttemptsShape | simannealing.py:93-111 | at most `num_restarts` attempts, run from the start state and then from each generated state; only the last may end at a goal, and fewer attempts than allowed means the last one did |
| SimulatedAnnealing.Pick | simannealing.py:46 | the chosen state is one of the neighbours |
| SimulatedAnnealing.Accepts | simannealing.py:53-57 | a neighbour scoring at least the current score is always accepted; a worse one exactly when the accept oracle says so |
| SimulatedAnnealing.AnnealWalk | simannealing.py:40-66 | a walk marked as stopped at a goal ends at a goal state |
| SimulatedAnnealing.Anneal | simannealing.py:13-71 | the nested loops return exactly `AnnealOutcome`, the outcome function of the walk |
| SimulatedAnnealing.AnnealFromWalk | simannealing.py:40-71 | the loop's outcome relates to the accepted states. At a goal it is the last state; otherwise it is the first best. The trace is the trace so far followed by the accepted states' scores |
| SimulatedAnnealing.AnnealOutcomeWalk | simannealing.py:32-71 | the same relation, from the initial state |
| SimulatedAnnealing.AnnealWalkStep | simannealing.py:46-66 | one inner iteration does one of three things. An accepted neighbour is appended, and the walk stops there if it is a goal. A rejection changes nothing, and the walk stops if the current state is a goal |
| SimulatedAnnealing.AnnealTakesImprovement | simannealing.py:50-57 | a drawn neighbour scoring at least the current score is always accepted |
| SimulatedAnnealing.AnnealRoundEnds | simannealing.py:41-45 | an exhausted round, or a dead end, moves on to the next cooling round without ending the walk |
| SimulatedAnnealing.AnnealWalkPath | simannealing.py:43-57 | the current state followed by the accepted states is a path of neighbour steps |
| SimulatedAnnealing.AnnealWalkLength | simannealing.py:40-41 | at most one state is accepted per inner iteration |
| SimulatedAnnealing.AnnealWalkGoal | simannealing.py:64-66 | the walk stops at the first goal it holds |
| SimulatedAnnealing.AnnealResult | simannealing.py:32-71 | the trace starts with the initial score and has one entry per accepted state, at most `rounds * steps + 1` in all; the states form a path; at a goal the goal is returned, and otherwise the first state of maximal score, which dominates the trace; no state strictly between the first and the last is a goal, and when the walk did not stop at a goal no accepted state is one (the initial state is never tested) |
| SimulatedAnnealing.RandomRestartAnneal | simannealing.py:74-113 | the loop returns what `Result` gives when every attempt is an annealing run, starting from an empty trace |
| SimulatedAnnealing.RandomRestartAnnealOutcome | simannealing.py:89-105 | the trace is the plain concatenation of the runs' traces; the result scores at least the initial state and every run; there are at most `num_restarts` runs, the first from the initial state and each later one from a generated state; no run but the last ends at a goal |
| EightPuzzle.ScanBlankSpec | eightpuzzle.py:16-22 | the scan from a cell finds the first blank at or after it in row-major order; it finds none exactly when no later cell is blank |
| EightPuzzle.FirstBlankSpec | eightpuzzle.py:16-22 | `_find_blank` gives the first blank in row-major order; it fails exactly when the board has no blank |
| EightPuzzle.FindBlank | eightpuzzle.py:16-22 | the nested search loop returns `FirstBlank` |
| EightPuzzle.Make | eightpuzzle.py:8-14 | construction succeeds exactly when the board has a blank, and the state then keeps the board and its first blank |
| EightPuzzle.Init | eightpuzzle.py:8-14 | the constructor's code computes `Make` |
| EightPuzzle.Offset | eightpuzzle.py:41-49 | a direction has an offset exactly when it is one of the four names |
| EightPuzzle.GetPossibleMoves | eightpuzzle.py:24-34 | the appended directions are `PossibleMoves`, in the source's order |
| EightPuzzle.Move | eightpuzzle.py:36-59 | a successful move yields a valid state: a 3x3 board whose recorded blank is its first blank in row-major order |
| EightPuzzle.MoveSpec | eightpuzzle.py:36-59 | `move` gives `None` exactly for an unknown direction or a target off the board. On success, the target's tile moves into the blank, the target is cleared and no other cell changes. When the blank is the board's only empty cell, the new blank is the target and again the only one |
| EightPuzzle.PossibleMovesSpec | eightpuzzle.py:24-59 | a direction is listed exactly when `move` in that direction succeeds |
| EightPuzzle.PossibleMovesCount | eightpuzzle.py:24-34 | two moves at a corner, three on an edge, four at the centre, with none listed twice |
| EightPuzzle.MoveBack | eightpuzzle.py:41-58 | a move followed by the opposite move restores the original state |
| EightPuzzle.MoveKeepsTiles | eightpuzzle.py:55-58 | a move keeps the board's multiset of tiles |
| EightPuzzle.BoardOf | eightpuzzle.py:67 | the rows cut from the shuffled list read back, row by row, as that list |
| EightPuzzle.RandomPuzzle | eightpuzzle.py:61-69 | a constructed puzzle is valid, and its board reads back, row by row, as the shuffled list |
| EightPuzzle.RandomPuzzleValid | eightpuzzle.py:61-69 | a shuffle of `0..8` always constructs. The board reads back as the shuffle, and its blank is its only empty cell |
| PuzzleClimbing.Neighbors | hillclimbing.py:129-135 | at most four neighbours, each scored against the same goal |
| PuzzleClimbing.NeighborsMoves | hillclimbing.py:129-135 | there is one neighbour per possible move, in order, and each is the state that move returns |
| PuzzleClimbing.NeighborsSpec | hillclimbing.py:129-135 | there is one neighbour per possible move, in order: two to four of them. Each is the board after that move, with the same tiles and the same goal |
| PuzzleClimbing.Evaluate | hillclimbing.py:137-151 | the four nested loops compute 100 minus the Manhattan distance `DistanceFrom` sums |
| PuzzleClimbing.TileDistance | hillclimbing.py:147-150 | the two inner loops add that tile's distance to each goal cell holding it |
| PuzzleClimbing.Score | hillclimbing.py:137-151 | no board scores above 100 |
| PuzzleClimbing.GoalIffSolved | hillclimbing.py:142-155 | for boards holding the tiles `0..8`, `is_goal` holds exactly when the board equals the goal board |
| PuzzleClimbing.IsGoal | hillclimbing.py:153-155 | `is_goal` holds exactly when every tile stands on the goal cells that hold it, and on no other |
| PuzzleClimbing.NeighborsKeepPermutation | hillclimbing.py:129-135 | a neighbour of a board holding `0..8` holds `0..8`, with the same goal |
| PuzzleClimbing.RandomClimber | hillclimbing.py:157-163 | the random start reads back as the shuffle and is scored against `[[0,1,2],[3,4,5],[6,7,8]]`; both boards hold `0..8` |
| PuzzleClimbing.SolvedStartStays | hillclimbing.py:32-48 | a board equal to its goal scores 100 and is a goal; steepest ascent returns it at once with the one-entry trace `[100]` |
| EightQueen.QueenState.constructor | eightqueen.py:5-8 | a new state has `size` entries, every one `-1` |
| EightQueen.QueenState.PlaceQueen | eightqueen.py:10-16 | outside the board it returns false and changes nothing; inside, it sets only that row's column, which `get_queen_position` then reports |
| EightQueen.QueenState.QueenPosition | eightqueen.py:18-21 | the result is `None` exactly when the entry is `-1`, and otherwise the column; a negative row counts from the end |
| EightQueen.QueenState.IsValidPosition | eightqueen.py:23-32 | the result is true exactly when no other row holding a queen shares the column or a diagonal |
| EightQueen.QueenState.GetBoard | eightqueen.py:43-49 | the grid is `size` by `size`, with 'Q' exactly where `get_queen_position` reports a queen and '.' elsewhere |
| EightQueen.QueenState.Equals | eightqueen.py:55-58 | equal exactly when the columns agree entry by entry, whatever the sizes |
| EightQueen.QueenState.GenerateRandomState | eightqueen.py:34-41 | an 8-row state whose rows hold the drawn columns |
| EightQueen.RandomColumnsPlaced | eightqueen.py:38-40 | draws from `randint(0, size - 1)` put a queen on every row, inside the board |
| EightQueen.EmptyBoardSafe | eightqueen.py:23-32 | on a fresh board every position is valid |
| QueenClimbing.Neighbors | hillclimbing.py:169-188 | every neighbour has the same size and different columns from the state it came from |
| QueenClimbing.RowNeighbors | hillclimbing.py:179-186 | the inner column loop appends exactly the neighbours of one row |
| QueenClimbing.GetNeighbors | hillclimbing.py:169-188 | the nested loops build `Neighbors`, in row-then-column order |
| QueenClimbing.NeighborsSpec | hillclimbing.py:176-188 | a state is a neighbour exactly when one row's queen has moved to a different column inside the board |
| QueenClimbing.OneQueenMovedChangesOneRow | hillclimbing.py:183-185 | such a move changes exactly one entry |
| QueenClimbing.NeighborsCount | hillclimbing.py:176-188 | with every queen on the board there are `size * (size - 1)` neighbours |
| QueenClimbing.Evaluate | hillclimbing.py:190-207 | the pair loops compute 100 minus the number of pairs of rows sharing a column or a diagonal, an empty row counting as column `-1` |
| QueenClimbing.Score | hillclimbing.py:190-207 | the score lies in `[100 - N(N-1)/2, 100]` |
| QueenClimbing.IsGoal | hillclimbing.py:209-214 | `is_goal` holds exactly when no pair of rows shares a column or a diagonal, an empty row counting as column `-1` |
| QueenClimbing.GoalIffEverySafe | hillclimbing.py:209-214 | with every row holding a queen, a goal is exactly a board on which `is_valid_position` accepts every queen where it stands |
| QueenClimbing.OneColumnScore | hillclimbing.py:195-207 | `[0,0,0,0]` scores 94 |
| QueenClimbing.EmptyRowsScored | hillclimbing.py:195-214 | empty rows are scored as column `-1`: `[-1, -1]` is not a goal, and `[-1, 0]` scores 99 |
| QueenClimbing.FourQueensSolved | hillclimbing.py:195-214 | `[1,3,0,2]` scores 100 and is a goal |
| QueenClimbing.RandomQueens | hillclimbing.py:216-223 | the random start has 8 rows, each holding `-1` or a column on the board |
| QueenClimbing.RandomQueensOnBoard | hillclimbing.py:216-223 | the random start has 8 rows, every queen on the board, and 56 neighbours |

## Left out

- Scores are integers. The source types them as floats, but both fixtures
  compute integers.
- The random sources are oracles, and their distributions are not
  modelled. `first_choice` receives a reordering per iteration. `anneal`
  receives a choice index and an accept bit per round and iteration.
  `generate_random_puzzle` receives the shuffled list, and
  `generate_random_state` for queens receives the drawn columns.
- SimulatedAnnealing.Pick: the drawn index is reduced modulo the number of
  neighbours, which stands for `random.choice` drawing one of them.
- SimulatedAnnealing.Anneal: the float temperature schedule is not
  modelled. `temp *= cooling_rate` while `temp > min_temp` becomes a number
  of cooling `rounds`. `math.exp` appears only through the accept bit. A
  score change of 0 is always accepted, as `random() < exp(0)` always holds.
  `rounds` stands only for schedules that reach `min_temp`. With
  `cooling_rate >= 1` and `initial_temp > min_temp`, the source loops until
  it reaches a goal, and may never stop.
- HillClimbing.RandomRestart: the `isinstance` dispatch to a fixture's
  `generate_random_state` is the `generate` parameter. For a problem of
  neither family the source keeps the same start; a constant `generate`
  gives that.
- SimulatedAnnealing.RandomRestartAnneal: the trace starts empty, as
  `all_scores = []` does. With `num_restarts = 0` it is empty, unlike the
  traces of `steepest_ascent`, `first_choice`, `random_restart` and
  `anneal`, which always start with the initial score.
- Parameter defaults are not modelled: `max_steps=1000`, `max_restarts=1000`,
  `num_restarts=10`, and `anneal`'s `initial_temp=100`, `cooling_rate=0.95`,
  `min_temp=0.01` and `steps_per_temp=100` are required arguments here.
  Only the defaults that the source relies on internally are constants:
  `DefaultMaxSteps`, the budget of each `random_restart` attempt, and
  `DefaultSize`, the queens board size.
- QueenClimbing: an empty row holds `-1` and `evaluate` scores it like a
  column, so `evaluate` and `is_goal` treat an empty row as a queen in
  column `-1` (EmptyRowsScored). With draws from `randint(0, 7)` every random
  start has all eight rows placed (RandomQueensOnBoard).
- Negative `max_steps`, `max_restarts` and `num_restarts`, and a negative
  `QueenState` size, are not modelled. They are `nat`, and Python's `range`
  of a negative number is empty.
- EightPuzzle: board values are plain values, not objects updated in place.
  `move` deep-copies before it assigns, so there is no aliasing to lose.
  A constructor call that raises `ValueError` (a board without a blank)
  gives `None`.
- EightPuzzle.MoveBack and EightPuzzle.MoveSpec: the blank-tracking half
  assumes the blank is the board's only `0`. Every shuffled board has this
  property (RandomPuzzleValid), and moves keep it.
- PuzzleClimbing.GoalIffSolved holds for boards holding exactly the tiles
  `0..8`. That covers every board reachable from a random start. It does not
  cover arbitrary boards with repeated tiles.
- EightPuzzle: every member requires a 3x3 board (`IsGrid`). The source
  takes any list of lists and raises `IndexError` or ignores cells on other
  shapes, but `generate_random_puzzle` and `move` only produce 3x3 boards.
- EightQueen.QueenState.QueenPosition needs `-size <= row < size`. Outside
  that range the source raises `IndexError`.
- EightQueen.QueenState.GetBoard needs every column in `[-size, size)`, where
  the source's list writes succeed. Outside that range the source raises
  `IndexError`. A negative column other than `-1` marks a cell counted from
  the end, as Python does.
- EightQueen.QueenState.Equals: `__eq__` with an object that is not a
  `QueenState` returns False. The Dafny types rule that call out.
- The fixtures' `get_neighbors` build new objects. Here they are values of
  the datatypes `PuzzleClimber` and `QueenBoard`, not class instances.
- `__str__`, `plot.py`, `evaluation.py`, `main.py` and the `__main__` demo
  blocks are not modelled. They print, plot and time.
- Whether an eight-puzzle instance is solvable (permutation parity) is not
  modelled. The source never checks it.
