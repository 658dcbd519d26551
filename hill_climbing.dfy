/**
  The three hill-climbing policies of `HillClimbing` (hillclimbing.py):
  steepest ascent, first choice and random restart over steepest ascent.

  Each policy is a method with the source's loop, proved equal to a
  reference function that lists the states the climb visits; the returned
  trace is the scores of those states. The lemmas below state what the
  source promises about those visited states.
 */
module HillClimbing {
  import opened Wrappers
  import opened Search
  import opened Restart

  /** The `max_steps` default that `random_restart` gives `steepest_ascent`. */
  const DefaultMaxSteps: nat := 1000

  // ---------------------------------------------------------------------
  // Steepest ascent
  // ---------------------------------------------------------------------

  /** One steepest-ascent move: `b` is the first best-scoring neighbour of
      `a` in enumeration order and it scores strictly more than `a`. */
  ghost predicate SteepestStep<S>(p: Problem<S>, a: S, b: S)
  {
    var ns := p.neighbors(a);
    |ns| > 0 && b == ns[ArgMax(Scores(p, ns))] && p.evaluate(b) > p.evaluate(a)
  }

  /** The states steepest ascent visits from `current` with `steps` moves
      left: `current` first, then at most one state per move. */
  function SteepestClimb<S>(p: Problem<S>, current: S, steps: nat): (path: seq<S>)
    decreases steps
    ensures 1 <= |path| <= steps + 1 && path[0] == current
  {
    if steps == 0 then [current]
    else
      var ns := p.neighbors(current);
      if |ns| == 0 then [current]
      else
        var best := ns[ArgMax(Scores(p, ns))];
        if p.evaluate(best) <= p.evaluate(current) then [current]
        else if p.isGoal(best) then [current, best]
        else [current] + SteepestClimb(p, best, steps - 1)
  }

  /** `HillClimbing.steepest_ascent`. */
  method SteepestAscent<S>(p: Problem<S>, initial: S, maxSteps: nat) returns (final: S, scores: seq<int>)
    ensures var path := SteepestClimb(p, initial, maxSteps);
      final == Last(path) && scores == Scores(p, path)
  {
    var current := initial;
    scores := [p.evaluate(current)];
    ghost var done: seq<S> := [];
    for i := 0 to maxSteps
      invariant scores == Scores(p, done + [current])
      invariant SteepestClimb(p, initial, maxSteps) == done + SteepestClimb(p, current, maxSteps - i)
    {
      var neighbors := p.neighbors(current);
      if |neighbors| == 0 {
        SteepestClimbHalts(p, current, maxSteps - i);
        break;
      }
      var neighborScores := Scores(p, neighbors);
      ScoresAt(p, neighbors);
      var k := ArgMax(neighborScores);
      var bestNeighbor, bestScore := neighbors[k], neighborScores[k];
      if bestScore <= p.evaluate(current) {
        SteepestClimbHalts(p, current, maxSteps - i);
        break;
      }
      SteepestClimbMove(p, initial, maxSteps, done, current, i);
      ScoresAppend(p, done + [current], bestNeighbor);
      done := done + [current];
      current := bestNeighbor;
      scores := scores + [bestScore];
      if p.isGoal(current) {
        break;
      }
    }
    SteepestClimbHalts(p, current, 0);
    assert SteepestClimb(p, initial, maxSteps) == done + [current];
    final := current;
  }

  /** Loop step of `SteepestAscent`: an improving move keeps the remaining climb in step. */
  lemma SteepestClimbMove<S>(p: Problem<S>, initial: S, maxSteps: nat, done: seq<S>, current: S, i: nat)
    requires i < maxSteps && |p.neighbors(current)| > 0
    requires SteepestClimb(p, initial, maxSteps) == done + SteepestClimb(p, current, maxSteps - i)
    requires var ns := p.neighbors(current);
      p.evaluate(ns[ArgMax(Scores(p, ns))]) > p.evaluate(current)
    ensures var ns := p.neighbors(current);
      var best := ns[ArgMax(Scores(p, ns))];
      SteepestClimb(p, initial, maxSteps)
        == (done + [current]) + if p.isGoal(best) then [best] else SteepestClimb(p, best, maxSteps - (i + 1))
  {
    var ns := p.neighbors(current);
    var best := ns[ArgMax(Scores(p, ns))];
    var rest := if p.isGoal(best) then [best] else SteepestClimb(p, best, maxSteps - (i + 1));
    assert SteepestClimb(p, current, maxSteps - i) == [current] + rest;
    assert done + ([current] + rest) == (done + [current]) + rest;
  }

  /** Loop exit of `SteepestAscent`: no budget, a dead end or no improving
      neighbour leaves the climb where it is. */
  lemma SteepestClimbHalts<S>(p: Problem<S>, current: S, steps: nat)
    requires var ns := p.neighbors(current);
      steps == 0 || |ns| == 0 || p.evaluate(ns[ArgMax(Scores(p, ns))]) <= p.evaluate(current)
    ensures SteepestClimb(p, current, steps) == [current]
  {
  }

  /** Every move is a steepest-ascent move: to the first best neighbour, strictly improving. */
  lemma {:induction false} SteepestClimbSteps<S>(p: Problem<S>, current: S, steps: nat)
    ensures forall k :: 0 <= k < |SteepestClimb(p, current, steps)| - 1 ==>
      SteepestStep(p, SteepestClimb(p, current, steps)[k], SteepestClimb(p, current, steps)[k + 1])
  {
    var path := SteepestClimb(p, current, steps);
    if steps > 0 {
      var ns := p.neighbors(current);
      if |ns| > 0 {
        var best := ns[ArgMax(Scores(p, ns))];
        if p.evaluate(best) > p.evaluate(current) && !p.isGoal(best) {
          var rest := SteepestClimb(p, best, steps - 1);
          SteepestClimbSteps(p, best, steps - 1);
          assert path == [current] + rest;
          assert path[0] == current && path[1] == best;
          assert SteepestStep(p, path[0], path[1]);
          forall k | 1 <= k < |path| - 1
            ensures SteepestStep(p, path[k], path[k + 1])
          {
            assert path[k] == rest[k - 1] && path[k + 1] == rest[k];
            assert SteepestStep(p, rest[k - 1], rest[k]);
          }
        }
      }
    }
  }

  /** A steepest-ascent move goes to a neighbour. */
  lemma SteepestStepIsNeighbor<S>(p: Problem<S>, a: S, b: S)
    requires SteepestStep(p, a, b)
    ensures b in p.neighbors(a) && p.evaluate(b) > p.evaluate(a)
  {
  }

  /** A trace whose consecutive entries increase is strictly increasing. */
  lemma {:induction false} ConsecutiveIncrease(t: seq<int>)
    requires forall k :: 0 <= k < |t| - 1 ==> t[k] < t[k + 1]
    ensures StrictlyIncreasing(t)
  {
    if |t| > 1 {
      ConsecutiveIncrease(t[1..]);
      assert forall j :: 1 <= j < |t| ==> t[j] == t[1..][j - 1];
      assert forall j :: 1 <= j < |t| ==> t[1] <= t[j];
    }
  }

  /** A trace whose consecutive entries do not decrease is non-decreasing. */
  lemma {:induction false} ConsecutiveNonDecrease(t: seq<int>)
    requires forall k :: 0 <= k < |t| - 1 ==> t[k] <= t[k + 1]
    ensures NonDecreasing(t)
  {
    if |t| > 1 {
      ConsecutiveNonDecrease(t[1..]);
      assert forall j :: 1 <= j < |t| ==> t[j] == t[1..][j - 1];
      assert forall j :: 1 <= j < |t| ==> t[1] <= t[j];
    }
  }

  /** Steepest ascent walks along neighbours and its trace strictly increases. */
  lemma SteepestClimbAscends<S>(p: Problem<S>, current: S, steps: nat)
    ensures var path := SteepestClimb(p, current, steps);
      IsPath(p, path) && StrictlyIncreasing(Scores(p, path))
  {
    var path := SteepestClimb(p, current, steps);
    SteepestClimbSteps(p, current, steps);
    ScoresAt(p, path);
    forall k | 0 <= k < |path| - 1
      ensures path[k + 1] in p.neighbors(path[k]) && Scores(p, path)[k] < Scores(p, path)[k + 1]
    {
      assert SteepestStep(p, path[k], path[k + 1]);
      SteepestStepIsNeighbor(p, path[k], path[k + 1]);
    }
    ConsecutiveIncrease(Scores(p, path));
  }

  /** Why the climb ended: the step budget ran out, the last move reached a
      goal, or no neighbour improves (including a dead end). A goal reached
      earlier would have stopped it. */
  lemma {:induction false} SteepestClimbStops<S>(p: Problem<S>, current: S, steps: nat)
    ensures var path := SteepestClimb(p, current, steps);
      && (|path| == steps + 1 || (|path| >= 2 && p.isGoal(Last(path))) || LocalMaximum(p, Last(path)))
      && (forall k :: 1 <= k < |path| - 1 ==> !p.isGoal(path[k]))
  {
    var path := SteepestClimb(p, current, steps);
    if steps > 0 {
      var ns := p.neighbors(current);
      if |ns| > 0 {
        var best := ns[ArgMax(Scores(p, ns))];
        if p.evaluate(best) <= p.evaluate(current) {
          ScoresAt(p, ns);
          ArgMaxSpec(Scores(p, ns));
          forall n | n in ns ensures p.evaluate(n) <= p.evaluate(current) {
            var j :| 0 <= j < |ns| && ns[j] == n;
            assert Scores(p, ns)[j] == p.evaluate(n);
          }
        } else if !p.isGoal(best) {
          var rest := SteepestClimb(p, best, steps - 1);
          SteepestClimbStops(p, best, steps - 1);
          assert Last(path) == Last(rest);
          forall k | 1 <= k < |path| - 1 ensures !p.isGoal(path[k]) {
            assert path[k] == rest[k - 1];
          }
        }
      }
    }
  }

  /** A state no neighbour improves on is returned at once with a one-entry trace. */
  lemma SteepestClimbAtLocalMaximum<S>(p: Problem<S>, current: S, steps: nat)
    requires LocalMaximum(p, current)
    ensures SteepestClimb(p, current, steps) == [current]
  {
    var ns := p.neighbors(current);
    if steps > 0 && |ns| > 0 {
      var k := ArgMax(Scores(p, ns));
      assert ns[k] in ns;
    }
  }

  // ---------------------------------------------------------------------
  // First choice
  // ---------------------------------------------------------------------

  /** `random.shuffle`, injected: the order in which the `t`-th iteration
      scans the neighbours `ns`. It must be a reordering of `ns`. */
  ghost predicate IsShuffle<S(!new)>(shuffle: (nat, seq<S>) -> seq<S>)
  {
    forall t, ns :: multiset(shuffle(t, ns)) == multiset(ns)
  }

  /** The index of the first state scoring at least `threshold`. */
  function FirstAtLeast<S>(p: Problem<S>, xs: seq<S>, threshold: int): (r: Option<nat>)
    ensures r.Some? ==> r.value < |xs|
  {
    if xs == [] then None
    else if p.evaluate(xs[0]) >= threshold then Some(0)
    else
      match FirstAtLeast(p, xs[1..], threshold)
      case None => None
      case Some(k) => Some(k + 1)
  }

  /** `FirstAtLeast` finds nothing exactly when every state scores below the
      threshold, and otherwise the first one that does not. */
  lemma {:induction false} FirstAtLeastSpec<S>(p: Problem<S>, xs: seq<S>, threshold: int)
    ensures var r := FirstAtLeast(p, xs, threshold);
      && (r.None? <==> forall k :: 0 <= k < |xs| ==> p.evaluate(xs[k]) < threshold)
      && (r.Some? ==> p.evaluate(xs[r.value]) >= threshold && forall k :: 0 <= k < r.value ==> p.evaluate(xs[k]) < threshold)
  {
    if xs != [] && p.evaluate(xs[0]) < threshold {
      FirstAtLeastSpec(p, xs[1..], threshold);
      assert forall k :: 1 <= k < |xs| ==> xs[k] == xs[1..][k - 1];
    }
  }

  /** The states first choice visits from `current`, at iteration `t`, with
      `steps` iterations left: `current` first, then at most one state per
      iteration. */
  function FirstChoiceClimb<S>(p: Problem<S>, shuffle: (nat, seq<S>) -> seq<S>, current: S, t: nat, steps: nat): (path: seq<S>)
    decreases steps
    ensures 1 <= |path| <= steps + 1 && path[0] == current
  {
    if steps == 0 then [current]
    else
      var ns := p.neighbors(current);
      if |ns| == 0 then [current]
      else
        var order := shuffle(t, ns);
        match FirstAtLeast(p, order, p.evaluate(current))
        case None => [current]
        case Some(k) =>
          if p.isGoal(order[k]) then [current, order[k]]
          else [current] + FirstChoiceClimb(p, shuffle, order[k], t + 1, steps - 1)
  }

  /** `HillClimbing.first_choice`; `shuffle(i, ns)` is the order `random.shuffle`
      gives the neighbours in iteration `i`. */
  method FirstChoice<S>(p: Problem<S>, shuffle: (nat, seq<S>) -> seq<S>, initial: S, maxSteps: nat)
    returns (final: S, scores: seq<int>)
    ensures var path := FirstChoiceClimb(p, shuffle, initial, 0, maxSteps);
      final == Last(path) && scores == Scores(p, path)
  {
    var current := initial;
    scores := [p.evaluate(current)];
    ghost var done: seq<S> := [];
    ghost var whole := FirstChoiceClimb(p, shuffle, initial, 0, maxSteps);
    for i := 0 to maxSteps
      invariant scores == Scores(p, done + [current])
      invariant whole == done + FirstChoiceClimb(p, shuffle, current, i, maxSteps - i)
    {
      var neighbors := p.neighbors(current);
      if |neighbors| == 0 {
        FirstChoiceClimbHalts(p, shuffle, current, i, maxSteps - i);
        break;
      }
      var order := shuffle(i, neighbors);
      var pick := ScanFirstAtLeast(p, order, p.evaluate(current));
      if pick.None? {
        FirstChoiceClimbHalts(p, shuffle, current, i, maxSteps - i);
        break;
      }
      var chosen := order[pick.value];
      FirstChoiceClimbMove(p, shuffle, whole, maxSteps, done, current, i, chosen);
      ScoresAppend(p, done + [current], chosen);
      done := done + [current];
      current := chosen;
      scores := scores + [p.evaluate(chosen)];
      if p.isGoal(current) {
        break;
      }
    }
    FirstChoiceClimbHalts(p, shuffle, current, maxSteps, 0);
    assert whole == done + [current];
    final := current;
  }

  /** The scan inside one first-choice iteration: the first neighbour, in
      shuffled order, whose score is at least the current score. */
  method ScanFirstAtLeast<S>(p: Problem<S>, order: seq<S>, threshold: int) returns (pick: Option<nat>)
    ensures pick == FirstAtLeast(p, order, threshold)
  {
    pick := None;
    for j := 0 to |order|
      invariant pick == None
      invariant forall k :: 0 <= k < j ==> p.evaluate(order[k]) < threshold
    {
      var neighborScore := p.evaluate(order[j]);
      if neighborScore >= threshold {
        pick := Some(j);
        break;
      }
    }
    FirstAtLeastSpec(p, order, threshold);
  }

  /** Loop exit of `FirstChoice`: no budget, a dead end, or a scan that finds
      no neighbour at least as good leaves the climb where it is. */
  lemma FirstChoiceClimbHalts<S>(p: Problem<S>, shuffle: (nat, seq<S>) -> seq<S>, current: S, t: nat, steps: nat)
    requires var ns := p.neighbors(current);
      steps == 0 || |ns| == 0 || FirstAtLeast(p, shuffle(t, ns), p.evaluate(current)).None?
    ensures FirstChoiceClimb(p, shuffle, current, t, steps) == [current]
  {
  }

  /** Loop step of `FirstChoice`: an accepted move keeps the remaining climb in step. */
  lemma FirstChoiceClimbMove<S>(p: Problem<S>, shuffle: (nat, seq<S>) -> seq<S>, whole: seq<S>, maxSteps: nat,
                                done: seq<S>, current: S, i: nat, chosen: S)
    requires i < maxSteps && |p.neighbors(current)| > 0
    requires whole == done + FirstChoiceClimb(p, shuffle, current, i, maxSteps - i)
    requires var order := shuffle(i, p.neighbors(current));
      var r := FirstAtLeast(p, order, p.evaluate(current));
      r.Some? && chosen == order[r.value]
    ensures whole
        == (done + [current]) + if p.isGoal(chosen) then [chosen] else FirstChoiceClimb(p, shuffle, chosen, i + 1, maxSteps - (i + 1))
  {
    var rest := if p.isGoal(chosen) then [chosen] else FirstChoiceClimb(p, shuffle, chosen, i + 1, maxSteps - (i + 1));
    assert FirstChoiceClimb(p, shuffle, current, i, maxSteps - i) == [current] + rest;
    assert done + ([current] + rest) == (done + [current]) + rest;
  }

  /** One first-choice move: `b` is a neighbour of `a` scoring at least as much. */
  ghost predicate FirstChoiceStep<S>(p: Problem<S>, a: S, b: S)
  {
    b in p.neighbors(a) && p.evaluate(a) <= p.evaluate(b)
  }

  /** Every accepted state is one of the current state's neighbours (the
      shuffle only reorders them) and scores at least as much. */
  lemma {:induction false} FirstChoiceClimbSteps<S(!new)>(p: Problem<S>, shuffle: (nat, seq<S>) -> seq<S>, current: S, t: nat, steps: nat)
    requires IsShuffle(shuffle)
    decreases steps
    ensures forall k :: 0 <= k < |FirstChoiceClimb(p, shuffle, current, t, steps)| - 1 ==>
      FirstChoiceStep(p, FirstChoiceClimb(p, shuffle, current, t, steps)[k], FirstChoiceClimb(p, shuffle, current, t, steps)[k + 1])
  {
    var path := FirstChoiceClimb(p, shuffle, current, t, steps);
    if steps > 0 && |p.neighbors(current)| > 0 {
      var ns := p.neighbors(current);
      var order := shuffle(t, ns);
      match FirstAtLeast(p, order, p.evaluate(current))
      case None =>
      case Some(k) =>
        FirstAtLeastSpec(p, order, p.evaluate(current));
        assert order[k] in multiset(order);
        assert FirstChoiceStep(p, current, order[k]);
        if !p.isGoal(order[k]) {
          var rest := FirstChoiceClimb(p, shuffle, order[k], t + 1, steps - 1);
          FirstChoiceClimbSteps(p, shuffle, order[k], t + 1, steps - 1);
          assert path == [current] + rest;
          forall j | 1 <= j < |path| - 1 ensures FirstChoiceStep(p, path[j], path[j + 1]) {
            assert path[j] == rest[j - 1] && path[j + 1] == rest[j];
            assert FirstChoiceStep(p, rest[j - 1], rest[j]);
          }
        }
    }
  }

  /** First choice walks along neighbours and its trace never decreases. */
  lemma FirstChoiceClimbAscends<S(!new)>(p: Problem<S>, shuffle: (nat, seq<S>) -> seq<S>, current: S, t: nat, steps: nat)
    requires IsShuffle(shuffle)
    ensures var path := FirstChoiceClimb(p, shuffle, current, t, steps);
      IsPath(p, path) && NonDecreasing(Scores(p, path))
  {
    var path := FirstChoiceClimb(p, shuffle, current, t, steps);
    FirstChoiceClimbSteps(p, shuffle, current, t, steps);
    assert var q := FirstChoiceClimb(p, shuffle, current, t, steps); forall k :: 0 <= k < |q| - 1 ==> FirstChoiceStep(p, q[k], q[k + 1]);
    ScoresAt(p, path);
    forall k | 0 <= k < |path| - 1
      ensures path[k + 1] in p.neighbors(path[k]) && Scores(p, path)[k] <= Scores(p, path)[k + 1]
    {
      assert FirstChoiceStep(p, path[k], path[k + 1]);
    }
    ConsecutiveNonDecrease(Scores(p, path));
  }

  /** Why the climb ended: the step budget ran out, the last move reached a
      goal, or every neighbour scores strictly less than the current state
      (including a dead end). A goal reached earlier would have stopped it. */
  lemma {:induction false} FirstChoiceClimbStops<S(!new)>(p: Problem<S>, shuffle: (nat, seq<S>) -> seq<S>, current: S, t: nat, steps: nat)
    requires IsShuffle(shuffle)
    decreases steps
    ensures var path := FirstChoiceClimb(p, shuffle, current, t, steps);
      && (|path| == steps + 1 || (|path| >= 2 && p.isGoal(Last(path))) || StrictLocalMaximum(p, Last(path)))
      && (forall k :: 1 <= k < |path| - 1 ==> !p.isGoal(path[k]))
  {
    var path := FirstChoiceClimb(p, shuffle, current, t, steps);
    if steps > 0 && |p.neighbors(current)| > 0 {
      var ns := p.neighbors(current);
      var order := shuffle(t, ns);
      match FirstAtLeast(p, order, p.evaluate(current))
      case None =>
        FirstAtLeastSpec(p, order, p.evaluate(current));
        forall n | n in ns ensures p.evaluate(n) < p.evaluate(current) {
          assert n in multiset(ns);
          var j :| 0 <= j < |order| && order[j] == n;
        }
      case Some(k) =>
        if !p.isGoal(order[k]) {
          var rest := FirstChoiceClimb(p, shuffle, order[k], t + 1, steps - 1);
          FirstChoiceClimbStops(p, shuffle, order[k], t + 1, steps - 1);
          assert Last(path) == Last(rest);
          forall j | 1 <= j < |path| - 1 ensures !p.isGoal(path[j]) {
            assert path[j] == rest[j - 1];
          }
        }
    }
  }

  // ---------------------------------------------------------------------
  // Random restart
  // ---------------------------------------------------------------------

  /** What one steepest-ascent call with the default budget returns. */
  function SteepestOutcome<S>(p: Problem<S>, start: S): (out: Outcome<S>)
  {
    var path := SteepestClimb(p, start, DefaultMaxSteps);
    Outcome(Last(path), Scores(p, path))
  }

  /** The inner search of random restart: every attempt is a steepest ascent. */
  function SteepestRun<S>(p: Problem<S>): (nat, S) -> Outcome<S>
  {
    (k, start) => SteepestOutcome(p, start)
  }

  /** `HillClimbing.random_restart`; the `isinstance` dispatch to a problem
      family's `generate_random_state` is the generator `generate`. */
  method RandomRestart<S>(p: Problem<S>, generate: nat -> S, initial: S, maxRestarts: nat)
    returns (best: S, allScores: seq<int>)
    ensures Outcome(best, allScores) == Result(p, SteepestRun(p), generate, initial, 0, maxRestarts, initial, [p.evaluate(initial)])
  {
    var start := initial;
    best := initial;
    var bestScore := p.evaluate(initial);
    allScores := [bestScore];
    ghost var run := SteepestRun(p);
    ghost var whole := Result(p, run, generate, initial, 0, maxRestarts, initial, [bestScore]);
    for k := 0 to maxRestarts
      invariant whole == Result(p, run, generate, start, k, maxRestarts - k, best, allScores)
      invariant bestScore == p.evaluate(best)
    {
      var currentState, currentScores := SteepestAscent(p, start, DefaultMaxSteps);
      var currentScore := p.evaluate(currentState);
      ghost var o := Outcome(currentState, currentScores);
      assert o == SteepestOutcome(p, start);
      assert run(k, start) == o;
      ResultStep(p, run, generate, start, k, maxRestarts - k, best, allScores, o);
      ghost var kept := Better(p, best, currentState);
      if currentScore > bestScore {
        best, bestScore := currentState, currentScore;
      }
      assert best == kept;
      allScores := allScores + currentScores;
      if p.isGoal(currentState) {
        break;
      }
      start := generate(k);
    }
  }

  /** What random restart promises: the first best of the initial state and
      the attempts' final states, each attempt a default-budget steepest
      ascent, the initial score followed by every attempt's trace, at most
      `maxRestarts` attempts and no goal before the last one. */
  lemma RandomRestartOutcome<S>(p: Problem<S>, generate: nat -> S, initial: S, maxRestarts: nat)
    ensures var r := Result(p, SteepestRun(p), generate, initial, 0, maxRestarts, initial, [p.evaluate(initial)]);
      var attempts := Attempts(p, SteepestRun(p), generate, initial, 0, maxRestarts);
      var candidates := [initial] + Finals(attempts);
      && r.state == candidates[ArgMax(Scores(p, candidates))]
      && r.scores == [p.evaluate(initial)] + Concat(Traces(attempts))
      && p.evaluate(r.state) >= p.evaluate(initial)
      && (forall o :: o in attempts ==> p.evaluate(r.state) >= p.evaluate(o.state))
      && |attempts| <= maxRestarts
      && (maxRestarts > 0 ==> |attempts| > 0 && attempts[0] == SteepestOutcome(p, initial))
      && (forall i :: 0 < i < |attempts| ==> attempts[i] == SteepestOutcome(p, generate(i - 1)))
      && (forall i :: 0 <= i < |attempts| - 1 ==> !p.isGoal(attempts[i].state))
  {
    var r := Result(p, SteepestRun(p), generate, initial, 0, maxRestarts, initial, [p.evaluate(initial)]);
    var attempts := Attempts(p, SteepestRun(p), generate, initial, 0, maxRestarts);
    ResultBest(p, SteepestRun(p), generate, initial, 0, maxRestarts, initial, [p.evaluate(initial)]);
    KeepBestIsFirstMax(p, initial, Finals(attempts));
    ResultTrace(p, SteepestRun(p), generate, initial, 0, maxRestarts, initial, [p.evaluate(initial)]);
    BestDominates(p, initial, attempts, r.state);
    AttemptsShape(p, SteepestRun(p), generate, initial, 0, maxRestarts);
  }

  /** Each attempt's trace starts with its starting state's score and ends with its final state's score. */
  lemma SteepestOutcomeTrace<S>(p: Problem<S>, start: S)
    ensures var o := SteepestOutcome(p, start);
      |o.scores| >= 1 && o.scores[0] == p.evaluate(start) && Last(o.scores) == p.evaluate(o.state)
  {
    ScoresAt(p, SteepestClimb(p, start, DefaultMaxSteps));
  }
}
