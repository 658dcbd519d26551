/**
  `SimulatedAnnealing` (simannealing.py): a Metropolis-style walk that picks a
  random neighbour, always accepts an improvement, accepts anything else with
  a temperature-dependent probability, and remembers the best state it
  accepted; plus a restart wrapper around it.

  The float temperature schedule (`temp *= cooling_rate` while
  `temp > min_temp`) is a number of cooling `rounds`, each of which runs the
  inner loop for `steps` iterations at one temperature. The random draws come
  from `Oracles`, indexed by the round and the inner iteration.
 */
module SimulatedAnnealing {
  import opened Search
  import opened Restart

  /** The random draws of one annealing run: `choose(r, i)` is what
      `random.choice` draws in iteration `i` of round `r` (reduced modulo the
      number of neighbours), and `accept(r, i, delta)` is the outcome of
      `random.random() < exp(delta / temp)` at that round's temperature. */
  datatype Oracles = Oracles(choose: (nat, nat) -> nat, accept: (nat, nat, int) -> bool)

  /** The states one walk accepts, in order, and whether it stopped because
      the current state was a goal. */
  datatype Walk<S> = Walk(accepted: seq<S>, goal: bool)

  /** `random.choice(ns)`. */
  function Pick<S>(o: Oracles, r: nat, i: nat, ns: seq<S>): (n: S)
    requires |ns| > 0
    ensures n in ns
  {
    ns[o.choose(r, i) % |ns|]
  }

  /** The acceptance test `delta > 0 or random() < exp(delta / temp)`. With
      `delta == 0` the right operand is `random() < 1`, which always holds. */
  predicate Accepts(o: Oracles, r: nat, i: nat, delta: int): (b: bool)
    ensures delta >= 0 ==> b
    ensures delta < 0 ==> (b <==> o.accept(r, i, delta))
  {
    delta >= 0 || o.accept(r, i, delta)
  }

  /** The rest of a walk from iteration `i` of round `r` at `current`. An
      exhausted round or a state without neighbours (the inner `break`) moves
      on to the next round; a goal state ends the walk, whether or not the
      draw was accepted. */
  function AnnealWalk<S>(p: Problem<S>, o: Oracles, rounds: nat, steps: nat, current: S, r: nat, i: nat): (w: Walk<S>)
    decreases rounds - r, steps - i
    ensures w.goal ==> p.isGoal(Last([current] + w.accepted))
  {
    if r >= rounds then Walk([], false)
    else if i >= steps || |p.neighbors(current)| == 0 then AnnealWalk(p, o, rounds, steps, current, r + 1, 0)
    else
      var next := Pick(o, r, i, p.neighbors(current));
      var accepted := Accepts(o, r, i, p.evaluate(next) - p.evaluate(current));
      var now := if accepted then next else current;
      var moved := if accepted then [next] else [];
      if p.isGoal(now) then Walk(moved, true)
      else
        var w := AnnealWalk(p, o, rounds, steps, now, r, i + 1);
        Walk(moved + w.accepted, w.goal)
  }

  /** The rest of the loop from iteration `i` of round `r`, with the loop's
      own variables `current`, `best` and `trace`: what `anneal` returns when
      its loops resume in that state. */
  function AnnealFrom<S>(p: Problem<S>, o: Oracles, rounds: nat, steps: nat, r: nat, i: nat,
                         current: S, best: S, trace: seq<int>): (out: Outcome<S>)
    decreases rounds - r, steps - i
  {
    if r >= rounds then Outcome(best, trace)
    else if i >= steps || |p.neighbors(current)| == 0 then AnnealFrom(p, o, rounds, steps, r + 1, 0, current, best, trace)
    else
      var next := Pick(o, r, i, p.neighbors(current));
      if Accepts(o, r, i, p.evaluate(next) - p.evaluate(current)) then
        if p.isGoal(next) then Outcome(next, trace + [p.evaluate(next)])
        else AnnealFrom(p, o, rounds, steps, r, i + 1, next, Better(p, best, next), trace + [p.evaluate(next)])
      else if p.isGoal(current) then Outcome(current, trace)
      else AnnealFrom(p, o, rounds, steps, r, i + 1, current, best, trace)
  }

  /** The loop's state machine returns what the walk of accepted states
      determines: the last state visited on a goal, otherwise the best one
      kept, and the trace extended by the accepted states' scores. */
  lemma {:induction false} AnnealFromWalk<S>(p: Problem<S>, o: Oracles, rounds: nat, steps: nat, r: nat, i: nat,
                                             current: S, best: S, trace: seq<int>)
    decreases rounds - r, steps - i
    ensures var w := AnnealWalk(p, o, rounds, steps, current, r, i);
      AnnealFrom(p, o, rounds, steps, r, i, current, best, trace)
        == Outcome(if w.goal then Last([current] + w.accepted) else KeepBest(p, best, w.accepted), trace + Scores(p, w.accepted))
  {
    var w := AnnealWalk(p, o, rounds, steps, current, r, i);
    if r >= rounds {
      assert trace + [] == trace;
    } else if i >= steps || |p.neighbors(current)| == 0 {
      AnnealFromWalk(p, o, rounds, steps, r + 1, 0, current, best, trace);
    } else {
      var next := Pick(o, r, i, p.neighbors(current));
      if Accepts(o, r, i, p.evaluate(next) - p.evaluate(current)) {
        if p.isGoal(next) {
          assert w.accepted == [next];
          assert Scores(p, [next]) == [p.evaluate(next)];
        } else {
          var after := AnnealWalk(p, o, rounds, steps, next, r, i + 1);
          AnnealFromWalk(p, o, rounds, steps, r, i + 1, next, Better(p, best, next), trace + [p.evaluate(next)]);
          assert w.accepted == [next] + after.accepted;
          KeepBestCons(p, best, next, after.accepted);
          ScoresCons(p, [next], after.accepted);
          assert Scores(p, [next]) == [p.evaluate(next)];
          assert Last([current] + w.accepted) == Last([next] + after.accepted);
        }
      } else {
        var after := AnnealWalk(p, o, rounds, steps, current, r, i + 1);
        if p.isGoal(current) {
          assert w.accepted == [] && trace + [] == trace;
        } else {
          AnnealFromWalk(p, o, rounds, steps, r, i + 1, current, best, trace);
          assert w.accepted == [] + after.accepted == after.accepted;
        }
      }
    }
  }

  /** What `anneal` returns: the loops run from the initial state, which is
      also the first best state and the first score of the trace. */
  function AnnealOutcome<S>(p: Problem<S>, o: Oracles, rounds: nat, steps: nat, initial: S): (out: Outcome<S>)
  {
    AnnealFrom(p, o, rounds, steps, 0, 0, initial, initial, [p.evaluate(initial)])
  }

  /** `anneal` returns the current state if it stopped at a goal, otherwise
      the best state kept by strict improvement; and the initial score
      followed by the score of every accepted state. */
  lemma AnnealOutcomeWalk<S>(p: Problem<S>, o: Oracles, rounds: nat, steps: nat, initial: S)
    ensures var w := AnnealWalk(p, o, rounds, steps, initial, 0, 0);
      var visited := [initial] + w.accepted;
      AnnealOutcome(p, o, rounds, steps, initial)
        == Outcome(if w.goal then Last(visited) else KeepBest(p, initial, w.accepted), Scores(p, visited))
  {
    var w := AnnealWalk(p, o, rounds, steps, initial, 0, 0);
    AnnealFromWalk(p, o, rounds, steps, 0, 0, initial, initial, [p.evaluate(initial)]);
    ScoresCons(p, [initial], w.accepted);
    assert Scores(p, [initial]) == [p.evaluate(initial)];
  }

  /** One step of the keep-the-best fold. */
  lemma KeepBestCons<S>(p: Problem<S>, best: S, x: S, rest: seq<S>)
    ensures KeepBest(p, best, [x] + rest) == KeepBest(p, Better(p, best, x), rest)
  {
    assert ([x] + rest)[1..] == rest;
  }

  /** A round whose iterations are used up, or whose current state has no
      neighbours, passes the walk on to the next round unchanged. */
  lemma AnnealRoundEnds<S>(p: Problem<S>, o: Oracles, rounds: nat, steps: nat, current: S, r: nat, i: nat)
    requires r < rounds
    requires i >= steps || |p.neighbors(current)| == 0
    ensures AnnealWalk(p, o, rounds, steps, current, r, i) == AnnealWalk(p, o, rounds, steps, current, r + 1, 0)
  {
  }

  /** One iteration of the inner loop: an accepted draw becomes the next
      accepted state, a rejected one leaves the walk at `current`; either way
      the walk ends if the state it is then at is a goal. */
  lemma AnnealWalkStep<S>(p: Problem<S>, o: Oracles, rounds: nat, steps: nat, current: S, r: nat, i: nat)
    requires r < rounds && i < steps && |p.neighbors(current)| > 0
    ensures var next := Pick(o, r, i, p.neighbors(current));
      var w := AnnealWalk(p, o, rounds, steps, current, r, i);
      var accepted := Accepts(o, r, i, p.evaluate(next) - p.evaluate(current));
      var after := AnnealWalk(p, o, rounds, steps, next, r, i + 1);
      && (accepted && p.isGoal(next) ==> w == Walk([next], true))
      && (accepted && !p.isGoal(next) ==> w == Walk([next] + after.accepted, after.goal))
      && (!accepted && p.isGoal(current) ==> w == Walk([], true))
      && (!accepted && !p.isGoal(current) ==> w == AnnealWalk(p, o, rounds, steps, current, r, i + 1))
  {
    var w' := AnnealWalk(p, o, rounds, steps, current, r, i + 1);
    assert [] + w'.accepted == w'.accepted;
  }

  /** A draw scoring at least the current state is always accepted
      (`delta > 0`, or `delta == 0` where `exp(0) = 1`): it is the walk's
      next state. */
  lemma AnnealTakesImprovement<S>(p: Problem<S>, o: Oracles, rounds: nat, steps: nat, current: S, r: nat, i: nat)
    requires r < rounds && i < steps && |p.neighbors(current)| > 0
    requires p.evaluate(Pick(o, r, i, p.neighbors(current))) >= p.evaluate(current)
    ensures var w := AnnealWalk(p, o, rounds, steps, current, r, i);
      |w.accepted| > 0 && w.accepted[0] == Pick(o, r, i, p.neighbors(current))
  {
    AnnealWalkStep(p, o, rounds, steps, current, r, i);
  }

  /** Every accepted state is a neighbour of the state before it. */
  lemma {:induction false} AnnealWalkPath<S>(p: Problem<S>, o: Oracles, rounds: nat, steps: nat, current: S, r: nat, i: nat)
    decreases rounds - r, steps - i
    ensures IsPath(p, [current] + AnnealWalk(p, o, rounds, steps, current, r, i).accepted)
  {
    var w := AnnealWalk(p, o, rounds, steps, current, r, i);
    if r < rounds {
      if i >= steps || |p.neighbors(current)| == 0 {
        AnnealWalkPath(p, o, rounds, steps, current, r + 1, 0);
        assert w == AnnealWalk(p, o, rounds, steps, current, r + 1, 0);
      } else {
        var next := Pick(o, r, i, p.neighbors(current));
        assert next in p.neighbors(current);
        AnnealWalkStep(p, o, rounds, steps, current, r, i);
        if Accepts(o, r, i, p.evaluate(next) - p.evaluate(current)) {
          if p.isGoal(next) {
            assert w.accepted == [next];
            PathCons(p, next, []);
            PathCons(p, current, [next]);
          } else {
            var after := AnnealWalk(p, o, rounds, steps, next, r, i + 1).accepted;
            AnnealWalkPath(p, o, rounds, steps, next, r, i + 1);
            assert w.accepted == [next] + after;
            PathCons(p, current, [next] + after);
          }
        } else if !p.isGoal(current) {
          AnnealWalkPath(p, o, rounds, steps, current, r, i + 1);
          assert w == AnnealWalk(p, o, rounds, steps, current, r, i + 1);
        } else {
          assert w.accepted == [];
        }
      }
    }
  }

  /** The inner-loop iterations in the rounds from `r` on. */
  function Iterations(rounds: nat, steps: nat, r: nat): (n: nat)
    decreases rounds - r
  {
    if r >= rounds then 0 else steps + Iterations(rounds, steps, r + 1)
  }

  lemma {:induction false} IterationsCount(rounds: nat, steps: nat, r: nat)
    requires r <= rounds
    decreases rounds - r
    ensures Iterations(rounds, steps, r) == (rounds - r) * steps
  {
    if r < rounds {
      IterationsCount(rounds, steps, r + 1);
      assert (rounds - r) * steps == (rounds - (r + 1)) * steps + steps;
    }
  }

  /** The iterations still to come bound the number of acceptances: at most
      one per iteration. */
  lemma {:induction false} AnnealWalkLength<S>(p: Problem<S>, o: Oracles, rounds: nat, steps: nat, current: S, r: nat, i: nat)
    requires i <= steps
    decreases rounds - r, steps - i
    ensures |AnnealWalk(p, o, rounds, steps, current, r, i).accepted| + (if r < rounds then i else 0) <= Iterations(rounds, steps, r)
  {
    if r < rounds {
      if i >= steps || |p.neighbors(current)| == 0 {
        AnnealWalkLength(p, o, rounds, steps, current, r + 1, 0);
      } else {
        var next := Pick(o, r, i, p.neighbors(current));
        AnnealWalkStep(p, o, rounds, steps, current, r, i);
        if Accepts(o, r, i, p.evaluate(next) - p.evaluate(current)) {
          if !p.isGoal(next) {
            AnnealWalkLength(p, o, rounds, steps, next, r, i + 1);
          }
        } else if !p.isGoal(current) {
          AnnealWalkLength(p, o, rounds, steps, current, r, i + 1);
        }
      }
    }
  }

  /** A walk from `current` stops at the first goal it is at: no accepted
      state before the last is a goal, none at all if the walk ran out of
      rounds, and a walk that stopped early is at a goal. */
  ghost predicate StopsAtGoal<S>(p: Problem<S>, current: S, w: Walk<S>)
  {
    && (forall j :: 0 <= j < |w.accepted| - 1 ==> !p.isGoal(w.accepted[j]))
    && (!w.goal ==> forall j :: 0 <= j < |w.accepted| ==> !p.isGoal(w.accepted[j]))
    && (w.goal ==> p.isGoal(Last([current] + w.accepted)))
  }

  /** Accepting a state that is not a goal keeps `StopsAtGoal`. */
  lemma StopsAtGoalCons<S>(p: Problem<S>, current: S, next: S, w: Walk<S>)
    requires !p.isGoal(next) && StopsAtGoal(p, next, w)
    ensures StopsAtGoal(p, current, Walk([next] + w.accepted, w.goal))
  {
    var acc := [next] + w.accepted;
    assert forall j :: 1 <= j < |acc| ==> acc[j] == w.accepted[j - 1];
    assert Last([current] + acc) == Last([next] + w.accepted);
  }

  lemma {:induction false} AnnealWalkGoal<S>(p: Problem<S>, o: Oracles, rounds: nat, steps: nat, current: S, r: nat, i: nat)
    decreases rounds - r, steps - i
    ensures StopsAtGoal(p, current, AnnealWalk(p, o, rounds, steps, current, r, i))
  {
    if r < rounds {
      if i >= steps || |p.neighbors(current)| == 0 {
        AnnealWalkGoal(p, o, rounds, steps, current, r + 1, 0);
      } else {
        var next := Pick(o, r, i, p.neighbors(current));
        AnnealWalkStep(p, o, rounds, steps, current, r, i);
        if Accepts(o, r, i, p.evaluate(next) - p.evaluate(current)) {
          if p.isGoal(next) {
            assert Last([current] + [next]) == next;
          } else {
            AnnealWalkGoal(p, o, rounds, steps, next, r, i + 1);
            StopsAtGoalCons(p, current, next, AnnealWalk(p, o, rounds, steps, next, r, i + 1));
          }
        } else if p.isGoal(current) {
          assert Last([current] + []) == current;
        } else {
          AnnealWalkGoal(p, o, rounds, steps, current, r, i + 1);
        }
      }
    }
  }

  /** What `anneal` promises, stated on the states it visited (the initial
      state and every accepted one): the trace is their scores, starting with
      the initial score and growing by one per acceptance; they form a path;
      a goal among them ends the run and is returned; otherwise the returned
      state is the first one of maximal score, so its score is the maximum
      of the trace. */
  lemma AnnealResult<S>(p: Problem<S>, o: Oracles, rounds: nat, steps: nat, initial: S)
    ensures var out := AnnealOutcome(p, o, rounds, steps, initial);
      var w := AnnealWalk(p, o, rounds, steps, initial, 0, 0);
      var visited := [initial] + w.accepted;
      && |out.scores| == |visited| <= rounds * steps + 1
      && out.scores[0] == p.evaluate(initial)
      && (forall j :: 0 <= j < |visited| ==> out.scores[j] == p.evaluate(visited[j]))
      && IsPath(p, visited)
      && (forall j :: 1 <= j < |visited| - 1 ==> !p.isGoal(visited[j]))
      && (w.goal ==> out.state == Last(visited) && p.isGoal(out.state))
      && (!w.goal ==> out.state == visited[ArgMax(out.scores)]
                      && (forall j :: 0 <= j < |out.scores| ==> out.scores[j] <= p.evaluate(out.state))
                      && (forall j :: 1 <= j < |visited| ==> !p.isGoal(visited[j])))
  {
    var w := AnnealWalk(p, o, rounds, steps, initial, 0, 0);
    var visited := [initial] + w.accepted;
    AnnealWalkLength(p, o, rounds, steps, initial, 0, 0);
    IterationsCount(rounds, steps, 0);
    AnnealWalkPath(p, o, rounds, steps, initial, 0, 0);
    AnnealWalkGoal(p, o, rounds, steps, initial, 0, 0);
    AnnealOutcomeWalk(p, o, rounds, steps, initial);
    ScoresAt(p, visited);
    assert forall j :: 1 <= j < |visited| ==> visited[j] == w.accepted[j - 1];
    if !w.goal {
      KeepBestIsFirstMax(p, initial, w.accepted);
      ArgMaxSpec(Scores(p, visited));
    }
  }

  /** `SimulatedAnnealing.anneal` with `rounds` cooling rounds of `steps`
      iterations each. */
  method Anneal<S>(p: Problem<S>, o: Oracles, initial: S, rounds: nat, steps: nat)
    returns (final: S, scores: seq<int>)
    ensures Outcome(final, scores) == AnnealOutcome(p, o, rounds, steps, initial)
  {
    var current := initial;
    var currentScore := p.evaluate(current);
    var best := current;
    var bestScore := currentScore;
    scores := [currentScore];
    ghost var whole := AnnealOutcome(p, o, rounds, steps, initial);
    for r := 0 to rounds
      invariant whole == AnnealFrom(p, o, rounds, steps, r, 0, current, best, scores)
      invariant currentScore == p.evaluate(current) && bestScore == p.evaluate(best)
    {
      var i := 0;
      while i < steps
        invariant i <= steps
        invariant whole == AnnealFrom(p, o, rounds, steps, r, i, current, best, scores)
        invariant currentScore == p.evaluate(current) && bestScore == p.evaluate(best)
      {
        var neighbors := p.neighbors(current);
        if |neighbors| == 0 {
          break;
        }
        var next := Pick(o, r, i, neighbors);
        var nextScore := p.evaluate(next);
        var delta := nextScore - currentScore;
        if Accepts(o, r, i, delta) {
          current, currentScore := next, nextScore;
          scores := scores + [currentScore];
          if currentScore > bestScore {
            best, bestScore := current, currentScore;
          }
        }
        if p.isGoal(current) {
          return current, scores;
        }
        i := i + 1;
      }
    }
    final := best;
  }

  // ---------------------------------------------------------------------
  // Random restart
  // ---------------------------------------------------------------------

  /** Attempt `k` of the restart loop: an annealing run with that attempt's
      own random draws `oracles(k)` and the same schedule every time. */
  function AnnealRun<S>(p: Problem<S>, oracles: nat -> Oracles, rounds: nat, steps: nat): (nat, S) -> Outcome<S>
  {
    (k: nat, start: S) => AnnealOutcome(p, oracles(k), rounds, steps, start)
  }

  /** `SimulatedAnnealing.random_restart_anneal`; `generate(k)` is the state
      the restart after attempt `k` starts from. */
  method RandomRestartAnneal<S>(p: Problem<S>, oracles: nat -> Oracles, generate: nat -> S, initial: S,
                                rounds: nat, steps: nat, numRestarts: nat)
    returns (best: S, allScores: seq<int>)
    ensures Outcome(best, allScores) == Result(p, AnnealRun(p, oracles, rounds, steps), generate, initial, 0, numRestarts, initial, [])
  {
    var start := initial;
    best := initial;
    var bestScore := p.evaluate(initial);
    allScores := [];
    ghost var run := AnnealRun(p, oracles, rounds, steps);
    ghost var whole := Result(p, run, generate, initial, 0, numRestarts, initial, []);
    for k := 0 to numRestarts
      invariant whole == Result(p, run, generate, start, k, numRestarts - k, best, allScores)
      invariant bestScore == p.evaluate(best)
    {
      var currentState, scores := Anneal(p, oracles(k), start, rounds, steps);
      var currentScore := p.evaluate(currentState);
      assert run(k, start) == Outcome(currentState, scores);
      ResultStep(p, run, generate, start, k, numRestarts - k, best, allScores, Outcome(currentState, scores));
      ghost var kept := Better(p, best, currentState);
      allScores := allScores + scores;
      if currentScore > bestScore {
        best, bestScore := currentState, currentScore;
      }
      assert best == kept;
      if p.isGoal(currentState) {
        break;
      }
      start := generate(k);
    }
  }

  /** What `random_restart_anneal` promises: the returned state is the first
      of maximal score among the initial state and the attempts' results, so
      it scores at least the initial state and every attempt; the trace is
      the plain concatenation of the attempts' traces; there are at most
      `numRestarts` attempts, each an annealing run from the initial or a
      generated state, and no attempt before the last ends at a goal. */
  lemma RandomRestartAnnealOutcome<S>(p: Problem<S>, oracles: nat -> Oracles, generate: nat -> S, initial: S,
                                      rounds: nat, steps: nat, numRestarts: nat)
    ensures var run := AnnealRun(p, oracles, rounds, steps);
      var r := Result(p, run, generate, initial, 0, numRestarts, initial, []);
      var attempts := Attempts(p, run, generate, initial, 0, numRestarts);
      var candidates := [initial] + Finals(attempts);
      && r.state == candidates[ArgMax(Scores(p, candidates))]
      && r.scores == Concat(Traces(attempts))
      && p.evaluate(r.state) >= p.evaluate(initial)
      && (forall o :: o in attempts ==> p.evaluate(r.state) >= p.evaluate(o.state))
      && |attempts| <= numRestarts
      && (numRestarts > 0 ==> |attempts| > 0 && attempts[0] == AnnealOutcome(p, oracles(0), rounds, steps, initial))
      && (forall i :: 0 < i < |attempts| ==> attempts[i] == AnnealOutcome(p, oracles(i), rounds, steps, generate(i - 1)))
      && (forall i :: 0 <= i < |attempts| - 1 ==> !p.isGoal(attempts[i].state))
  {
    var run := AnnealRun(p, oracles, rounds, steps);
    var r := Result(p, run, generate, initial, 0, numRestarts, initial, []);
    var attempts := Attempts(p, run, generate, initial, 0, numRestarts);
    ResultBest(p, run, generate, initial, 0, numRestarts, initial, []);
    KeepBestIsFirstMax(p, initial, Finals(attempts));
    ResultTrace(p, run, generate, initial, 0, numRestarts, initial, []);
    assert [] + Concat(Traces(attempts)) == Concat(Traces(attempts));
    BestDominates(p, initial, attempts, r.state);
    AttemptsShape(p, run, generate, initial, 0, numRestarts);
  }
}
