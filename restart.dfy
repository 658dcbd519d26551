/**
  The restart loop shared by `HillClimbing.random_restart` and
  `SimulatedAnnealing.random_restart_anneal`: run an inner search, keep the
  first best final state, append its trace, stop at a goal, otherwise start
  again from a fresh random state.
 */
module Restart {
  import opened Search

  /** The concatenation of a sequence of traces. */
  function Concat(ts: seq<seq<int>>): (r: seq<int>)
  {
    if ts == [] then [] else ts[0] + Concat(ts[1..])
  }

  /** The score traces of a sequence of outcomes. */
  function Traces<S>(os: seq<Outcome<S>>): (r: seq<seq<int>>)
    ensures |r| == |os|
  {
    if os == [] then [] else [os[0].scores] + Traces(os[1..])
  }

  /** The final states of a sequence of outcomes. */
  function Finals<S>(os: seq<Outcome<S>>): (r: seq<S>)
    ensures |r| == |os|
  {
    if os == [] then [] else [os[0].state] + Finals(os[1..])
  }

  /** `Traces` and `Finals` project each outcome, position by position. */
  lemma {:induction false} TracesAt<S>(os: seq<Outcome<S>>)
    ensures forall i :: 0 <= i < |os| ==> Traces(os)[i] == os[i].scores && Finals(os)[i] == os[i].state
  {
    if os != [] {
      TracesAt(os[1..]);
      assert forall i :: 1 <= i < |os| ==> os[1..][i - 1] == os[i];
    }
  }

  /** The attempts the loop makes from `start` when `k` attempts are behind
      it and at most `left` remain: `run(k, s)` is what the `k`-th inner
      search returns from `s`, and `generate(k)` the fresh random state drawn
      after it. The loop stops after the first attempt that ends at a goal. */
  function Attempts<S>(p: Problem<S>, run: (nat, S) -> Outcome<S>, generate: nat -> S, start: S, k: nat, left: nat): (os: seq<Outcome<S>>)
    decreases left
  {
    if left == 0 then []
    else
      var o := run(k, start);
      if p.isGoal(o.state) then [o]
      else [o] + Attempts(p, run, generate, generate(k), k + 1, left - 1)
  }

  /** The best-state update: a candidate replaces the best only when it scores strictly more. */
  function Better<S>(p: Problem<S>, best: S, candidate: S): (r: S)
    ensures p.evaluate(r) >= p.evaluate(best) && p.evaluate(r) >= p.evaluate(candidate)
    ensures r == best || r == candidate
    ensures p.evaluate(candidate) > p.evaluate(best) ==> r == candidate
    ensures p.evaluate(candidate) <= p.evaluate(best) ==> r == best
  {
    if p.evaluate(candidate) > p.evaluate(best) then candidate else best
  }

  /** What the loop returns when it goes on from `start`, `k` attempts in and
      `left` to go, with best state `best` and trace `trace` so far. */
  function Result<S>(p: Problem<S>, run: (nat, S) -> Outcome<S>, generate: nat -> S, start: S, k: nat, left: nat,
                     best: S, trace: seq<int>): (r: Outcome<S>)
    decreases left
  {
    if left == 0 then Outcome(best, trace)
    else
      var o := run(k, start);
      if p.isGoal(o.state) then Outcome(Better(p, best, o.state), trace + o.scores)
      else Result(p, run, generate, generate(k), k + 1, left - 1, Better(p, best, o.state), trace + o.scores)
  }

  /** One pass of the loop: the attempt `o` made from `start` either ends the
      loop at a goal or hands over to the next fresh state. */
  lemma ResultStep<S>(p: Problem<S>, run: (nat, S) -> Outcome<S>, generate: nat -> S, start: S, k: nat, left: nat,
                      best: S, trace: seq<int>, o: Outcome<S>)
    requires left > 0 && o == run(k, start)
    ensures p.isGoal(o.state) ==>
      Result(p, run, generate, start, k, left, best, trace) == Outcome(Better(p, best, o.state), trace + o.scores)
    ensures !p.isGoal(o.state) ==>
      Result(p, run, generate, start, k, left, best, trace)
      == Result(p, run, generate, generate(k), k + 1, left - 1, Better(p, best, o.state), trace + o.scores)
  {
  }

  /** Keeping the first of two leading candidates that scores the most does
      not change which candidate is the first of maximal score. */
  lemma FirstMaxCollapse<S>(p: Problem<S>, a: S, b: S, rest: seq<S>)
    ensures var c := [a, b] + rest;
      var d := [Better(p, a, b)] + rest;
      c[ArgMax(Scores(p, c))] == d[ArgMax(Scores(p, d))]
  {
    var c := [a, b] + rest;
    var d := [Better(p, a, b)] + rest;
    var zs := Scores(p, rest);
    ScoresCons(p, [a, b], rest);
    ScoresCons(p, [Better(p, a, b)], rest);
    assert Scores(p, [a, b]) == [p.evaluate(a), p.evaluate(b)];
    ArgMaxCollapse(p.evaluate(a), p.evaluate(b), zs);
    var k := ArgMax(Scores(p, c));
    if k >= 2 {
      assert d[k - 1] == rest[k - 2] == c[k];
    }
  }

  lemma ScoresCons<S>(p: Problem<S>, xs: seq<S>, ys: seq<S>)
    ensures Scores(p, xs + ys) == Scores(p, xs) + Scores(p, ys)
  {
    ScoresAt(p, xs + ys);
    ScoresAt(p, xs);
    ScoresAt(p, ys);
  }

  /** Merging the first two scores into their maximum moves the first maximum one place left, or to the front. */
  lemma ArgMaxCollapse(x0: int, x1: int, zs: seq<int>)
    ensures var k := ArgMax([x0, x1] + zs);
      var m := ArgMax([if x1 > x0 then x1 else x0] + zs);
      (k >= 2 ==> m == k - 1) && (k < 2 ==> m == 0 && (k == 1 <==> x1 > x0))
  {
    var xs := [x0, x1] + zs;
    var ys := [if x1 > x0 then x1 else x0] + zs;
    ArgMaxSpec(xs);
    var k := ArgMax(xs);
    assert xs[0] == x0 && xs[1] == x1;
    assert forall i :: 1 <= i < |ys| ==> ys[i] == xs[i + 1];
    if k >= 2 {
      ArgMaxUnique(ys, k - 1);
    } else {
      assert ys[0] >= xs[k];
      ArgMaxUnique(ys, 0);
    }
  }

  /** A single candidate is its own first maximum. */
  lemma FirstMaxSingleton<S>(p: Problem<S>, x: S)
    ensures [x][ArgMax(Scores(p, [x]))] == x
  {
  }

  /** Prepending an outcome prepends its final state and its trace. */
  lemma FinalsCons<S>(o: Outcome<S>, os: seq<Outcome<S>>)
    ensures Finals([o] + os) == [o.state] + Finals(os)
  {
    assert ([o] + os)[1..] == os;
  }

  lemma TracesCons<S>(o: Outcome<S>, os: seq<Outcome<S>>)
    ensures Concat(Traces([o] + os)) == o.scores + Concat(Traces(os))
  {
    assert ([o] + os)[1..] == os;
  }

  /** The best state after offering `candidates`, in order, to `Better`. */
  function KeepBest<S>(p: Problem<S>, best: S, candidates: seq<S>): (r: S)
  {
    if candidates == [] then best else KeepBest(p, Better(p, best, candidates[0]), candidates[1..])
  }

  /** Offering candidates one by one keeps the first candidate of maximal score. */
  lemma {:induction false} KeepBestIsFirstMax<S>(p: Problem<S>, best: S, candidates: seq<S>)
    ensures var c := [best] + candidates;
      KeepBest(p, best, candidates) == c[ArgMax(Scores(p, c))]
  {
    if candidates == [] {
      FirstMaxSingleton(p, best);
      assert [best] + candidates == [best];
    } else {
      var rest := candidates[1..];
      KeepBestIsFirstMax(p, Better(p, best, candidates[0]), rest);
      FirstMaxCollapse(p, best, candidates[0], rest);
      assert [best] + candidates == [best, candidates[0]] + rest;
    }
  }

  /** The loop keeps the best of `best` and the attempts' final states. */
  lemma {:induction false} ResultBest<S>(p: Problem<S>, run: (nat, S) -> Outcome<S>, generate: nat -> S, start: S, k: nat, left: nat,
                                        best: S, trace: seq<int>)
    decreases left
    ensures Result(p, run, generate, start, k, left, best, trace).state
         == KeepBest(p, best, Finals(Attempts(p, run, generate, start, k, left)))
  {
    if left > 0 {
      var o := run(k, start);
      var rest := if p.isGoal(o.state) then [] else Attempts(p, run, generate, generate(k), k + 1, left - 1);
      assert Attempts(p, run, generate, start, k, left) == [o] + rest;
      FinalsCons(o, rest);
      assert ([o.state] + Finals(rest))[1..] == Finals(rest);
      if !p.isGoal(o.state) {
        ResultBest(p, run, generate, generate(k), k + 1, left - 1, Better(p, best, o.state), trace + o.scores);
      }
    }
  }

  /** The loop returns the trace so far followed by every attempt's trace. */
  lemma {:induction false} ResultTrace<S>(p: Problem<S>, run: (nat, S) -> Outcome<S>, generate: nat -> S, start: S, k: nat, left: nat,
                                         best: S, trace: seq<int>)
    decreases left
    ensures Result(p, run, generate, start, k, left, best, trace).scores
         == trace + Concat(Traces(Attempts(p, run, generate, start, k, left)))
  {
    if left > 0 {
      var o := run(k, start);
      ResultStep(p, run, generate, start, k, left, best, trace, o);
      var rest := if p.isGoal(o.state) then [] else Attempts(p, run, generate, generate(k), k + 1, left - 1);
      AttemptsStep(p, run, generate, start, k, left, o);
      TracesCons(o, rest);
      if !p.isGoal(o.state) {
        ResultTrace(p, run, generate, generate(k), k + 1, left - 1, Better(p, best, o.state), trace + o.scores);
        AppendAssoc(trace, o.scores, Concat(Traces(rest)));
      } else {
        TracesCons(o, []);
        AppendAssoc(trace, o.scores, []);
      }
    } else {
      AppendAssoc(trace, [], []);
    }
  }

  /** One attempt, followed by the rest unless it ended at a goal. */
  lemma AttemptsStep<S>(p: Problem<S>, run: (nat, S) -> Outcome<S>, generate: nat -> S, start: S, k: nat, left: nat, o: Outcome<S>)
    requires left > 0 && o == run(k, start)
    ensures Attempts(p, run, generate, start, k, left)
         == [o] + (if p.isGoal(o.state) then [] else Attempts(p, run, generate, generate(k), k + 1, left - 1))
  {
  }

  lemma AppendAssoc(a: seq<int>, b: seq<int>, c: seq<int>)
    ensures (a + b) + c == a + (b + c) && a + [] == a
  {
  }

  /** The first candidate of maximal score is at least as good as the
      first candidate and as every attempt's final state. */
  lemma BestDominates<S>(p: Problem<S>, initial: S, attempts: seq<Outcome<S>>, best: S)
    requires var c := [initial] + Finals(attempts); best == c[ArgMax(Scores(p, c))]
    ensures p.evaluate(best) >= p.evaluate(initial)
    ensures forall o :: o in attempts ==> p.evaluate(best) >= p.evaluate(o.state)
  {
    var c := [initial] + Finals(attempts);
    TracesAt(attempts);
    ScoresAt(p, c);
    ArgMaxSpec(Scores(p, c));
    forall o | o in attempts ensures p.evaluate(best) >= p.evaluate(o.state) {
      var i :| 0 <= i < |attempts| && attempts[i] == o;
      assert c[i + 1] == o.state;
      assert Scores(p, c)[i + 1] == p.evaluate(o.state);
    }
    assert Scores(p, c)[0] == p.evaluate(initial);
  }

  /** There are at most `left` attempts; the first runs from `start` and each
      later one from the next fresh state; only the last attempt may end at a
      goal, and fewer than `left` attempts means the last one did. */
  lemma {:induction false} AttemptsShape<S>(p: Problem<S>, run: (nat, S) -> Outcome<S>, generate: nat -> S, start: S, k: nat, left: nat)
    decreases left
    ensures var os := Attempts(p, run, generate, start, k, left);
      && |os| <= left
      && (left > 0 ==> |os| > 0 && os[0] == run(k, start))
      && (forall i :: 0 < i < |os| ==> os[i] == run(k + i, generate(k + i - 1)))
      && (forall i :: 0 <= i < |os| - 1 ==> !p.isGoal(os[i].state))
      && (|os| < left ==> p.isGoal(Last(os).state))
  {
    if left > 0 {
      var o := run(k, start);
      if !p.isGoal(o.state) {
        var os := Attempts(p, run, generate, start, k, left);
        var rest := Attempts(p, run, generate, generate(k), k + 1, left - 1);
        AttemptsShape(p, run, generate, generate(k), k + 1, left - 1);
        forall i | 0 < i < |os| ensures os[i] == run(k + i, generate(k + i - 1)) {
          assert os[i] == rest[i - 1];
        }
        forall i | 0 < i < |os| - 1 ensures !p.isGoal(os[i].state) {
          assert os[i] == rest[i - 1];
        }
      }
    }
  }
}
