/**
  The capability set every searchable problem provides (the abstract base
  class `HillClimbingProblem`), and the vocabulary shared by both search
  engines: score traces, the first maximal element, paths of neighbour steps.
 */
module Search {

  /** A problem family seen through the three calls the engines make:
      `get_neighbors`, `evaluate` and `is_goal`. Scores are integers, as
      both fixtures compute them. */
  datatype Problem<!S> = Problem(neighbors: S -> seq<S>, evaluate: S -> int, isGoal: S -> bool)

  /** What every engine entry point returns: `(state, score_trace)`. */
  datatype Outcome<S> = Outcome(state: S, scores: seq<int>)

  function Last<T>(s: seq<T>): (x: T)
    requires |s| > 0
  {
    s[|s| - 1]
  }

  /** The score of each state, in order. */
  function Scores<S>(p: Problem<S>, states: seq<S>): (r: seq<int>)
    ensures |r| == |states|
  {
    if states == [] then [] else [p.evaluate(states[0])] + Scores(p, states[1..])
  }

  /** Position `i` of the trace is the score of the `i`-th state. */
  lemma {:induction false} ScoresAt<S>(p: Problem<S>, states: seq<S>)
    ensures forall i :: 0 <= i < |states| ==> Scores(p, states)[i] == p.evaluate(states[i])
  {
    if states != [] {
      ScoresAt(p, states[1..]);
      assert forall i :: 1 <= i < |states| ==> states[1..][i - 1] == states[i];
    }
  }

  lemma ScoresAppend<S>(p: Problem<S>, states: seq<S>, x: S)
    ensures Scores(p, states + [x]) == Scores(p, states) + [p.evaluate(x)]
  {
    ScoresAt(p, states + [x]);
    ScoresAt(p, states);
    assert forall i :: 0 <= i < |states| ==> (states + [x])[i] == states[i];
  }

  /** The index of the first maximal element, which is what Python's
      `max(..., key=...)` selects among ties. */
  function ArgMax(xs: seq<int>): (k: nat)
    requires |xs| > 0
    ensures k < |xs|
  {
    if |xs| == 1 then 0
    else
      var k := ArgMax(xs[..|xs| - 1]);
      if xs[|xs| - 1] > xs[k] then |xs| - 1 else k
  }

  /** `ArgMax` picks a maximal element, and every element before it is strictly smaller. */
  lemma {:induction false} ArgMaxSpec(xs: seq<int>)
    requires |xs| > 0
    ensures forall j :: 0 <= j < |xs| ==> xs[j] <= xs[ArgMax(xs)]
    ensures forall j :: 0 <= j < ArgMax(xs) ==> xs[j] < xs[ArgMax(xs)]
  {
    if |xs| > 1 {
      var ys := xs[..|xs| - 1];
      ArgMaxSpec(ys);
      assert forall j :: 0 <= j < |ys| ==> ys[j] == xs[j];
    }
  }

  /** The first maximal index is the only index that is maximal with every earlier element strictly smaller. */
  lemma ArgMaxUnique(xs: seq<int>, k: nat)
    requires k < |xs|
    requires forall j :: 0 <= j < |xs| ==> xs[j] <= xs[k]
    requires forall j :: 0 <= j < k ==> xs[j] < xs[k]
    ensures ArgMax(xs) == k
  {
    ArgMaxSpec(xs);
  }

  predicate StrictlyIncreasing(t: seq<int>)
  {
    forall i, j :: 0 <= i < j < |t| ==> t[i] < t[j]
  }

  predicate NonDecreasing(t: seq<int>)
  {
    forall i, j :: 0 <= i < j < |t| ==> t[i] <= t[j]
  }

  /** Every state after the first is one of its predecessor's neighbours. */
  ghost predicate IsPath<S>(p: Problem<S>, states: seq<S>)
  {
    forall k :: 0 <= k < |states| - 1 ==> states[k + 1] in p.neighbors(states[k])
  }

  /** A path extended at the front by a state the old first state neighbours. */
  lemma PathCons<S>(p: Problem<S>, a: S, xs: seq<S>)
    requires IsPath(p, xs)
    requires xs != [] ==> xs[0] in p.neighbors(a)
    ensures IsPath(p, [a] + xs)
  {
    forall k | 1 <= k < |xs|
      ensures ([a] + xs)[k + 1] in p.neighbors(([a] + xs)[k])
    {
      assert ([a] + xs)[k] == xs[k - 1] && ([a] + xs)[k + 1] == xs[k];
    }
  }

  /** No neighbour scores strictly higher (vacuously true at a dead end). */
  ghost predicate LocalMaximum<S>(p: Problem<S>, s: S)
  {
    forall n :: n in p.neighbors(s) ==> p.evaluate(n) <= p.evaluate(s)
  }

  /** Every neighbour scores strictly lower (vacuously true at a dead end). */
  ghost predicate StrictLocalMaximum<S>(p: Problem<S>, s: S)
  {
    forall n :: n in p.neighbors(s) ==> p.evaluate(n) < p.evaluate(s)
  }
}
