/** Sequences of steps of a machine. */
module Paths {
  /** A sequence of steps. */
  ghost predicate IsPath<T(!new)>(step: (T, T) -> bool, path: seq<T>) {
    |path| > 0 && forall k | 0 < k < |path| :: StepAt(step, path, k)
  }

  predicate StepAt<T>(step: (T, T) -> bool, path: seq<T>, k: nat)
    requires 0 < k < |path|
  {
    step(path[k - 1], path[k])
  }

  ghost predicate Reaches<T(!new)>(step: (T, T) -> bool, from: T, to: T) {
    exists path :: IsPath(step, path) && path[0] == from && path[|path| - 1] == to
  }

  lemma ReachesOne<T(!new)>(step: (T, T) -> bool, from: T, to: T)
    requires step(from, to)
    ensures Reaches(step, from, to)
  {
    var path := [from, to];
    assert StepAt(step, path, 1);
    assert IsPath(step, path);
  }

  lemma ReachesMore<T(!new)>(step: (T, T) -> bool, from: T, mid: T, to: T)
    requires step(from, mid) && Reaches(step, mid, to)
    ensures Reaches(step, from, to)
  {
    var rest :| IsPath(step, rest) && rest[0] == mid && rest[|rest| - 1] == to;
    var path := [from] + rest;
    forall k | 0 < k < |path| ensures StepAt(step, path, k) {
      if k > 1 { assert StepAt(step, rest, k - 1); }
    }
    assert IsPath(step, path);
  }

  /** A machine that has no choice. */
  ghost predicate Deterministic<T(!new)>(step: (T, T) -> bool) {
    forall a, b, c :: step(a, b) && step(a, c) ==> b == c
  }

  lemma {:induction false} SamePrefix<T(!new)>(step: (T, T) -> bool, p: seq<T>, q: seq<T>, k: nat)
    requires Deterministic(step) && IsPath(step, p) && IsPath(step, q) && p[0] == q[0] && k < |p| && k < |q|
    ensures p[k] == q[k]
  {
    if k > 0 {
      SamePrefix(step, p, q, k - 1);
      assert StepAt(step, p, k) && StepAt(step, q, k);
    }
  }

  /** Whatever it can reach it does reach, however long it has run. */
  lemma Inevitable<T(!new)>(step: (T, T) -> bool, to: T, path: seq<T>)
    requires Deterministic(step) && IsPath(step, path) && Reaches(step, path[0], to)
    ensures to in path || Reaches(step, path[|path| - 1], to)
  {
    var q :| IsPath(step, q) && q[0] == path[0] && q[|q| - 1] == to;
    if |q| <= |path| {
      SamePrefix(step, path, q, |q| - 1);
    } else {
      var k := |path| - 1;
      SamePrefix(step, path, q, k);
      var rest := q[k..];
      forall j | 0 < j < |rest| ensures StepAt(step, rest, j) { assert StepAt(step, q, k + j); }
      assert IsPath(step, rest);
    }
  }
}
