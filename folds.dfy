/** What a traversal does to the procedure or predicate it is handed.

    HPPC's procedures and predicates are objects with state: `apply` may update
    fields (a counter, a sum, a builder) before the traversal returns the same
    object to the caller. Here such an object is a state `S` together with a
    step function from the state and the visited element to the next state
    (for a predicate, also the answer "continue?"). */
module Folds {

  /** The state after `step` has been applied to every element of `xs`, front to
      back, starting from `s0` (a traversal with a procedure). */
  function Fold<T, S>(xs: seq<T>, step: (S, T) -> S, s0: S): S
    decreases |xs|
  {
    if xs == [] then s0 else step(Fold(xs[..|xs| - 1], step, s0), xs[|xs| - 1])
  }

  /** A traversal with a predicate, from position `i` on: the step is applied
      to `xs[i]`, `xs[i + 1]`, ... while it answers true, and the traversal stops
      right after the first element it answers false for. The result is the
      final state and the position after the last element visited. */
  function RunWhile<T, S>(xs: seq<T>, i: nat, step: (S, T) -> (S, bool), s: S): (S, nat)
    requires i <= |xs|
    decreases |xs| - i
  {
    if i == |xs| then (s, i)
    else
      var (s', go) := step(s, xs[i]);
      if go then RunWhile(xs, i + 1, step, s') else (s', i + 1)
  }

  /** The state part of a predicate's step, ignoring its answer. */
  function StateStep<T, S>(step: (S, T) -> (S, bool)): (S, T) -> S {
    (s: S, x: T) => step(s, x).0
  }

  /** Whether the predicate, run over `xs[..k]` without stopping, answers
      true ("continue") at `xs[k]`. */
  predicate ContinuesAt<T, S>(xs: seq<T>, step: (S, T) -> (S, bool), s0: S, k: nat)
    requires k < |xs|
  {
    step(Fold(xs[..k], StateStep(step), s0), xs[k]).1
  }

  lemma {:induction false} FoldSnoc<T, S>(xs: seq<T>, k: nat, step: (S, T) -> S, s0: S)
    requires k < |xs|
    ensures Fold(xs[..k + 1], step, s0) == step(Fold(xs[..k], step, s0), xs[k])
  {
    assert xs[..k + 1][..k] == xs[..k];
  }

  /** A predicate traversal visits a prefix of `xs`: it continues at every
      element but the last one visited, and when it stops early it is because
      the predicate answered false at that last element. The state it ends in
      is that of the procedure traversal over the visited prefix. */
  lemma {:induction false} RunWhileStopsAtFirstFalse<T, S>(xs: seq<T>, step: (S, T) -> (S, bool), s0: S)
    ensures var (s, n) := RunWhile(xs, 0, step, s0);
      && n <= |xs|
      && (n == 0 <==> xs == [])
      && s == Fold(xs[..n], StateStep(step), s0)
      && (forall k :: 0 <= k < n - 1 ==> ContinuesAt(xs, step, s0, k))
      && (n < |xs| ==> !ContinuesAt(xs, step, s0, n - 1))
  {
    assert xs[..0] == [];
    RunWhileFrom(xs, 0, step, s0, s0);
  }

  lemma {:induction false} RunWhileFrom<T, S>(xs: seq<T>, i: nat, step: (S, T) -> (S, bool), s0: S, s: S)
    requires i <= |xs|
    requires s == Fold(xs[..i], StateStep(step), s0)
    requires forall k :: 0 <= k < i ==> ContinuesAt(xs, step, s0, k)
    ensures var (s', n) := RunWhile(xs, i, step, s);
      && i <= n <= |xs|
      && (n == i ==> i == |xs|)
      && s' == Fold(xs[..n], StateStep(step), s0)
      && (forall k :: 0 <= k < n - 1 ==> ContinuesAt(xs, step, s0, k))
      && (n < |xs| ==> !ContinuesAt(xs, step, s0, n - 1))
    decreases |xs| - i
  {
    if i < |xs| {
      FoldSnoc(xs, i, StateStep(step), s0);
      var (s1, go) := step(s, xs[i]);
      if go {
        RunWhileFrom(xs, i + 1, step, s0, s1);
      }
    }
  }

  /** Two procedure traversals agree when their steps agree element by element:
      this is how a traversal of keys (or values) is reduced to the traversal
      of entries it delegates to. */
  lemma {:induction false} FoldCorrespondence<T, U, S>(xs: seq<T>, ys: seq<U>, f: (S, T) -> S, g: (S, U) -> S, s0: S)
    requires |xs| == |ys|
    requires forall s, i :: 0 <= i < |xs| ==> f(s, xs[i]) == g(s, ys[i])
    ensures Fold(xs, f, s0) == Fold(ys, g, s0)
    decreases |xs|
  {
    if xs != [] {
      var n := |xs| - 1;
      assert forall i :: 0 <= i < n ==> xs[..n][i] == xs[i] && ys[..n][i] == ys[i];
      FoldCorrespondence(xs[..n], ys[..n], f, g, s0);
    }
  }

  /** The same for predicate traversals. */
  lemma {:induction false} RunWhileCorrespondence<T, U, S>(xs: seq<T>, ys: seq<U>, i: nat, f: (S, T) -> (S, bool), g: (S, U) -> (S, bool), s: S)
    requires |xs| == |ys| && i <= |xs|
    requires forall s, j :: 0 <= j < |xs| ==> f(s, xs[j]) == g(s, ys[j])
    ensures RunWhile(xs, i, f, s) == RunWhile(ys, i, g, s)
    decreases |xs| - i
  {
    if i < |xs| {
      var (s1, go) := f(s, xs[i]);
      if go {
        RunWhileCorrespondence(xs, ys, i + 1, f, g, s1);
      }
    }
  }
}
