/**
 Reachability under an arbitrary step relation, used by the two graph walks of the static pass.
 */
module Reachability {

  /** `to` is reached from `from` in exactly `n` steps. */
  ghost predicate ReachableIn<T(!new)>(step: (T, T) -> bool, from: T, to: T, n: nat) {
    if n == 0 then from == to
    else exists mid :: step(from, mid) && ReachableIn(step, mid, to, n - 1)
  }

  ghost predicate Reachable<T(!new)>(step: (T, T) -> bool, from: T, to: T) {
    exists n: nat :: ReachableIn(step, from, to, n)
  }

  lemma {:induction false} ReachableSelf<T(!new)>(step: (T, T) -> bool, x: T)
    ensures Reachable(step, x, x)
  {
    assert ReachableIn(step, x, x, 0);
  }

  lemma {:induction false} ReachablePrepend<T(!new)>(step: (T, T) -> bool, from: T, mid: T, to: T)
    requires step(from, mid) && Reachable(step, mid, to)
    ensures Reachable(step, from, to)
  {
    var n: nat :| ReachableIn(step, mid, to, n);
    assert ReachableIn(step, from, to, n + 1);
  }

  lemma {:induction false} ReachableInAppend<T(!new)>(step: (T, T) -> bool, from: T, mid: T, to: T, n: nat)
    requires ReachableIn(step, from, mid, n) && step(mid, to)
    ensures ReachableIn(step, from, to, n + 1)
  {
    if n == 0 {
      assert ReachableIn(step, to, to, 0);
    } else {
      var next :| step(from, next) && ReachableIn(step, next, mid, n - 1);
      ReachableInAppend(step, next, mid, to, n - 1);
    }
  }

  lemma {:induction false} ReachableAppend<T(!new)>(step: (T, T) -> bool, from: T, mid: T, to: T)
    requires Reachable(step, from, mid) && step(mid, to)
    ensures Reachable(step, from, to)
  {
    var n: nat :| ReachableIn(step, from, mid, n);
    ReachableInAppend(step, from, mid, to, n);
  }

  /** A set closed under the step relation holds everything reachable from its members. */
  lemma {:induction false} ClosedHoldsReachable<T(!new)>(step: (T, T) -> bool, closed: set<T>, from: T, to: T, n: nat)
    requires forall x, y :: x in closed && step(x, y) ==> y in closed
    requires from in closed && ReachableIn(step, from, to, n)
    ensures to in closed
  {
    if n > 0 {
      var mid :| step(from, mid) && ReachableIn(step, mid, to, n - 1);
      ClosedHoldsReachable(step, closed, mid, to, n - 1);
    }
  }

  /** Relations with the same steps reach the same things. */
  lemma {:induction false} ReachableInCongruence<T(!new)>(step: (T, T) -> bool, step': (T, T) -> bool, from: T, to: T, n: nat)
    requires forall x, y :: step(x, y) ==> step'(x, y)
    requires ReachableIn(step, from, to, n)
    ensures ReachableIn(step', from, to, n)
  {
    if n > 0 {
      var mid :| step(from, mid) && ReachableIn(step, mid, to, n - 1);
      ReachableInCongruence(step, step', mid, to, n - 1);
    }
  }

  lemma {:induction false} ReachableCongruence<T(!new)>(step: (T, T) -> bool, step': (T, T) -> bool, from: T, to: T)
    requires forall x, y :: step(x, y) <==> step'(x, y)
    ensures Reachable(step, from, to) <==> Reachable(step', from, to)
  {
    if n: nat :| ReachableIn(step, from, to, n) {
      ReachableInCongruence(step, step', from, to, n);
    }
    if n: nat :| ReachableIn(step', from, to, n) {
      ReachableInCongruence(step', step, from, to, n);
    }
  }
}
