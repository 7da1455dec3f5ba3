/** Lifting a step-by-step simulation between two machines to whole runs. */
module Lockstep {

  /** A machine either goes on in a new state or is done with a result. */
  datatype Progress<S, R> = More(state: S) | Done(result: R)

  /** At most n steps, stopping at the first result. */
  ghost function Iterate<S, R>(step: S -> Progress<S, R>, s: S, n: nat): (r: Progress<S, R>)
  {
    if n == 0 then More(s)
    else match step(s)
      case More(s') => Iterate(step, s', n - 1)
      case Done(r) => Done(r)
  }

  lemma {:induction false} IterateJoins<S, R>(step: S -> Progress<S, R>, s: S, j: nat, k: nat)
    ensures Iterate(step, s, j + k) == match Iterate(step, s, j)
      case More(s') => Iterate(step, s', k)
      case Done(r) => Done(r)
    decreases j
  {
    if j > 0 && step(s).More? {
      IterateJoins(step, step(s).state, j - 1, k);
    }
  }

  /** Target steps spent on n source steps, when each source state costs a fixed number of them. */
  ghost function Cost<S, R>(step: S -> Progress<S, R>, cost: S -> nat, s: S, n: nat): (k: nat)
  {
    if n == 0 then 0
    else cost(s) + match step(s)
      case More(s') => Cost(step, cost, s', n - 1)
      case Done(_) => 0
  }

  lemma {:induction false} CostBounds<S, R>(step: S -> Progress<S, R>, cost: S -> nat, s: S, n: nat)
    requires forall s' :: 1 <= cost(s') <= 2
    ensures Cost(step, cost, s, n) <= 2 * n
    ensures Iterate(step, s, n).More? ==> n <= Cost(step, cost, s, n)
    decreases n
  {
    if n > 0 && step(s).More? {
      CostBounds(step, cost, step(s).state, n - 1);
    }
  }

  /** A condition on pairs of states holds at each of the first n source steps. */
  ghost predicate Along<S, R, T, Q>(
    step: S -> Progress<S, R>, step': T -> Progress<T, Q>, cost: S -> nat, condition: (S, T) -> bool, s: S, t: T, n: nat)
    decreases n
  {
    n == 0 ||
    (condition(s, t) &&
     match (step(s), Iterate(step', t, cost(s)))
     case (More(s'), More(t')) => Along(step, step', cost, condition, s', t', n - 1)
     case _ => true)
  }

  /** Both go on in related states, or both are done with matching results. */
  ghost predicate Corresponds<S, R, T, Q>(related: (S, T) -> bool, same: (R, Q) -> bool, b: Progress<S, R>, a: Progress<T, Q>)
  {
    match (b, a)
    case (More(s), More(t)) => related(s, t)
    case (Done(r), Done(q)) => same(r, q)
    case _ => false
  }

  ghost predicate StaysRelated<S, R, T, Q>(related: (S, T) -> bool, b: Progress<S, R>, a: Progress<T, Q>)
  {
    b.More? && a.More? ==> related(b.state, a.state)
  }

  lemma {:induction false} RunsCorrespond<S, R, T, Q>(
    step: S -> Progress<S, R>, step': T -> Progress<T, Q>, cost: S -> nat,
    condition: (S, T) -> bool, related: (S, T) -> bool, same: (R, Q) -> bool, s: S, t: T, n: nat)
    requires forall s, t :: related(s, t) && condition(s, t) ==> Corresponds(related, same, step(s), Iterate(step', t, cost(s)))
    requires related(s, t) && Along(step, step', cost, condition, s, t, n)
    ensures Corresponds(related, same, Iterate(step, s, n), Iterate(step', t, Cost(step, cost, s, n)))
    decreases n
  {
    if n > 0 {
      assert Corresponds(related, same, step(s), Iterate(step', t, cost(s)));
      if step(s).More? {
        var s', t' := step(s).state, Iterate(step', t, cost(s)).state;
        RunsCorrespond(step, step', cost, condition, related, same, s', t', n - 1);
        IterateJoins(step', t, cost(s), Cost(step, cost, s', n - 1));
      }
    }
  }

  /** Conditions that are equivalent on related states, and keep states related, hold along the same runs. */
  lemma {:induction false} AlongEquivalent<S, R, T, Q>(
    step: S -> Progress<S, R>, step': T -> Progress<T, Q>, cost: S -> nat,
    condition: (S, T) -> bool, condition': (S, T) -> bool, related: (S, T) -> bool, s: S, t: T, n: nat)
    requires forall s, t :: related(s, t) ==> (condition(s, t) <==> condition'(s, t))
    requires forall s, t :: related(s, t) && condition(s, t) ==> StaysRelated(related, step(s), Iterate(step', t, cost(s)))
    requires related(s, t)
    ensures Along(step, step', cost, condition, s, t, n) <==> Along(step, step', cost, condition', s, t, n)
    decreases n
  {
    if n > 0 && condition(s, t) && StaysRelated(related, step(s), Iterate(step', t, cost(s))) && step(s).More? && Iterate(step', t, cost(s)).More? {
      AlongEquivalent(step, step', cost, condition, condition', related, step(s).state, Iterate(step', t, cost(s)).state, n - 1);
    }
  }
}
