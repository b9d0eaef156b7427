/**
 Loops that the source does not bound.  `Iterate` runs a loop body for at most `fuel`
 iterations; lemma `MoreFuel` makes every other outcome than Timeout independent of that budget.
 */
module Loops {
  import opened Words

  /** What one iteration decides: go on from a state, or leave the loop with a result. */
  datatype Control<+S, +V> = Next(state: S) | Done(result: V)

  function Iterate<S, V>(body: S -> Outcome<Control<S, V>>, s: S, fuel: nat): Outcome<V>
    decreases fuel
  {
    if fuel == 0 then Timeout
    else
      var control :- body(s);
      match control
      case Done(v) => Ok(v)
      case Next(t) => Iterate(body, t, fuel - 1)
  }

  /** Either the budget ran out, or no larger one makes a difference. */
  predicate Settles<T(==)>(small: Outcome<T>, large: Outcome<T>) {
    small.Timeout? || large == small
  }

  /** A loop that did not use up its budget has the same outcome with any larger one. */
  lemma {:induction false} MoreFuel<S, V>(body: S -> Outcome<Control<S, V>>, s: S, fuel: nat, more: nat)
    requires fuel <= more && !Iterate(body, s, fuel).Timeout?
    ensures Iterate(body, s, more) == Iterate(body, s, fuel)
    decreases fuel
  {
    if body(s).Ok? && body(s).value.Next? {
      MoreFuel(body, body(s).value.state, fuel - 1, more - 1);
    }
  }

  /** How the loop goes on from the outcome of an iteration. */
  function Resume<S, V>(body: S -> Outcome<Control<S, V>>, r: Outcome<Control<S, V>>, fuel: nat): Outcome<V> {
    var control :- r;
    match control
    case Done(v) => Ok(v)
    case Next(t) => Iterate(body, t, fuel)
  }

  /** The first n iterations from s come to r, whatever budget is left then. */
  ghost predicate Leads<S, V>(body: S -> Outcome<Control<S, V>>, s: S, n: nat, r: Outcome<Control<S, V>>) {
    forall fuel: nat :: Iterate(body, s, n + fuel) == Resume(body, r, fuel)
  }

  lemma {:induction false} OneIteration<S, V>(body: S -> Outcome<Control<S, V>>, s: S)
    ensures Leads(body, s, 1, body(s))
  {
  }

  lemma {:induction false} LeadsOn<S, V>(body: S -> Outcome<Control<S, V>>, s: S, n: nat, middle: S, k: nat,
                                         r: Outcome<Control<S, V>>)
    requires Leads(body, s, n, Ok(Next(middle))) && Leads(body, middle, k, r)
    ensures Leads(body, s, n + k, r)
  {
    forall fuel: nat
      ensures Iterate(body, s, n + k + fuel) == Resume(body, r, fuel)
    {
      assert Iterate(body, s, n + (k + fuel)) == Resume(body, Ok(Next(middle)), k + fuel);
    }
  }

  /** A failure is final. */
  lemma {:induction false} LeadsToFailure<S, V>(body: S -> Outcome<Control<S, V>>, s: S, n: nat, k: nat,
                                                r: Outcome<Control<S, V>>)
    requires !r.Ok? && Leads(body, s, n, r)
    ensures Leads(body, s, n + k, r)
  {
    forall fuel: nat
      ensures Iterate(body, s, n + k + fuel) == Resume(body, r, fuel)
    {
      assert Iterate(body, s, n + (k + fuel)) == Resume(body, r, k + fuel);
    }
  }
}
