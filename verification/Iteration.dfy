/** Repeating a step and collecting what it shows. */
module Iteration {

  function Iterate<S>(step: S -> S, s: S, n: nat): S {
    if n == 0 then s else step(Iterate(step, s, n - 1))
  }

  function Outputs<S, C>(step: S -> S, out: S -> seq<C>, s: S, n: nat): seq<C> {
    if n == 0 then [] else Outputs(step, out, s, n - 1) + out(Iterate(step, s, n - 1))
  }

  /** Steps add up. */
  lemma {:induction false} IterateSum<S>(step: S -> S, s: S, a: nat, b: nat)
    ensures Iterate(step, s, a + b) == Iterate(step, Iterate(step, s, a), b)
  {
    if b > 0 { IterateSum(step, s, a, b - 1); }
  }

  /** Where every state shows one thing, the i-th is that of the state after i steps. */
  lemma {:induction false} ShownAt<S(!new), C>(step: S -> S, out: S -> seq<C>, s: S, n: nat, i: nat)
    requires i < n && forall t :: |out(t)| == 1
    ensures |Outputs(step, out, s, n)| == n && Outputs(step, out, s, n)[i] == out(Iterate(step, s, i))[0]
  {
    if i < n - 1 {
      ShownAt(step, out, s, n - 1, i);
    } else if n > 1 {
      ShownAt(step, out, s, n - 1, 0);
    }
  }

  ghost predicate Keeps<S, C>(step: S -> S, out: S -> seq<C>, inv: (S, seq<C>, nat) -> bool, s: S, shown: seq<C>,
                              n: nat) {
    inv(s, shown, n) ==> inv(step(s), shown + out(s), n + 1)
  }

  /** An invariant of state, outputs and time holds after any number of steps. */
  lemma {:induction false} InvariantHolds<S(!new), C(!new)>(step: S -> S, out: S -> seq<C>,
                                                           inv: (S, seq<C>, nat) -> bool, s: S, n: nat)
    requires inv(s, [], 0)
    requires forall t, shown, m :: Keeps(step, out, inv, t, shown, m)
    ensures inv(Iterate(step, s, n), Outputs(step, out, s, n), n)
  {
    if n > 0 {
      InvariantHolds(step, out, inv, s, n - 1);
      assert Keeps(step, out, inv, Iterate(step, s, n - 1), Outputs(step, out, s, n - 1), n - 1);
    }
  }
}
