/**
  The outer loop of value iteration: sweep after sweep from all-zero tables
  until a sweep's largest change falls below `theta`. The source loops
  without bound; here a `fuel` count of sweeps bounds it and `None` reports
  that the fuel ran out first.
 */
module Solver {
  import opened Grid
  import opened Tables
  import opened Sweep
  import opened Maybe

  /** `np.zeros` for both tables. */
  function Initial(env: Env): (s: State)
    ensures Shaped(env, s)
    ensures forall p :: InGrid(env, p) ==> At(s.values, p) == 0.0 && At(s.policy, p) == 0
  {
    State(Filled(env, 0.0), Filled(env, 0), 0.0)
  }

  /** The state after `k` sweeps from `s`. */
  function Sweeps(env: Env, gamma: real, s: State, k: nat): (r: State)
    requires Shaped(env, s)
    ensures Shaped(env, r)
    decreases k
  {
    if k == 0 then s
    else Sweeps(env, gamma, FullSweep(env, gamma, s.values, s.policy), k - 1)
  }

  /** Sweep `k + 1` is one more sweep of the tables sweep `k` left behind. */
  lemma {:induction false} SweepsOneMore(env: Env, gamma: real, s: State, k: nat)
    requires Shaped(env, s)
    ensures Sweeps(env, gamma, s, k + 1)
            == FullSweep(env, gamma, Sweeps(env, gamma, s, k).values, Sweeps(env, gamma, s, k).policy)
    decreases k
  {
    hide FullSweep;
    if k > 0 {
      SweepsOneMore(env, gamma, FullSweep(env, gamma, s.values, s.policy), k - 1);
    }
  }

  /** Sweep `k` (k >= 1) is the first whose `delta` is below `theta`. */
  ghost predicate StopsAt(env: Env, gamma: real, theta: real, s: State, k: nat)
    requires Shaped(env, s)
  {
    && k >= 1
    && Sweeps(env, gamma, s, k).delta < theta
    && forall j :: 1 <= j < k ==> Sweeps(env, gamma, s, j).delta >= theta
  }

  /** The `while True` loop, given at most `fuel` sweeps. */
  function Iterate(env: Env, gamma: real, theta: real, s: State, fuel: nat): (r: Option<State>)
    requires Shaped(env, s)
    ensures r.Some? ==> Shaped(env, r.value) && r.value.delta < theta
    decreases fuel
  {
    if fuel == 0 then None
    else
      var next := FullSweep(env, gamma, s.values, s.policy);
      if next.delta < theta then Some(next)
      else Iterate(env, gamma, theta, next, fuel - 1)
  }

  /**
    The loop returns the tables of the FIRST sweep whose `delta` is below
    `theta`, and reports `None` exactly when none of the first `fuel` sweeps
    got there.
   */
  lemma {:induction false} IterateStopsAtFirstConvergedSweep(env: Env, gamma: real, theta: real, s: State, fuel: nat)
    requires Shaped(env, s)
    ensures Iterate(env, gamma, theta, s, fuel).Some? ==>
              exists k: nat :: k <= fuel && StopsAt(env, gamma, theta, s, k)
                          && Iterate(env, gamma, theta, s, fuel).value == Sweeps(env, gamma, s, k)
    ensures Iterate(env, gamma, theta, s, fuel).None? ==>
              forall k :: 1 <= k <= fuel ==> Sweeps(env, gamma, s, k).delta >= theta
    decreases fuel
  {
    if fuel > 0 {
      var next := FullSweep(env, gamma, s.values, s.policy);
      assert Sweeps(env, gamma, s, 1) == next;
      if next.delta < theta {
        assert StopsAt(env, gamma, theta, s, 1);
      } else {
        IterateStopsAtFirstConvergedSweep(env, gamma, theta, next, fuel - 1);
        forall k | 1 <= k <= fuel
          ensures Sweeps(env, gamma, s, k) == Sweeps(env, gamma, next, k - 1)
        {
        }
        if Iterate(env, gamma, theta, next, fuel - 1).Some? {
          var k': nat :| k' <= fuel - 1 && StopsAt(env, gamma, theta, next, k')
                    && Iterate(env, gamma, theta, next, fuel - 1).value == Sweeps(env, gamma, next, k');
          forall j | 1 <= j < k' + 1
            ensures Sweeps(env, gamma, s, j).delta >= theta
          {
            if j > 1 {
              assert Sweeps(env, gamma, s, j) == Sweeps(env, gamma, next, j - 1);
            }
          }
          assert StopsAt(env, gamma, theta, s, k' + 1);
        }
      }
    }
  }

  /**
    What every sweep keeps true of the tables: the goal and the walls hold
    value 0 and policy entry 0, and every policy entry is an action code.
   */
  ghost predicate Invariant(env: Env, s: State) {
    && Shaped(env, s)
    && (forall c :: InGrid(env, c) ==> IsAction(At(s.policy, c)))
    && forall c :: InGrid(env, c) && Terminal(env, c) ==> At(s.values, c) == 0.0 && At(s.policy, c) == 0
  }

  lemma SweepKeepsInvariant(env: Env, gamma: real, s: State)
    requires Invariant(env, s)
    ensures Invariant(env, FullSweep(env, gamma, s.values, s.policy))
  {
    var r := FullSweep(env, gamma, s.values, s.policy);
    forall c | InGrid(env, c)
      ensures IsAction(At(r.policy, c))
      ensures Terminal(env, c) ==> At(r.values, c) == 0.0 && At(r.policy, c) == 0
    {
      SweepOutcome(env, gamma, s.values, s.policy, c);
    }
  }

  lemma {:induction false} IterateKeepsInvariant(env: Env, gamma: real, theta: real, s: State, fuel: nat)
    requires Invariant(env, s)
    ensures Iterate(env, gamma, theta, s, fuel).Some? ==> Invariant(env, Iterate(env, gamma, theta, s, fuel).value)
    decreases fuel
  {
    hide FullSweep;
    if fuel > 0 {
      SweepKeepsInvariant(env, gamma, s);
      IterateKeepsInvariant(env, gamma, theta, FullSweep(env, gamma, s.values, s.policy), fuel - 1);
    }
  }

  /**
    `value_iteration`: sweeps from all-zero tables until one sweep changes no
    cell by `theta` or more. What it returns passed that test, never wrote
    the goal or a wall, and holds an action code in every policy entry.
   */
  function ValueIteration(env: Env, gamma: real, theta: real, fuel: nat): (r: Option<State>)
    ensures r.Some? ==> Invariant(env, r.value) && r.value.delta < theta
  {
    IterateKeepsInvariant(env, gamma, theta, Initial(env), fuel);
    Iterate(env, gamma, theta, Initial(env), fuel)
  }

  /**
    `value_iteration` as the source writes it: zero tables, then sweep
    after sweep until `delta < theta`, with `fuel` bounding the sweeps.
    It computes exactly `ValueIteration`.
   */
  method RunValueIteration(env: Env, gamma: real, theta: real, fuel: nat) returns (r: Option<State>)
    ensures r == ValueIteration(env, gamma, theta, fuel)
  {
    hide FullSweep;
    var values := Filled(env, 0.0);
    var policy := Filled(env, 0);
    ghost var cur := Initial(env);
    var left := fuel;
    while left > 0
      invariant Shaped(env, cur) && cur.values == values && cur.policy == policy
      invariant ValueIteration(env, gamma, theta, fuel) == Iterate(env, gamma, theta, cur, left)
    {
      var delta;
      values, policy, delta := RunSweep(env, gamma, values, policy);
      if delta < theta {
        return Some(State(values, policy, delta));
      }
      cur := State(values, policy, delta);
      left := left - 1;
    }
    return None;
  }
}
