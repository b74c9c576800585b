/**
  What the solved tables look like: values never exceed the goal reward when
  0 <= gamma <= 1, a cell next to the goal is solved exactly (value 10, the
  first action that enters the goal), and a start cell shut in by walls keeps
  every sweep's `delta` at 1 or more when gamma = 1, so the loop never stops.
 */
module Results {
  import opened Grid
  import opened Tables
  import opened Sweep
  import opened Solver
  import opened Maybe

  /** No cell of `values` exceeds the goal reward. */
  ghost predicate Capped(env: Env, values: seq<seq<real>>)
    requires Fits(env, values)
  {
    forall c :: InGrid(env, c) ==> At(values, c) <= GoalReward as real
  }

  /** A table a sweep may start from: the goal holds 0 and nothing exceeds the goal reward. */
  ghost predicate Ready(env: Env, s0: State)
    requires ValidEnv(env)
  {
    Shaped(env, s0) && At(s0.values, Goal(env)) == 0.0 && Capped(env, s0.values)
  }

  /** The goal is the last cell visited, so every visit reads its starting value. */
  lemma GoalReadsStart(env: Env, gamma: real, s0: State, p: Pos)
    requires ValidEnv(env) && Shaped(env, s0) && InGrid(env, p)
    ensures At(Before(env, gamma, s0, p).values, Goal(env)) == At(s0.values, Goal(env))
  {
    GaussSeidelRead(env, gamma, s0, p, Goal(env));
  }

  lemma ScaleBelow(gamma: real, v: real)
    requires 0.0 <= gamma <= 1.0 && v <= 10.0
    ensures gamma * v <= 10.0
  {
    if v >= 0.0 {
      assert gamma * v <= 1.0 * v;
    } else {
      assert gamma * v <= 0.0;
    }
  }

  /**
    A greedy update against a capped table whose goal holds 0 is at most 10:
    entering the goal earns 10 plus gamma times 0, any other move earns -1
    plus gamma times a value that is itself at most 10.
   */
  lemma GreedyCapped(env: Env, gamma: real, values: seq<seq<real>>, c: Pos, v: real, a: int)
    requires ValidEnv(env) && 0.0 <= gamma <= 1.0 && Fits(env, values) && InGrid(env, c)
    requires Capped(env, values) && At(values, Goal(env)) == 0.0
    requires GreedyUpdate(env, gamma, values, c, v, a)
    ensures v <= GoalReward as real
  {
    ScaleBelow(gamma, At(values, Move(env, a, c)));
  }

  /**
    Against such a table, a cell from which action `b` enters the goal is
    updated to exactly 10, and the greedy action is the first that enters the goal.
   */
  lemma GreedyNextToGoal(env: Env, gamma: real, values: seq<seq<real>>, c: Pos, v: real, a: int, b: int)
    requires ValidEnv(env) && 0.0 <= gamma <= 1.0 && Fits(env, values) && InGrid(env, c)
    requires Capped(env, values) && At(values, Goal(env)) == 0.0
    requires GreedyUpdate(env, gamma, values, c, v, a)
    requires IsAction(b) && Move(env, b, c) == Goal(env)
    ensures v == GoalReward as real && Move(env, a, c) == Goal(env) && a <= b
  {
    assert QValue(env, gamma, values, c, b) == 10.0;
    ScaleBelow(gamma, At(values, Move(env, a, c)));
  }

  /** A visit writes at most 10 into its cell. */
  lemma {:induction false} VisitedCapped(env: Env, gamma: real, s0: State, c: Pos)
    requires ValidEnv(env) && 0.0 <= gamma <= 1.0 && Ready(env, s0) && InGrid(env, c)
    ensures At(After(env, gamma, s0, c).values, c) <= GoalReward as real
    decreases c.row, c.col, 1
  {
    hide Before, UpdateCell, GreedyUpdate;
    var b := Before(env, gamma, s0, c);
    if Terminal(env, c) {
      GaussSeidelRead(env, gamma, s0, c, c);
    } else {
      forall q | InGrid(env, q)
        ensures At(b.values, q) <= GoalReward as real
      {
        BeforeCapped(env, gamma, s0, c, q);
      }
      GoalReadsStart(env, gamma, s0, c);
      UpdateCellIsGreedy(env, gamma, b, c);
      var r := UpdateCell(env, gamma, b, c);
      GreedyCapped(env, gamma, b.values, c, At(r.values, c), At(r.policy, c));
    }
  }

  /** Every value a visit can read is at most 10. */
  lemma {:induction false} BeforeCapped(env: Env, gamma: real, s0: State, p: Pos, q: Pos)
    requires ValidEnv(env) && 0.0 <= gamma <= 1.0 && Ready(env, s0) && InGrid(env, p) && InGrid(env, q)
    ensures At(Before(env, gamma, s0, p).values, q) <= GoalReward as real
    decreases p.row, p.col, 0
  {
    hide Before, After, UpdateCell;
    GaussSeidelRead(env, gamma, s0, p, q);
    if Precedes(q, p) {
      VisitedCapped(env, gamma, s0, q);
    }
  }

  /** Every table a sweep from a ready table reads is capped. */
  lemma BeforeAllCapped(env: Env, gamma: real, s0: State, p: Pos)
    requires ValidEnv(env) && 0.0 <= gamma <= 1.0 && Ready(env, s0) && InGrid(env, p)
    ensures Capped(env, Before(env, gamma, s0, p).values)
    ensures At(Before(env, gamma, s0, p).values, Goal(env)) == 0.0
  {
    hide Before;
    forall q | InGrid(env, q)
      ensures At(Before(env, gamma, s0, p).values, q) <= GoalReward as real
    {
      BeforeCapped(env, gamma, s0, p, q);
    }
    GoalReadsStart(env, gamma, s0, p);
  }

  /** A sweep from a table that respects the cap produces one that does. */
  lemma SweepKeepsCap(env: Env, gamma: real, s: State)
    requires ValidEnv(env) && 0.0 <= gamma <= 1.0 && Invariant(env, s) && Capped(env, s.values)
    ensures Capped(env, FullSweep(env, gamma, s.values, s.policy).values)
  {
    var s0 := State(s.values, s.policy, 0.0);
    forall c | InGrid(env, c)
      ensures At(FullSweep(env, gamma, s.values, s.policy).values, c) <= GoalReward as real
    {
      RowsKeepVisited(env, gamma, s0, env.size, c);
      VisitedCapped(env, gamma, s0, c);
    }
  }

  /**
    In a sweep from a capped table with goal value 0, a non-terminal cell
    from which some action enters the goal gets value 10 and the first
    action that enters the goal.
   */
  lemma SweepNextToGoal(env: Env, gamma: real, s: State, c: Pos, a: int)
    requires ValidEnv(env) && 0.0 <= gamma <= 1.0 && Invariant(env, s) && Capped(env, s.values)
    requires InGrid(env, c) && !Terminal(env, c) && IsAction(a) && Move(env, a, c) == Goal(env)
    ensures var r := FullSweep(env, gamma, s.values, s.policy);
            && At(r.values, c) == GoalReward as real
            && Move(env, At(r.policy, c), c) == Goal(env)
            && At(r.policy, c) <= a
  {
    hide Before, FullSweep, GreedyUpdate, Capped;
    var s0 := State(s.values, s.policy, 0.0);
    var r := FullSweep(env, gamma, s.values, s.policy);
    SweepOutcome(env, gamma, s.values, s.policy, c);
    assert Ready(env, s0);
    BeforeAllCapped(env, gamma, s0, c);
    GreedyNextToGoal(env, gamma, Before(env, gamma, s0, c).values, c, At(r.values, c), At(r.policy, c), a);
  }

  /** The tables the outer loop returns come from one sweep of a capped, invariant table. */
  lemma {:induction false} IterateEndsWithCappedSweep(env: Env, gamma: real, theta: real, s: State, fuel: nat)
    returns (prev: State)
    requires ValidEnv(env) && 0.0 <= gamma <= 1.0 && Invariant(env, s) && Capped(env, s.values)
    ensures Iterate(env, gamma, theta, s, fuel).Some? ==>
              && Invariant(env, prev) && Capped(env, prev.values)
              && Iterate(env, gamma, theta, s, fuel).value == FullSweep(env, gamma, prev.values, prev.policy)
    decreases fuel
  {
    hide FullSweep;
    prev := s;
    if fuel > 0 {
      var next := FullSweep(env, gamma, s.values, s.policy);
      if next.delta >= theta {
        SweepKeepsInvariant(env, gamma, s);
        SweepKeepsCap(env, gamma, s);
        prev := IterateEndsWithCappedSweep(env, gamma, theta, next, fuel - 1);
      }
    }
  }

  /** With 0 <= gamma <= 1, no value the solver returns exceeds the goal reward. */
  lemma ValueIterationCapped(env: Env, gamma: real, theta: real, fuel: nat)
    requires ValidEnv(env) && 0.0 <= gamma <= 1.0
    ensures ValueIteration(env, gamma, theta, fuel).Some? ==>
              Capped(env, ValueIteration(env, gamma, theta, fuel).value.values)
  {
    var prev := IterateEndsWithCappedSweep(env, gamma, theta, Initial(env), fuel);
    if ValueIteration(env, gamma, theta, fuel).Some? {
      SweepKeepsCap(env, gamma, prev);
    }
  }

  /**
    In the solved tables, a non-terminal cell next to the goal has value 10
    and its policy entry is the first action that enters the goal.
   */
  lemma SolvedNextToGoal(env: Env, gamma: real, theta: real, fuel: nat, c: Pos, a: int)
    requires ValidEnv(env) && 0.0 <= gamma <= 1.0 && ValueIteration(env, gamma, theta, fuel).Some?
    requires InGrid(env, c) && !Terminal(env, c) && IsAction(a) && Move(env, a, c) == Goal(env)
    ensures var r := ValueIteration(env, gamma, theta, fuel).value;
            && At(r.values, c) == GoalReward as real
            && Move(env, At(r.policy, c), c) == Goal(env)
            && At(r.policy, c) <= a
  {
    var prev := IterateEndsWithCappedSweep(env, gamma, theta, Initial(env), fuel);
    SweepNextToGoal(env, gamma, prev, c, a);
  }

  /**
    The 3x3 board without walls, gamma = 0.9: whenever the loop stops, the
    two cells beside the goal hold 10, (2,1) points Right and (1,2) Down.
   */
  lemma ThreeByThree(theta: real, fuel: nat)
    ensures var o := ValueIteration(Env(3, []), 0.9, theta, fuel);
            o.Some? ==>
              && At(o.value.values, Pos(2, 1)) == 10.0 && At(o.value.policy, Pos(2, 1)) == Right
              && At(o.value.values, Pos(1, 2)) == 10.0 && At(o.value.policy, Pos(1, 2)) == Down
  {
    hide ValueIteration, Iterate, FullSweep, Rows, RowPrefix, UpdateCell;
    var env := Env(3, []);
    if ValueIteration(env, 0.9, theta, fuel).Some? {
      SolvedNextToGoal(env, 0.9, theta, fuel, Pos(2, 1), Right);
      SolvedNextToGoal(env, 0.9, theta, fuel, Pos(1, 2), Down);
      assert Move(env, Up, Pos(1, 2)) != Goal(env);
    }
  }

  /** The start cell cannot move: the board edge is above and left, walls right and below. */
  predicate StartEnclosed(env: Env) {
    env.size >= 2 && Pos(0, 1) in env.walls && Pos(1, 0) in env.walls
  }

  lemma EnclosedStartStays(env: Env, a: int)
    requires StartEnclosed(env)
    ensures Move(env, a, Start) == Start
  {
  }

  /** With gamma = 1 an enclosed start loses exactly 1 in every sweep. */
  lemma EnclosedStartChange(env: Env, values: seq<seq<real>>, policy: seq<seq<int>>)
    requires ValidEnv(env) && StartEnclosed(env) && Fits(env, values) && Fits(env, policy)
    ensures At(After(env, 1.0, State(values, policy, 0.0), Start).values, Start) == At(values, Start) - 1.0
    ensures Change(env, 1.0, State(values, policy, 0.0), Start) == 1.0
  {
    var s0 := State(values, policy, 0.0);
    assert Before(env, 1.0, s0, Start) == s0;
    UpdateCellIsGreedy(env, 1.0, s0, Start);
    EnclosedStartStays(env, At(UpdateCell(env, 1.0, s0, Start).policy, Start));
  }

  lemma {:induction false} EnclosedIterateFails(env: Env, theta: real, s: State, fuel: nat)
    requires ValidEnv(env) && StartEnclosed(env) && theta <= 1.0 && Shaped(env, s)
    ensures Iterate(env, 1.0, theta, s, fuel) == None
    decreases fuel
  {
    hide FullSweep, Change;
    if fuel > 0 {
      SweepDelta(env, 1.0, s.values, s.policy);
      EnclosedStartChange(env, s.values, s.policy);
      EnclosedIterateFails(env, theta, FullSweep(env, 1.0, s.values, s.policy), fuel - 1);
    }
  }

  /**
    With gamma = 1, a start shut in by walls and any theta <= 1 (which covers
    the slider's range 0.001-0.1), no number of sweeps ever satisfies the
    stopping test.
   */
  lemma EnclosedStartNeverConverges(env: Env, theta: real, fuel: nat)
    requires ValidEnv(env) && StartEnclosed(env) && theta <= 1.0
    ensures ValueIteration(env, 1.0, theta, fuel) == None
  {
    EnclosedIterateFails(env, theta, Initial(env), fuel);
  }
}
