/**
  One sweep of value iteration: every cell of the board visited once in
  row-major order, each non-terminal cell overwritten IN PLACE with its
  greedy Bellman update (Gauss-Seidel), so a cell visited later in the same
  sweep reads the values already written earlier in it.
 */
module Sweep {
  import opened Grid
  import opened Tables
  import opened Greedy

  /** The solver's working state: value table, policy table and the sweep's largest change. */
  datatype State = State(values: seq<seq<real>>, policy: seq<seq<int>>, delta: real)

  predicate Shaped(env: Env, s: State) {
    Fits(env, s.values) && Fits(env, s.policy)
  }

  function Abs(x: real): real {
    if x < 0.0 then -x else x
  }

  /** Python's two-argument `max`. */
  function RMax(a: real, b: real): real {
    if a >= b then a else b
  }

  /** Q(p, a): the reward for the cell entered plus the discounted value stored there now. */
  function QValue(env: Env, gamma: real, values: seq<seq<real>>, p: Pos, a: int): real
    requires Fits(env, values) && InGrid(env, p)
  {
    var q := Move(env, a, p);
    Reward(env, q) as real + gamma * At(values, q)
  }

  /**
    An action that enters the goal is worth 10 plus gamma times the goal's
    stored value; any other action is worth -1 plus gamma times the value
    stored in the cell it reaches (the agent's own cell when it is blocked).
   */
  lemma QValueByTarget(env: Env, gamma: real, values: seq<seq<real>>, p: Pos, a: int)
    requires Fits(env, values) && InGrid(env, p)
    ensures Move(env, a, p) == Goal(env) ==>
              QValue(env, gamma, values, p, a) == GoalReward as real + gamma * At(values, Goal(env))
    ensures Move(env, a, p) != Goal(env) ==>
              QValue(env, gamma, values, p, a) == StepReward as real + gamma * At(values, Move(env, a, p))
    ensures !Open(env, p, a) ==> QValue(env, gamma, values, p, a) == Reward(env, p) as real + gamma * At(values, p)
  {
    MoveSucceedsIffOpen(env, a, p);
  }

  /** The list `action_values`, one Q-value per action in code order. */
  function QValues(env: Env, gamma: real, values: seq<seq<real>>, p: Pos): (qs: seq<real>)
    requires Fits(env, values) && InGrid(env, p)
    ensures |qs| == ActionCount
    ensures forall a :: 0 <= a < ActionCount ==> qs[a] == QValue(env, gamma, values, p, a)
  {
    seq(ActionCount, a => QValue(env, gamma, values, p, a))
  }

  /**
    `v` and `a` are a greedy Bellman update of cell `p` against `values`:
    `v` is the largest Q-value and `a` the first action that attains it.
   */
  predicate GreedyUpdate(env: Env, gamma: real, values: seq<seq<real>>, p: Pos, v: real, a: int)
    requires Fits(env, values) && InGrid(env, p)
  {
    && IsAction(a)
    && v == QValue(env, gamma, values, p, a)
    && (forall b :: 0 <= b < ActionCount ==> QValue(env, gamma, values, p, b) <= v)
    && (forall b :: 0 <= b < a ==> QValue(env, gamma, values, p, b) < v)
  }

  /** The body of the inner loop for one cell: skipped on the goal and on walls. */
  function UpdateCell(env: Env, gamma: real, s: State, p: Pos): (r: State)
    requires Shaped(env, s) && InGrid(env, p)
    ensures Shaped(env, r)
    ensures Terminal(env, p) ==> r == s
    ensures forall q :: InGrid(env, q) && q != p ==> At(r.values, q) == At(s.values, q)
    ensures forall q :: InGrid(env, q) && q != p ==> At(r.policy, q) == At(s.policy, q)
  {
    if Terminal(env, p) then s
    else
      var qs := QValues(env, gamma, s.values, p);
      var best := MaxValue(qs);
      State(Put(env, s.values, p, best), Put(env, s.policy, p, ArgMax(qs)),
            RMax(s.delta, Abs(At(s.values, p) - best)))
  }

  /**
    A visited cell receives the greedy Bellman update against the table as it
    stands, and `delta` grows to cover the change just made.
   */
  lemma UpdateCellIsGreedy(env: Env, gamma: real, s: State, p: Pos)
    requires Shaped(env, s) && InGrid(env, p) && !Terminal(env, p)
    ensures GreedyUpdate(env, gamma, s.values, p, At(UpdateCell(env, gamma, s, p).values, p),
                         At(UpdateCell(env, gamma, s, p).policy, p))
    ensures UpdateCell(env, gamma, s, p).delta
            == RMax(s.delta, Abs(At(s.values, p) - At(UpdateCell(env, gamma, s, p).values, p)))
  {
    var qs := QValues(env, gamma, s.values, p);
    ArgMaxAttainsMax(qs);
  }


  /** Row-major order: cell `p` is visited before cell `q` within a sweep. */
  predicate Precedes(p: Pos, q: Pos) {
    p.row < q.row || (p.row == q.row && p.col < q.col)
  }

  /** From `s`, visit the first `j` cells of row `i`, left to right. */
  function RowPrefix(env: Env, gamma: real, s: State, i: int, j: nat): (r: State)
    requires Shaped(env, s) && 0 <= i < env.size && j <= env.size
    ensures Shaped(env, r)
    decreases j
  {
    if j == 0 then s
    else UpdateCell(env, gamma, RowPrefix(env, gamma, s, i, j - 1), Pos(i, j - 1))
  }

  /** From `s0`, visit every cell of the first `i` rows, top to bottom. */
  function Rows(env: Env, gamma: real, s0: State, i: nat): (r: State)
    requires Shaped(env, s0) && i <= env.size
    ensures Shaped(env, r)
  {
    if i == 0 then s0
    else RowPrefix(env, gamma, Rows(env, gamma, s0, i - 1), i - 1, env.size)
  }

  /** The state of a sweep from `s0` at the moment cell `p` is about to be visited. */
  function Before(env: Env, gamma: real, s0: State, p: Pos): (r: State)
    requires Shaped(env, s0) && InGrid(env, p)
    ensures Shaped(env, r)
  {
    RowPrefix(env, gamma, Rows(env, gamma, s0, p.row), p.row, p.col)
  }

  /** The state of a sweep from `s0` just after cell `p` has been visited. */
  function After(env: Env, gamma: real, s0: State, p: Pos): (r: State)
    requires Shaped(env, s0) && InGrid(env, p)
    ensures Shaped(env, r)
  {
    UpdateCell(env, gamma, Before(env, gamma, s0, p), p)
  }

  /** One complete sweep from the given tables, `delta` reset to 0. */
  function FullSweep(env: Env, gamma: real, values: seq<seq<real>>, policy: seq<seq<int>>): (r: State)
    requires Fits(env, values) && Fits(env, policy)
    ensures Shaped(env, r)
  {
    Rows(env, gamma, State(values, policy, 0.0), env.size)
  }

  /** |old - new| for cell `p` in a sweep from `s0`; 0 on skipped cells. */
  function Change(env: Env, gamma: real, s0: State, p: Pos): real
    requires Shaped(env, s0) && InGrid(env, p)
  {
    Abs(At(Before(env, gamma, s0, p).values, p) - At(After(env, gamma, s0, p).values, p))
  }

  /** Visiting cells of row `i` leaves every cell outside the visited ones alone. */
  lemma {:induction false} RowUntouched(env: Env, gamma: real, s: State, i: int, j: nat, c: Pos)
    requires Shaped(env, s) && 0 <= i < env.size && j <= env.size && InGrid(env, c)
    requires !(c.row == i && c.col < j)
    ensures At(RowPrefix(env, gamma, s, i, j).values, c) == At(s.values, c)
    ensures At(RowPrefix(env, gamma, s, i, j).policy, c) == At(s.policy, c)
    decreases j
  {
    hide UpdateCell;
    if j > 0 {
      RowUntouched(env, gamma, s, i, j - 1, c);
    }
  }

  /** Once a cell of row `i` has been visited, the rest of the row leaves it alone. */
  lemma {:induction false} RowKeeps(env: Env, gamma: real, s: State, i: int, j1: nat, j2: nat, c: Pos)
    requires Shaped(env, s) && 0 <= i < env.size && j1 <= j2 <= env.size
    requires c.row == i && 0 <= c.col < j1
    ensures At(RowPrefix(env, gamma, s, i, j2).values, c) == At(RowPrefix(env, gamma, s, i, j1).values, c)
    ensures At(RowPrefix(env, gamma, s, i, j2).policy, c) == At(RowPrefix(env, gamma, s, i, j1).policy, c)
    decreases j2
  {
    hide UpdateCell;
    if j2 > j1 {
      RowKeeps(env, gamma, s, i, j1, j2 - 1, c);
    }
  }

  /** Rows not yet swept still hold the values the sweep started from. */
  lemma {:induction false} RowsUntouched(env: Env, gamma: real, s0: State, i: nat, c: Pos)
    requires Shaped(env, s0) && i <= env.size && InGrid(env, c) && i <= c.row
    ensures At(Rows(env, gamma, s0, i).values, c) == At(s0.values, c)
    ensures At(Rows(env, gamma, s0, i).policy, c) == At(s0.policy, c)
  {
    hide UpdateCell;
    if i > 0 {
      RowsUntouched(env, gamma, s0, i - 1, c);
      RowUntouched(env, gamma, Rows(env, gamma, s0, i - 1), i - 1, env.size, c);
    }
  }

  /** Cells of swept rows hold exactly what their own visit wrote. */
  lemma {:induction false} RowsKeepVisited(env: Env, gamma: real, s0: State, i: nat, c: Pos)
    requires Shaped(env, s0) && i <= env.size && InGrid(env, c) && c.row < i
    ensures At(Rows(env, gamma, s0, i).values, c) == At(After(env, gamma, s0, c).values, c)
    ensures At(Rows(env, gamma, s0, i).policy, c) == At(After(env, gamma, s0, c).policy, c)
  {
    hide UpdateCell;
    var prev := Rows(env, gamma, s0, i - 1);
    if c.row == i - 1 {
      RowKeeps(env, gamma, prev, i - 1, c.col + 1, env.size, c);
    } else {
      RowsKeepVisited(env, gamma, s0, i - 1, c);
      RowUntouched(env, gamma, prev, i - 1, env.size, c);
    }
  }

  /**
    The table a cell reads when it is visited is the in-place one: every cell
    visited earlier in the sweep already holds its new value, every other
    cell still holds the value the sweep started from.
   */
  lemma GaussSeidelRead(env: Env, gamma: real, s0: State, p: Pos, c: Pos)
    requires Shaped(env, s0) && InGrid(env, p) && InGrid(env, c)
    ensures Precedes(c, p) ==> At(Before(env, gamma, s0, p).values, c) == At(After(env, gamma, s0, c).values, c)
    ensures !Precedes(c, p) ==> At(Before(env, gamma, s0, p).values, c) == At(s0.values, c)
  {
    hide UpdateCell;
    var rows := Rows(env, gamma, s0, p.row);
    if c.row < p.row {
      RowUntouched(env, gamma, rows, p.row, p.col, c);
      RowsKeepVisited(env, gamma, s0, p.row, c);
    } else if c.row == p.row && c.col < p.col {
      RowKeeps(env, gamma, rows, p.row, c.col + 1, p.col, c);
    } else {
      RowUntouched(env, gamma, rows, p.row, p.col, c);
      RowsUntouched(env, gamma, s0, p.row, c);
    }
  }

  /**
    After a sweep every non-terminal cell holds the greedy Bellman update
    computed against the table as it stood when the cell was visited, and the
    goal and the walls hold what they held before.
   */
  lemma SweepOutcome(env: Env, gamma: real, values: seq<seq<real>>, policy: seq<seq<int>>, c: Pos)
    requires Fits(env, values) && Fits(env, policy) && InGrid(env, c)
    ensures var s0 := State(values, policy, 0.0);
            var r := FullSweep(env, gamma, values, policy);
            !Terminal(env, c) ==>
              GreedyUpdate(env, gamma, Before(env, gamma, s0, c).values, c, At(r.values, c), At(r.policy, c))
    ensures var r := FullSweep(env, gamma, values, policy);
            Terminal(env, c) ==> At(r.values, c) == At(values, c) && At(r.policy, c) == At(policy, c)
  {
    var s0 := State(values, policy, 0.0);
    RowsKeepVisited(env, gamma, s0, env.size, c);
    if Terminal(env, c) {
      RowUntouched(env, gamma, Rows(env, gamma, s0, c.row), c.row, c.col, c);
      RowsUntouched(env, gamma, s0, c.row, c);
    } else {
      UpdateCellIsGreedy(env, gamma, Before(env, gamma, s0, c), c);
    }
  }

  /** Visiting one more cell raises `delta` to cover that cell's change, and no further. */
  lemma RowStepDelta(env: Env, gamma: real, s0: State, i: nat, j: nat)
    requires Shaped(env, s0) && i < env.size && 0 < j <= env.size
    ensures var s := Rows(env, gamma, s0, i);
            var prev := RowPrefix(env, gamma, s, i, j - 1).delta;
            var cur := RowPrefix(env, gamma, s, i, j).delta;
            var ch := Change(env, gamma, s0, Pos(i, j - 1));
            cur >= prev && (prev >= 0.0 ==> cur >= ch) && (cur == prev || cur == ch)
  {
    hide UpdateCell;
    var s := Rows(env, gamma, s0, i);
    var p := Pos(i, j - 1);
    var prev := RowPrefix(env, gamma, s, i, j - 1);
    assert prev == Before(env, gamma, s0, p);
    assert RowPrefix(env, gamma, s, i, j) == After(env, gamma, s0, p);
    if Terminal(env, p) {
      assert Change(env, gamma, s0, p) == 0.0;
    } else {
      UpdateCellIsGreedy(env, gamma, prev, p);
    }
  }

  /** `delta` after the first `j` cells of row `i`, in terms of their changes. */
  lemma {:induction false} RowDelta(env: Env, gamma: real, s0: State, i: nat, j: nat)
    requires Shaped(env, s0) && i < env.size && j <= env.size && Rows(env, gamma, s0, i).delta >= 0.0
    ensures var s := Rows(env, gamma, s0, i);
            var d := RowPrefix(env, gamma, s, i, j).delta;
            && d >= s.delta
            && (forall c :: InGrid(env, c) && c.row == i && c.col < j ==> Change(env, gamma, s0, c) <= d)
            && (d == s.delta || exists c :: InGrid(env, c) && c.row == i && c.col < j && d == Change(env, gamma, s0, c))
    decreases j
  {
    hide UpdateCell, Change, Before, After;
    if j > 0 {
      RowDelta(env, gamma, s0, i, j - 1);
      RowStepDelta(env, gamma, s0, i, j);
      var s := Rows(env, gamma, s0, i);
      var p := Pos(i, j - 1);
      var d := RowPrefix(env, gamma, s, i, j).delta;
      forall c | InGrid(env, c) && c.row == i && c.col < j
        ensures Change(env, gamma, s0, c) <= d
      {
        if c.col == j - 1 {
          assert c == p;
        }
      }
      if d != s.delta && d == Change(env, gamma, s0, p) {
        assert InGrid(env, p) && p.row == i && p.col < j;
      }
    }
  }

  /** `delta` after the first `i` rows is the largest change made in them. */
  lemma {:induction false} RowsDelta(env: Env, gamma: real, s0: State, i: nat)
    requires Shaped(env, s0) && i <= env.size && s0.delta == 0.0
    ensures var d := Rows(env, gamma, s0, i).delta;
            && d >= 0.0
            && (forall c :: InGrid(env, c) && c.row < i ==> Change(env, gamma, s0, c) <= d)
            && (d == 0.0 || exists c :: InGrid(env, c) && c.row < i && d == Change(env, gamma, s0, c))
  {
    hide UpdateCell, Change, RowPrefix;
    if i > 0 {
      RowsDelta(env, gamma, s0, i - 1);
      RowDelta(env, gamma, s0, i - 1, env.size);
    }
  }

  /**
    A sweep's `delta` is the largest |old - new| over the cells it visited,
    0 when nothing changed: it bounds every change and equals one of them.
   */
  lemma SweepDelta(env: Env, gamma: real, values: seq<seq<real>>, policy: seq<seq<int>>)
    requires Fits(env, values) && Fits(env, policy)
    ensures var s0 := State(values, policy, 0.0);
            var d := FullSweep(env, gamma, values, policy).delta;
            && d >= 0.0
            && (forall c :: InGrid(env, c) ==> Change(env, gamma, s0, c) <= d)
            && (d == 0.0 || exists c :: InGrid(env, c) && d == Change(env, gamma, s0, c))
  {
    RowsDelta(env, gamma, State(values, policy, 0.0), env.size);
  }

  /** The loop over the four actions that builds `action_values` for cell `p`. */
  method CollectQValues(env: Env, gamma: real, values: seq<seq<real>>, p: Pos) returns (actionValues: seq<real>)
    requires Fits(env, values) && InGrid(env, p)
    ensures actionValues == QValues(env, gamma, values, p)
  {
    actionValues := [];
    var a := 0;
    while a < ActionCount
      invariant 0 <= a <= ActionCount
      invariant actionValues == QValues(env, gamma, values, p)[..a]
    {
      var newPosition := Move(env, a, p);
      var reward := Reward(env, newPosition);
      var q := reward as real + gamma * values[newPosition.row][newPosition.col];
      assert q == QValue(env, gamma, values, p, a);
      assert QValues(env, gamma, values, p)[..a + 1] == QValues(env, gamma, values, p)[..a] + [q];
      actionValues := actionValues + [q];
      a := a + 1;
    }
  }

  /** The body of the inner loop for one cell, updating the tables in place. */
  method VisitCell(env: Env, gamma: real, values0: seq<seq<real>>, policy0: seq<seq<int>>, delta0: real, p: Pos)
    returns (values: seq<seq<real>>, policy: seq<seq<int>>, delta: real)
    requires Fits(env, values0) && Fits(env, policy0) && InGrid(env, p)
    ensures State(values, policy, delta) == UpdateCell(env, gamma, State(values0, policy0, delta0), p)
  {
    values, policy, delta := values0, policy0, delta0;
    if p == Goal(env) || p in env.walls {
      return;
    }
    var v := values[p.row][p.col];
    var actionValues := CollectQValues(env, gamma, values, p);
    var best := MaxValue(actionValues);
    values := values[p.row := values[p.row][p.col := best]];
    policy := policy[p.row := policy[p.row][p.col := ArgMax(actionValues)]];
    delta := RMax(delta, Abs(v - values[p.row][p.col]));
  }

  /**
    The imperative sweep as the source writes it: two nested loops over rows
    and columns updating the tables in place. It computes exactly the
    row-major fold `FullSweep`.
   */
  method RunSweep(env: Env, gamma: real, values0: seq<seq<real>>, policy0: seq<seq<int>>)
    returns (values: seq<seq<real>>, policy: seq<seq<int>>, delta: real)
    requires Fits(env, values0) && Fits(env, policy0)
    ensures State(values, policy, delta) == FullSweep(env, gamma, values0, policy0)
  {
    hide UpdateCell;
    ghost var s0 := State(values0, policy0, 0.0);
    values, policy, delta := values0, policy0, 0.0;
    var i := 0;
    while i < env.size
      invariant 0 <= i <= env.size
      invariant State(values, policy, delta) == Rows(env, gamma, s0, i)
    {
      var j := 0;
      while j < env.size
        invariant 0 <= j <= env.size
        invariant State(values, policy, delta) == RowPrefix(env, gamma, Rows(env, gamma, s0, i), i, j)
      {
        values, policy, delta := VisitCell(env, gamma, values, policy, delta, Pos(i, j));
        j := j + 1;
      }
      i := i + 1;
    }
  }
}
