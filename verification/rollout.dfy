/**
  The rollout after solving: starting at the top-left cell the agent takes
  the action its policy table names, one step at a time, until it stands on
  the goal. The source loops without bound; here `fuel` bounds the number of
  steps and `None` reports that the goal was not reached within it.
 */
module Rollout {
  import opened Grid
  import opened Tables
  import opened Maybe

  /** One step of the rollout: the action stored for `p`, applied to `p`. */
  function PolicyStep(env: Env, policy: seq<seq<int>>, p: Pos): (q: Pos)
    requires Fits(env, policy) && InGrid(env, p)
    ensures InGrid(env, q)
    ensures Manhattan(p, q) <= 1
    ensures p !in env.walls ==> q !in env.walls
  {
    MoveIsUnitStep(env, At(policy, p), p);
    Move(env, At(policy, p), p)
  }

  /** The cell reached from `p` after `k` policy steps. */
  function StepsFrom(env: Env, policy: seq<seq<int>>, p: Pos, k: nat): (q: Pos)
    requires Fits(env, policy) && InGrid(env, p)
    ensures InGrid(env, q)
    ensures p !in env.walls ==> q !in env.walls
    decreases k
  {
    if k == 0 then p else StepsFrom(env, policy, PolicyStep(env, policy, p), k - 1)
  }

  /**
    The cells entered on the way from `p` to the goal, in order, when the
    goal is reached within `fuel` steps.
   */
  function Walk(env: Env, policy: seq<seq<int>>, p: Pos, fuel: nat): (r: Option<seq<Pos>>)
    requires Fits(env, policy) && InGrid(env, p)
    ensures r.Some? ==> |r.value| <= fuel
    ensures r.Some? ==> (|r.value| == 0 <==> p == Goal(env))
    decreases fuel
  {
    if p == Goal(env) then Some([])
    else if fuel == 0 then None
    else
      var q := PolicyStep(env, policy, p);
      match Walk(env, policy, q, fuel - 1)
      case None => None
      case Some(rest) => Some([q] + rest)
  }

  /**
    `path` is a rollout from `p`: it starts at `p`, ends on the goal, visits
    the goal nowhere else, and every cell is the policy step from the one
    before it.
   */
  ghost predicate FollowsPolicy(env: Env, policy: seq<seq<int>>, p: Pos, path: seq<Pos>)
    requires Fits(env, policy)
  {
    && |path| >= 1
    && path[0] == p
    && path[|path| - 1] == Goal(env)
    && (forall i :: 0 <= i < |path| ==> InGrid(env, path[i]))
    && (forall i :: 0 <= i < |path| - 1 ==> path[i] != Goal(env))
    && (forall i :: 0 <= i < |path| - 1 ==> path[i + 1] == PolicyStep(env, policy, path[i]))
  }

  /** `agent_movement`'s path: the start cell followed by every cell entered. */
  function Rollout(env: Env, policy: seq<seq<int>>, fuel: nat): (r: Option<seq<Pos>>)
    requires ValidEnv(env) && Fits(env, policy)
    ensures r.Some? ==> FollowsPolicy(env, policy, Start, r.value) && |r.value| <= fuel + 1
    ensures r.Some? ==> forall i :: 0 <= i < |r.value| ==> r.value[i] !in env.walls
  {
    WalkFollowsPolicy(env, policy, Start, fuel);
    match Walk(env, policy, Start, fuel)
    case None => None
    case Some(rest) => Some([Start] + rest)
  }

  lemma {:induction false} WalkFollowsPolicy(env: Env, policy: seq<seq<int>>, p: Pos, fuel: nat)
    requires ValidEnv(env) && Fits(env, policy) && InGrid(env, p)
    ensures Walk(env, policy, p, fuel).Some? ==>
              && FollowsPolicy(env, policy, p, [p] + Walk(env, policy, p, fuel).value)
              && |Walk(env, policy, p, fuel).value| <= fuel
              && (p !in env.walls ==> forall i :: 0 <= i < |Walk(env, policy, p, fuel).value| ==>
                                              Walk(env, policy, p, fuel).value[i] !in env.walls)
    decreases fuel
  {
    if p != Goal(env) && fuel > 0 {
      var q := PolicyStep(env, policy, p);
      WalkFollowsPolicy(env, policy, q, fuel - 1);
      if Walk(env, policy, q, fuel - 1).Some? {
        var rest := Walk(env, policy, q, fuel - 1).value;
        var path := [p] + ([q] + rest);
        assert path[1..] == [q] + rest;
        forall i | 0 <= i < |path| - 1
          ensures path[i + 1] == PolicyStep(env, policy, path[i])
        {
          if i > 0 {
            assert path[i] == ([q] + rest)[i - 1];
          }
        }
      }
    }
  }

  /**
    The walk reaches the goal exactly when some number of policy steps, at
    most `fuel`, lands on it, and it stops at the first such number.
   */
  lemma {:induction false} WalkReachesGoal(env: Env, policy: seq<seq<int>>, p: Pos, fuel: nat)
    requires Fits(env, policy) && InGrid(env, p)
    ensures Walk(env, policy, p, fuel).Some? ==>
              && StepsFrom(env, policy, p, |Walk(env, policy, p, fuel).value|) == Goal(env)
              && forall k :: 0 <= k < |Walk(env, policy, p, fuel).value| ==> StepsFrom(env, policy, p, k) != Goal(env)
    ensures Walk(env, policy, p, fuel).None? ==> forall k :: 0 <= k <= fuel ==> StepsFrom(env, policy, p, k) != Goal(env)
    decreases fuel
  {
    if p != Goal(env) && fuel > 0 {
      var q := PolicyStep(env, policy, p);
      WalkReachesGoal(env, policy, q, fuel - 1);
      forall k | 1 <= k
        ensures StepsFrom(env, policy, p, k) == StepsFrom(env, policy, q, k - 1)
      {
      }
    }
  }

  /**
    A cell other than the goal whose own policy step stays put traps the
    agent: the walk from it never reaches the goal, whatever the fuel.
   */
  lemma {:induction false} StuckCellNeverArrives(env: Env, policy: seq<seq<int>>, p: Pos, fuel: nat)
    requires Fits(env, policy) && InGrid(env, p) && p != Goal(env) && PolicyStep(env, policy, p) == p
    ensures Walk(env, policy, p, fuel) == None
    decreases fuel
  {
    if fuel > 0 {
      StuckCellNeverArrives(env, policy, p, fuel - 1);
    }
  }

  /** A start shut in by walls on a board of side 2 or more: no policy ever completes a rollout. */
  lemma EnclosedStartNeverArrives(env: Env, policy: seq<seq<int>>, fuel: nat)
    requires ValidEnv(env) && Fits(env, policy)
    requires env.size >= 2 && Pos(0, 1) in env.walls && Pos(1, 0) in env.walls
    ensures Rollout(env, policy, fuel) == None
  {
    StuckCellNeverArrives(env, policy, Start, fuel);
  }
  /** `xs` in front of the cells of a walk that arrived; nothing if it did not. */
  function Then(xs: seq<Pos>, w: Option<seq<Pos>>): Option<seq<Pos>> {
    match w
    case None => None
    case Some(ys) => Some(xs + ys)
  }

  lemma ThenThen(xs: seq<Pos>, ys: seq<Pos>, w: Option<seq<Pos>>)
    ensures Then(xs, Then(ys, w)) == Then(xs + ys, w)
  {
    if w.Some? {
      assert xs + (ys + w.value) == (xs + ys) + w.value;
    }
  }

  /**
    The loop of `agent_movement` as the source writes it, with the cells it
    draws collected in `path`. It computes exactly `Rollout`.
   */
  method AgentMovement(env: Env, policy: seq<seq<int>>, fuel: nat) returns (r: Option<seq<Pos>>)
    requires ValidEnv(env) && Fits(env, policy)
    ensures r == Rollout(env, policy, fuel)
  {
    var agent := Start;
    var path := [Start];
    var steps := 0;
    assert path[1..] == [];
    assert Then([], Walk(env, policy, Start, fuel)) == Walk(env, policy, Start, fuel) by {
      if Walk(env, policy, Start, fuel).Some? {
        assert [] + Walk(env, policy, Start, fuel).value == Walk(env, policy, Start, fuel).value;
      }
    }
    while agent != Goal(env) && steps < fuel
      invariant 0 <= steps <= fuel && InGrid(env, agent)
      invariant |path| == steps + 1 && path[0] == Start
      invariant Walk(env, policy, Start, fuel) == Then(path[1..], Walk(env, policy, agent, fuel - steps))
    {
      var action := policy[agent.row][agent.col];
      ghost var before := agent;
      agent := Move(env, action, agent);
      assert agent == PolicyStep(env, policy, before);
      assert Walk(env, policy, before, fuel - steps) == Then([agent], Walk(env, policy, agent, fuel - steps - 1));
      ThenThen(path[1..], [agent], Walk(env, policy, agent, fuel - steps - 1));
      assert (path + [agent])[1..] == path[1..] + [agent];
      path := path + [agent];
      steps := steps + 1;
    }
    if agent == Goal(env) {
      assert path[1..] + [] == path[1..];
      assert path == [Start] + path[1..];
      r := Some(path);
    } else {
      r := None;
    }
  }
}
