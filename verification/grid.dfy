/**
  The grid-world environment: cells, walls, the goal, the deterministic
  transition function and the state-based reward function.

  The source keeps the board side, the goal and the wall list as module
  globals; here they are one immutable `Env` value passed to every function.
 */
module Grid {

  /** A cell of the board, written `[row, col]` in the source. */
  datatype Pos = Pos(row: int, col: int)

  /** The board side `grid_size` and the wall list `walls`. */
  datatype Env = Env(size: nat, walls: seq<Pos>)

  /** Both rollouts start in the top-left corner. */
  const Start: Pos := Pos(0, 0)

  /** Action codes, in the fixed order that breaks ties in the greedy choice. */
  const Up: int := 0
  const Down: int := 1
  const Left: int := 2
  const Right: int := 3
  const ActionCount: nat := 4

  const GoalReward: int := 10
  const StepReward: int := -1

  /** The goal is always the bottom-right corner. */
  function Goal(env: Env): Pos {
    Pos(env.size - 1, env.size - 1)
  }

  predicate InGrid(env: Env, p: Pos) {
    0 <= p.row < env.size && 0 <= p.col < env.size
  }

  predicate IsAction(a: int) {
    0 <= a < ActionCount
  }

  /** Cells the solver never updates: the goal and the walls. */
  predicate Terminal(env: Env, p: Pos) {
    p == Goal(env) || p in env.walls
  }

  predicate NoDuplicates(walls: seq<Pos>) {
    forall i, j :: 0 <= i < j < |walls| ==> walls[i] != walls[j]
  }

  /**
    What the wall sampler guarantees about the board: every wall lies on the
    board, none sits on the start or on the goal, and no wall is listed twice.
   */
  predicate ValidEnv(env: Env) {
    && env.size >= 1
    && (forall w :: w in env.walls ==> InGrid(env, w) && w != Start && w != Goal(env))
    && NoDuplicates(env.walls)
  }

  /** The cell one step away from `p` in the direction action `a` names. */
  function Neighbour(p: Pos, a: int): Pos {
    match a
    case 0 => Pos(p.row - 1, p.col)
    case 1 => Pos(p.row + 1, p.col)
    case 2 => Pos(p.row, p.col - 1)
    case 3 => Pos(p.row, p.col + 1)
    case _ => p
  }

  /** Action `a` names a direction whose neighbouring cell is on the board and not a wall. */
  predicate Open(env: Env, p: Pos, a: int) {
    IsAction(a) && InGrid(env, Neighbour(p, a)) && Neighbour(p, a) !in env.walls
  }

  function Manhattan(p: Pos, q: Pos): nat {
    (if p.row < q.row then q.row - p.row else p.row - q.row)
    + (if p.col < q.col then q.col - p.col else p.col - q.col)
  }

  /**
    The transition function. A move that would leave the board is not
    attempted; a move onto a wall is undone; an unknown action code does
    nothing.
   */
  function Move(env: Env, a: int, p: Pos): (r: Pos)
    ensures r == p || (IsAction(a) && r == Neighbour(p, a) && r !in env.walls)
    ensures !IsAction(a) ==> r == p
    ensures InGrid(env, p) ==> InGrid(env, r)
    ensures InGrid(env, p) && Open(env, p, a) ==> r == Neighbour(p, a)
    ensures p !in env.walls ==> r !in env.walls
  {
    var target :=
      if a == Up && p.row > 0 then Pos(p.row - 1, p.col)
      else if a == Down && p.row < env.size - 1 then Pos(p.row + 1, p.col)
      else if a == Left && p.col > 0 then Pos(p.row, p.col - 1)
      else if a == Right && p.col < env.size - 1 then Pos(p.row, p.col + 1)
      else p;
    if target in env.walls then p else target
  }

  /** From a board cell, an action changes the position exactly when its direction is open. */
  lemma MoveSucceedsIffOpen(env: Env, a: int, p: Pos)
    requires InGrid(env, p)
    ensures Move(env, a, p) != p <==> Open(env, p, a)
    ensures Move(env, a, p) == if Open(env, p, a) then Neighbour(p, a) else p
  {
  }

  /** A move toward the edge of the board it already touches leaves the agent in place. */
  lemma MoveBlockedAtBoundary(env: Env, p: Pos)
    requires InGrid(env, p)
    ensures p.row == 0 ==> Move(env, Up, p) == p
    ensures p.row == env.size - 1 ==> Move(env, Down, p) == p
    ensures p.col == 0 ==> Move(env, Left, p) == p
    ensures p.col == env.size - 1 ==> Move(env, Right, p) == p
  {
  }

  /** A move aimed at a wall leaves the agent in place. */
  lemma MoveIntoWallStays(env: Env, a: int, p: Pos)
    requires Neighbour(p, a) in env.walls
    ensures Move(env, a, p) == p
  {
  }

  /** Every transition covers Manhattan distance 0 or 1. */
  lemma MoveIsUnitStep(env: Env, a: int, p: Pos)
    ensures Manhattan(p, Move(env, a, p)) <= 1
    ensures Move(env, a, p) != p ==> Manhattan(p, Move(env, a, p)) == 1
  {
  }

  /** The reward depends only on the cell entered: positive exactly on the goal. */
  function Reward(env: Env, p: Pos): (r: int)
    ensures r == GoalReward <==> p == Goal(env)
    ensures r == StepReward <==> p != Goal(env)
  {
    if p == Goal(env) then GoalReward else StepReward
  }
}
