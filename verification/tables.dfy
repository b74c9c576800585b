/**
  Dense N-by-N tables indexed by board cell, the shape of the solver's value
  and policy arrays.
 */
module Tables {
  import opened Grid

  /** `t` has one row per board row and one entry per board column. */
  predicate Fits<T>(env: Env, t: seq<seq<T>>) {
    |t| == env.size && forall i :: 0 <= i < |t| ==> |t[i]| == env.size
  }

  function At<T>(t: seq<seq<T>>, p: Pos): T
    requires 0 <= p.row < |t| && 0 <= p.col < |t[p.row]|
  {
    t[p.row][p.col]
  }

  /** The table of the given shape with `x` in every cell (`np.zeros` for `x` = 0). */
  function Filled<T>(env: Env, x: T): (t: seq<seq<T>>)
    ensures Fits(env, t)
    ensures forall p :: InGrid(env, p) ==> At(t, p) == x
  {
    seq(env.size, _ => seq(env.size, _ => x))
  }

  /** `t` with cell `p` overwritten by `x`. */
  function Put<T>(env: Env, t: seq<seq<T>>, p: Pos, x: T): (u: seq<seq<T>>)
    requires Fits(env, t) && InGrid(env, p)
    ensures Fits(env, u)
    ensures At(u, p) == x
    ensures forall q :: InGrid(env, q) && q != p ==> At(u, q) == At(t, q)
  {
    t[p.row := t[p.row][p.col := x]]
  }
}
