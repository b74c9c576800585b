/**
  The greedy choice over a list of Q-values: Python's `max` for the new value
  and numpy's `argmax` for the policy entry, which reports the FIRST index
  attaining the maximum.
 */
module Greedy {

  function MaxValue(qs: seq<real>): (m: real)
    requires |qs| > 0
    ensures forall i :: 0 <= i < |qs| ==> qs[i] <= m
    ensures exists i :: 0 <= i < |qs| && qs[i] == m
  {
    if |qs| == 1 then qs[0]
    else
      var m := MaxValue(qs[..|qs| - 1]);
      if qs[|qs| - 1] > m then qs[|qs| - 1] else m
  }

  function ArgMax(qs: seq<real>): (k: nat)
    requires |qs| > 0
    ensures k < |qs|
    ensures forall i :: 0 <= i < |qs| ==> qs[i] <= qs[k]
    ensures forall i :: 0 <= i < k ==> qs[i] < qs[k]
  {
    if |qs| == 1 then 0
    else
      var k := ArgMax(qs[..|qs| - 1]);
      if qs[|qs| - 1] > qs[k] then |qs| - 1 else k
  }

  /** The policy entry names an action whose Q-value is the new cell value. */
  lemma ArgMaxAttainsMax(qs: seq<real>)
    requires |qs| > 0
    ensures qs[ArgMax(qs)] == MaxValue(qs)
  {
  }
}
