/** Small datatypes shared by the other modules. */
module Basics {

  datatype Option<+T> = None | Some(value: T)

  function MinInt(a: int, b: int): (r: int)
    ensures r <= a && r <= b && (r == a || r == b)
  {
    if a <= b then a else b
  }

  function MaxInt(a: int, b: int): (r: int)
    ensures r >= a && r >= b && (r == a || r == b)
  {
    if a >= b then a else b
  }

  /** The numbers below `k`. */
  function Below(k: nat): (r: set<nat>)
    ensures |r| == k && forall j: nat :: j in r <==> j < k
  {
    if k == 0 then {} else Below(k - 1) + {k - 1}
  }
}
