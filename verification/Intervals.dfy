/** Runs of consecutive numbers as sets. */
module Intervals {
  function Interval(lo: nat, n: nat): (r: set<nat>)
    ensures forall b: nat :: b in r <==> lo <= b < lo + n
    ensures |r| == n
  {
    if n == 0 then {} else Interval(lo, n - 1) + {lo + n - 1}
  }
}
