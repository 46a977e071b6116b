/** Iteration whose order the source leaves open: the keys of a hash map, the iterations of a parallel loop. */
module Unordered {

  /** Takes some element out of `s`; nothing is said about which one. */
  method TakeAny<T(==)>(s: set<T>) returns (x: T, rest: set<T>)
    requires s != {}
    ensures x in s && rest == s - {x} && |rest| == |s| - 1
  {
    x :| x in s;
    rest := s - {x};
  }

  /** The iteration numbers 0 .. n-1 of a loop. */
  function Below(n: nat): (s: set<int>)
    ensures forall i :: i in s <==> 0 <= i < n
  {
    if n == 0 then {} else Below(n - 1) + {n - 1}
  }
}
