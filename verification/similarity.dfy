/**
 The duplicate test between two usage masks: LoopFinder.cpp counts the positions
 where the masks agree and calls them similar when all N positions agree.
 */
module Similarity {

  /** Number of positions k in [i, |x|) where x and y agree; it reaches its
      maximum |x| - i exactly when they agree everywhere from i on. */
  function Agreements(x: seq<bool>, y: seq<bool>, i: nat): (s: nat)
    requires i <= |x| == |y|
    ensures s <= |x| - i
    ensures s == |x| - i <==> forall k :: i <= k < |x| ==> x[k] == y[k]
    decreases |x| - i
  {
    if i == |x| then 0
    else (if x[i] == y[i] then 1 else 0) + Agreements(x, y, i + 1)
  }

  /** `_are_similar`: scans positions N-1 down to 0 counting agreements. */
  method AreSimilar(n: nat, x: seq<bool>, y: seq<bool>) returns (same: bool)
    requires |x| == n && |y| == n
    ensures same <==> x == y
    ensures !same <==> exists k :: 0 <= k < n && x[k] != y[k]
  {
    var s := 0;
    var i := n;
    while i > 0
      invariant 0 <= i <= n
      invariant s == Agreements(x, y, i)
    {
      i := i - 1;
      s := s + (if x[i] == y[i] then 1 else 0);
    }
    same := s == n;
  }
}
