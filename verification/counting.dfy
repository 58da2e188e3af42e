/**
 Participation counts: how often each vertex occurs in the stored loops, and
 how that relates to the number of loops containing it.
 */
module Counting {
  import opened Cycles

  /** Number of positions of w holding v. */
  function Occurrences(w: seq<int>, v: int): (c: nat)
    ensures c <= |w|
    ensures c == 0 <==> v !in w
  {
    if w == [] then 0
    else Occurrences(w[..|w| - 1], v) + (if w[|w| - 1] == v then 1 else 0)
  }

  /** A vertex occurs at most once in a sequence of distinct vertices. */
  lemma {:induction false} OccurrencesOfDistinct(w: seq<int>, v: int)
    requires Distinct(w)
    ensures Occurrences(w, v) == if v in w then 1 else 0
  {
    if w != [] {
      var front := w[..|w| - 1];
      OccurrencesOfDistinct(front, v);
      if w[|w| - 1] == v {
        assert v !in front by {
          forall k | 0 <= k < |front|
            ensures front[k] != v
          {
            assert front[k] == w[k];
          }
        }
      } else {
        assert v in w <==> v in front by {
          assert w == front + [w[|w| - 1]];
        }
      }
    }
  }

  /** What the counting loop adds to L[v]: occurrences of v over all loops. */
  function Participation(loops: seq<seq<int>>, v: int): (c: nat)
  {
    if loops == [] then 0
    else Participation(loops[..|loops| - 1], v) + Occurrences(loops[|loops| - 1], v)
  }

  /** Extending a prefix of w by one entry adds that entry's occurrence. */
  lemma OccurrencesPrefix(w: seq<int>, i: nat)
    requires i < |w|
    ensures forall v :: Occurrences(w[..i + 1], v) == Occurrences(w[..i], v) + (if w[i] == v then 1 else 0)
  {
    assert w[..i + 1][..i] == w[..i];
  }

  /** Extending a prefix of the loop list by one loop adds its occurrences. */
  lemma ParticipationPrefix(loops: seq<seq<int>>, k: nat)
    requires k < |loops|
    ensures forall v :: Participation(loops[..k + 1], v) == Participation(loops[..k], v) + Occurrences(loops[k], v)
  {
    assert loops[..k + 1][..k] == loops[..k];
  }

  /** Number of loops whose vertex set contains v. */
  function Containing(loops: seq<seq<int>>, v: int): (c: nat)
    ensures c <= |loops|
  {
    if loops == [] then 0
    else Containing(loops[..|loops| - 1], v) + (if v in loops[|loops| - 1] then 1 else 0)
  }

  /** When every loop lists distinct vertices, counting occurrences counts loops. */
  lemma {:induction false} ParticipationCountsLoops(loops: seq<seq<int>>, v: int)
    requires forall k :: 0 <= k < |loops| ==> Distinct(loops[k])
    ensures Participation(loops, v) == Containing(loops, v)
  {
    if loops != [] {
      ParticipationCountsLoops(loops[..|loops| - 1], v);
      OccurrencesOfDistinct(loops[|loops| - 1], v);
    }
  }

  /** Sum of Occurrences(w, v) over the vertices v in [0, n). */
  function TotalOccurrences(w: seq<int>, n: nat): (c: nat)
  {
    if n == 0 then 0 else TotalOccurrences(w, n - 1) + Occurrences(w, n - 1)
  }

  lemma {:induction false} TotalOccurrencesSnoc(w: seq<int>, n: nat)
    requires w != [] && w[|w| - 1] >= 0
    ensures TotalOccurrences(w, n) ==
            TotalOccurrences(w[..|w| - 1], n) + (if w[|w| - 1] < n then 1 else 0)
  {
    if n > 0 {
      TotalOccurrencesSnoc(w, n - 1);
    }
  }

  /** Every entry in range is counted exactly once by the vertex-wise sum. */
  lemma {:induction false} TotalOccurrencesIsLength(w: seq<int>, n: nat)
    requires InRange(w, n)
    ensures TotalOccurrences(w, n) == |w|
  {
    if w != [] {
      TotalOccurrencesSnoc(w, n);
      TotalOccurrencesIsLength(w[..|w| - 1], n);
    } else if n > 0 {
      TotalOccurrencesIsLength(w, n - 1);
    }
  }

  /** Sum of Participation(loops, v) over the vertices v in [0, n). */
  function TotalParticipation(loops: seq<seq<int>>, n: nat): (c: nat)
  {
    if n == 0 then 0 else TotalParticipation(loops, n - 1) + Participation(loops, n - 1)
  }

  lemma {:induction false} TotalParticipationSnoc(loops: seq<seq<int>>, n: nat)
    requires loops != []
    ensures TotalParticipation(loops, n) ==
            TotalParticipation(loops[..|loops| - 1], n) + TotalOccurrences(loops[|loops| - 1], n)
  {
    if n > 0 {
      TotalParticipationSnoc(loops, n - 1);
    }
  }

  /** Loops of lmax in-range vertices contribute lmax apiece to the total count. */
  lemma {:induction false} TotalParticipationIs(loops: seq<seq<int>>, n: nat, lmax: nat)
    requires forall k :: 0 <= k < |loops| ==> |loops[k]| == lmax && InRange(loops[k], n)
    ensures TotalParticipation(loops, n) == lmax * |loops|
  {
    if loops != [] {
      var front, last := loops[..|loops| - 1], loops[|loops| - 1];
      assert forall k :: 0 <= k < |front| ==> front[k] == loops[k];
      TotalParticipationSnoc(loops, n);
      TotalOccurrencesIsLength(last, n);
      TotalParticipationIs(front, n, lmax);
      calc {
        lmax * |loops|;
        lmax * (|front| + 1);
        lmax * |front| + lmax;
      }
    } else if n > 0 {
      TotalParticipationIs(loops, n - 1, lmax);
    }
  }

  /** Sum of the first n entries of s. */
  function SumTo(s: seq<int>, n: nat): (sum: int)
    requires n <= |s|
  {
    if n == 0 then 0 else SumTo(s, n - 1) + s[n - 1]
  }

  lemma {:induction false} SumOfParticipation(s: seq<int>, loops: seq<seq<int>>, n: nat)
    requires n <= |s| && forall v :: 0 <= v < n ==> s[v] == Participation(loops, v)
    ensures SumTo(s, n) == TotalParticipation(loops, n)
  {
    if n > 0 {
      SumOfParticipation(s, loops, n - 1);
    }
  }
}
