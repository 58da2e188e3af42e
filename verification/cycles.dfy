/**
 What the search looks for and what it stores: simple closed cycles of the
 graph, the usage mask of a vertex sequence, the partial paths the backtracking
 holds in its path buffer, and the invariant of the two accepted-loop lists.
 */
module Cycles {
  import opened Graph

  predicate Distinct(w: seq<int>)
  {
    forall p, q :: 0 <= p < q < |w| ==> w[p] != w[q]
  }

  predicate InRange(w: seq<int>, n: nat)
  {
    forall k :: 0 <= k < |w| ==> 0 <= w[k] < n
  }

  /** c lists the vertices of a simple closed cycle: pairwise distinct,
      consecutive entries adjacent, and the last adjacent to the first. */
  predicate IsCycle(a: seq<bool>, n: nat, c: seq<int>)
  {
    |c| >= 1 && InRange(c, n) && Distinct(c) &&
    (forall k :: 0 <= k < |c| - 1 ==> Adjacent(a, n, c[k], c[k + 1])) &&
    Adjacent(a, n, c[|c| - 1], c[0])
  }

  /** The usage mask of a vertex sequence: flag v is set iff v occurs in c. */
  function MaskOf(n: nat, c: seq<int>): (m: seq<bool>)
    ensures |m| == n
  {
    seq(n, v => v in c)
  }

  /** Invariant of the two lists UsageList and Loops: aligned entry by entry,
      every loop a cycle of length lmax whose mask is the matching snapshot,
      and no snapshot stored twice. */
  ghost predicate Store(a: seq<bool>, n: nat, lmax: nat, masks: seq<seq<bool>>, loops: seq<seq<int>>)
  {
    |masks| == |loops| &&
    (forall k :: 0 <= k < |loops| ==>
       |loops[k]| == lmax && IsCycle(a, n, loops[k]) && masks[k] == MaskOf(n, loops[k])) &&
    (forall p, q :: 0 <= p < q < |masks| ==> masks[p] != masks[q])
  }

  /** Accepting a new cycle whose mask is not yet stored keeps the invariant. */
  lemma StoreAccept(a: seq<bool>, n: nat, lmax: nat, masks: seq<seq<bool>>, loops: seq<seq<int>>, c: seq<int>)
    requires Store(a, n, lmax, masks, loops)
    requires |c| == lmax && IsCycle(a, n, c) && MaskOf(n, c) !in masks
    ensures Store(a, n, lmax, [MaskOf(n, c)] + masks, [c] + loops)
  {
  }

  /** The filled part V[length..lmax] of the path buffer, as suf, with the usage
      mask u: a walk of adjacent in-range vertices whose entries other than the
      start vertex suf[|suf| - 1] are distinct and are exactly the flagged ones. */
  ghost predicate Partial(a: seq<bool>, n: nat, u: seq<bool>, suf: seq<int>)
  {
    |u| == n && |suf| >= 1 && InRange(suf, n) &&
    (forall k :: 0 <= k < |suf| - 1 ==> Adjacent(a, n, suf[k], suf[k + 1])) &&
    Distinct(suf[..|suf| - 1]) &&
    (forall x :: 0 <= x < n ==> (u[x] <==> x in suf[..|suf| - 1]))
  }

  /** Placing an unused vertex adjacent to the newest one, and flagging it,
      gives a longer partial path. */
  lemma PartialExtend(a: seq<bool>, n: nat, u: seq<bool>, suf: seq<int>, i: int)
    requires Partial(a, n, u, suf)
    requires 0 <= i < n && !u[i] && Adjacent(a, n, i, suf[0])
    ensures Partial(a, n, u[i := true], [i] + suf)
  {
    var suf' := [i] + suf;
    assert suf'[..|suf'| - 1] == [i] + suf[..|suf| - 1];
    assert i !in suf[..|suf| - 1];
  }

  /** Writing i into slot p of the buffer puts i in front of the slots after p. */
  lemma SlotWrite(vs: seq<int>, p: nat, i: int)
    requires p < |vs|
    ensures vs[p := i][p..] == [i] + vs[p + 1..]
  {
  }

  /** A buffer whose slots from p on hold [i] + t has i in slot p and t after it. */
  lemma SlotRead(vs: seq<int>, p: nat, i: int, t: seq<int>)
    requires p < |vs| && vs[p..] == [i] + t
    ensures vs[p] == i && vs[p + 1..] == t
  {
  }

  /** A full buffer (lmax + 1 slots) whose first slot repeats the start vertex
      holds a cycle in its first lmax slots, and the mask is that cycle's. */
  lemma ClosedPathIsCycle(a: seq<bool>, n: nat, u: seq<bool>, path: seq<int>)
    requires Partial(a, n, u, path) && |path| >= 2
    requires path[0] == path[|path| - 1]
    ensures IsCycle(a, n, path[..|path| - 1])
    ensures u == MaskOf(n, path[..|path| - 1])
  {
  }

  /** w fills the empty slots V[0..|w|] in front of the partial path suf so that
      the buffer becomes a closed walk: every new vertex is in range, not flagged
      in u and distinct from the other new ones, every slot is adjacent to the
      next one, and slot 0 equals the last slot lmax. */
  ghost predicate Completion(a: seq<bool>, n: nat, lmax: nat, u: seq<bool>, suf: seq<int>, w: seq<int>)
  {
    |u| == n && |suf| >= 1 && |w| + |suf| == lmax + 1 &&
    (forall k :: 0 <= k < |w| ==> 0 <= w[k] < n && !u[w[k]]) &&
    Distinct(w) &&
    (forall k :: 0 <= k < |w| ==> Adjacent(a, n, (w + suf)[k], (w + suf)[k + 1])) &&
    (w + suf)[0] == (w + suf)[lmax]
  }

  /** A completion of suf whose last new vertex is i is a completion of the
      longer partial path [i] + suf, with i flagged; and i passes the test the
      search applies to candidates. */
  lemma CompletionStep(a: seq<bool>, n: nat, lmax: nat, u: seq<bool>, suf: seq<int>, w: seq<int>)
    requires Completion(a, n, lmax, u, suf, w) && |w| >= 1 && |suf| >= 1
    ensures 0 <= w[|w| - 1] < n && !u[w[|w| - 1]]
    ensures Adjacent(a, n, w[|w| - 1], suf[0])
    ensures Completion(a, n, lmax, u[w[|w| - 1] := true], [w[|w| - 1]] + suf, w[..|w| - 1])
    ensures w[..|w| - 1] + ([w[|w| - 1]] + suf) == w + suf
  {
    var i := w[|w| - 1];
    var w' := w[..|w| - 1];
    assert w' + ([i] + suf) == w + suf;
    assert (w + suf)[|w| - 1] == i && (w + suf)[|w|] == suf[0];
    forall k | 0 <= k < |w'|
      ensures w'[k] != i
    {
      assert w[k] == w'[k];
    }
  }

  /** Every cycle of length lmax starting at s is a completion of the buffer
      holding only s, from an all-clear mask. */
  lemma CycleIsCompletion(a: seq<bool>, n: nat, lmax: nat, u: seq<bool>, c: seq<int>)
    requires IsCycle(a, n, c) && |c| == lmax
    requires |u| == n && forall x :: 0 <= x < n ==> !u[x]
    ensures Completion(a, n, lmax, u, [c[0]], c)
    ensures (c + [c[0]])[..lmax] == c
  {
  }

  /** Every completion of the partial path suf whose newest vertex is at least
      `from` (every completion at all when suf already fills the buffer) has its
      usage mask among masks. */
  ghost predicate CompletionsStored(a: seq<bool>, n: nat, lmax: nat, u: seq<bool>, suf: seq<int>,
                                    masks: seq<seq<bool>>, from: int)
  {
    forall w {:trigger Completion(a, n, lmax, u, suf, w)} ::
      Completion(a, n, lmax, u, suf, w) && (w == [] || w[|w| - 1] >= from) ==>
        MaskOf(n, (w + suf)[..lmax]) in masks
  }

  /** When suf fills the whole buffer, its only completion is the empty one,
      which exists exactly when slot 0 repeats the start vertex; so storing the
      mask of suf[..lmax] in that case stores every completion. */
  lemma FullPathStored(a: seq<bool>, n: nat, lmax: nat, u: seq<bool>, suf: seq<int>,
                       masks: seq<seq<bool>>)
    requires |suf| == lmax + 1
    requires suf[0] == suf[lmax] ==> MaskOf(n, suf[..lmax]) in masks
    ensures CompletionsStored(a, n, lmax, u, suf, masks, 0)
  {
    forall w | Completion(a, n, lmax, u, suf, w)
      ensures MaskOf(n, (w + suf)[..lmax]) in masks
    {
      assert w == [] && w + suf == suf;
    }
  }

  /** Every mask in `after` that is not in `before` is the mask of some
      completion of the partial path suf: nothing else was added. */
  ghost predicate AddedAreCompletions(a: seq<bool>, n: nat, lmax: nat, u: seq<bool>, suf: seq<int>,
                                      before: seq<seq<bool>>, after: seq<seq<bool>>)
  {
    forall m :: m in after && m !in before ==>
      exists w :: Completion(a, n, lmax, u, suf, w) && m == MaskOf(n, (w + suf)[..lmax])
  }

  /** A completion of the longer partial path [i] + suf, with i flagged, followed
      by i, is a completion of suf: the converse of CompletionStep. */
  lemma CompletionLift(a: seq<bool>, n: nat, lmax: nat, u: seq<bool>, suf: seq<int>, w: seq<int>, i: int)
    requires |u| == n && |suf| >= 1 && 0 <= i < n && !u[i] && Adjacent(a, n, i, suf[0])
    requires Completion(a, n, lmax, u[i := true], [i] + suf, w)
    ensures Completion(a, n, lmax, u, suf, w + [i])
    ensures (w + [i]) + suf == w + ([i] + suf)
  {
    var w' := w + [i];
    assert w' + suf == w + ([i] + suf);
    forall k | 0 <= k < |w'|
      ensures 0 <= w'[k] < n && !u[w'[k]]
    {
      if k < |w| {
        assert w'[k] == w[k];
      }
    }
    forall p, q | 0 <= p < q < |w'|
      ensures w'[p] != w'[q]
    {
      assert w'[p] == w[p];
      if q < |w| {
        assert w'[q] == w[q];
      }
    }
    forall k | 0 <= k < |w'|
      ensures Adjacent(a, n, (w' + suf)[k], (w' + suf)[k + 1])
    {
      if k == |w| {
        assert (w' + suf)[k] == i && (w' + suf)[k + 1] == suf[0];
      }
    }
  }

  /** When the search at the longer path [i] + suf added only completions of
      it, the masks added so far at suf are still only completions of suf. */
  lemma AddedStep(a: seq<bool>, n: nat, lmax: nat, u: seq<bool>, suf: seq<int>,
                  l0: seq<seq<bool>>, l1: seq<seq<bool>>, l2: seq<seq<bool>>, i: int)
    requires |u| == n && |suf| >= 1 && 0 <= i < n && !u[i] && Adjacent(a, n, i, suf[0])
    requires AddedAreCompletions(a, n, lmax, u, suf, l0, l1)
    requires AddedAreCompletions(a, n, lmax, u[i := true], [i] + suf, l1, l2)
    ensures AddedAreCompletions(a, n, lmax, u, suf, l0, l2)
  {
    forall m | m in l2 && m !in l0
      ensures exists w :: Completion(a, n, lmax, u, suf, w) && m == MaskOf(n, (w + suf)[..lmax])
    {
      if m !in l1 {
        var w :| Completion(a, n, lmax, u[i := true], [i] + suf, w) &&
                 m == MaskOf(n, (w + ([i] + suf))[..lmax]);
        CompletionLift(a, n, lmax, u, suf, w, i);
        assert Completion(a, n, lmax, u, suf, w + [i]);
      }
    }
  }

  /** A full buffer whose slot 0 repeats the start vertex has the empty
      completion, so adding its mask (or nothing) adds only completions. */
  lemma FullPathAdded(a: seq<bool>, n: nat, lmax: nat, u: seq<bool>, suf: seq<int>,
                      before: seq<seq<bool>>, after: seq<seq<bool>>)
    requires |u| == n && |suf| == lmax + 1
    requires after == before || (suf[0] == suf[lmax] && after == [MaskOf(n, suf[..lmax])] + before)
    ensures AddedAreCompletions(a, n, lmax, u, suf, before, after)
  {
    if after != before {
      assert [] + suf == suf;
      assert Completion(a, n, lmax, u, suf, []);
    }
  }

  /** Every cycle of length lmax whose first vertex is at least `from` has its
      usage mask among masks. */
  ghost predicate CyclesStored(a: seq<bool>, n: nat, lmax: nat, masks: seq<seq<bool>>, from: int)
  {
    forall c {:trigger IsCycle(a, n, c)} ::
      |c| == lmax && IsCycle(a, n, c) && c[0] >= from ==> MaskOf(n, c) in masks
  }

  /** After the search explored candidate i for the newest slot (flagging it
      and storing every completion of the longer path), the completions whose
      newest vertex is i are stored too. */
  lemma StepStored(a: seq<bool>, n: nat, lmax: nat, u: seq<bool>, suf: seq<int>,
                   before: seq<seq<bool>>, after: seq<seq<bool>>, i: int)
    requires |u| == n && |suf| >= 1 && 0 <= i < n
    requires CompletionsStored(a, n, lmax, u, suf, before, i + 1)
    requires CompletionsStored(a, n, lmax, u[i := true], [i] + suf, after, 0)
    requires forall m :: m in before ==> m in after
    ensures CompletionsStored(a, n, lmax, u, suf, after, i)
  {
    forall w | Completion(a, n, lmax, u, suf, w) && (w == [] || w[|w| - 1] >= i)
      ensures MaskOf(n, (w + suf)[..lmax]) in after
    {
      if w != [] && w[|w| - 1] == i {
        CompletionStep(a, n, lmax, u, suf, w);
        assert Completion(a, n, lmax, u[i := true], [i] + suf, w[..|w| - 1]);
      }
    }
  }

  /** A candidate the search skips (already used, or not adjacent to the
      newest vertex) is the newest vertex of no completion. */
  lemma StepSkipped(a: seq<bool>, n: nat, lmax: nat, u: seq<bool>, suf: seq<int>,
                    masks: seq<seq<bool>>, i: int)
    requires |u| == n && |suf| >= 1 && 0 <= i < n
    requires u[i] || !Adjacent(a, n, i, suf[0])
    requires CompletionsStored(a, n, lmax, u, suf, masks, i + 1)
    ensures CompletionsStored(a, n, lmax, u, suf, masks, i)
  {
    forall w | Completion(a, n, lmax, u, suf, w) && w != []
      ensures w[|w| - 1] != i
    {
      CompletionStep(a, n, lmax, u, suf, w);
    }
  }

  /** After the search from start vertex s (clear mask, buffer holding only s)
      stored every completion, every cycle starting at s is stored. */
  lemma StartStored(a: seq<bool>, n: nat, lmax: nat, u: seq<bool>, s: int,
                    before: seq<seq<bool>>, after: seq<seq<bool>>)
    requires |u| == n && forall x :: 0 <= x < n ==> !u[x]
    requires CyclesStored(a, n, lmax, before, s + 1)
    requires CompletionsStored(a, n, lmax, u, [s], after, 0)
    requires forall m :: m in before ==> m in after
    ensures CyclesStored(a, n, lmax, after, s)
  {
    forall c | |c| == lmax && IsCycle(a, n, c) && c[0] >= s
      ensures MaskOf(n, c) in after
    {
      if c[0] == s {
        CycleIsCompletion(a, n, lmax, u, c);
      }
    }
  }

  /** Clearing flag i again after a deeper search step (which either left the
      mask alone or cleared flag i itself) restores the mask from before i
      was flagged. */
  lemma RestoreFlag(u: seq<bool>, after: seq<bool>, i: int)
    requires 0 <= i < |u| && !u[i]
    requires after == u[i := true] || after == u[i := true][i := false]
    ensures after[i := false] == u
  {
  }

  /** s is a suffix of t: t was obtained from s by prepending entries. */
  predicate IsSuffix<T(==)>(s: seq<T>, t: seq<T>)
  {
    |s| <= |t| && t[|t| - |s|..] == s
  }

  lemma SuffixTransitive<T>(s: seq<T>, t: seq<T>, r: seq<T>)
    requires IsSuffix(s, t) && IsSuffix(t, r)
    ensures IsSuffix(s, r)
  {
  }

  lemma SuffixMembers<T>(s: seq<T>, t: seq<T>)
    requires IsSuffix(s, t)
    ensures forall x :: x in s ==> x in t
  {
  }
}
