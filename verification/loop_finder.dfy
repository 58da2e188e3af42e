/**
 The brute-force search for closed loops of length lmax in an undirected simple
 graph. LoopFinder.cpp keeps its state in globals; here they are the fields of one
 SearchContext: the vertex count N, the loop length lmax, the flat adjacency
 matrix A, the usage mask U, the participation counts L, and the two lists of
 accepted usage snapshots and accepted loops. The path buffer V is the caller's
 array, passed to Advance as `_advance` receives it.
 */
module LoopFinder {
  import opened Graph
  import opened Cycles
  import opened Similarity
  import opened Counting

  class SearchContext {
    const N: nat
    const lmax: nat
    const A: array<bool>
    const U: array<bool>
    const L: array<int>
    /** The contents of A, which nothing changes after construction. */
    ghost const Matrix: seq<bool>
    /** Accepted usage snapshots, newest first. */
    var UsageList: seq<seq<bool>>
    /** Accepted loops, newest first, aligned with UsageList. */
    var Loops: seq<seq<int>>

    ghost predicate Valid()
      reads this, A
    {
      1 <= lmax && A.Length == N * N && U.Length == N && L.Length == N && A != U &&
      A[..] == Matrix && Store(Matrix, N, lmax, UsageList, Loops)
    }

    /** The search may proceed at depth `length`: slots V[length..lmax] hold a
        partial path and U flags exactly the vertices it placed. */
    ghost predicate SearchState(V: array<int>, length: nat)
      reads this, A, U, V
    {
      Valid() && V.Length == lmax + 1 && length <= lmax && Partial(Matrix, N, U[..], V[length..])
    }

    /** `_read_network` on an edge list already read from the file, followed
        by `lmax = n`: clears L and U, clears the matrix, then inserts every edge
        except self edges in both orientations. */
    constructor (n: nat, edges: seq<(int, int)>, length: nat)
      requires 1 <= length
      requires forall k :: 0 <= k < |edges| && edges[k].0 != edges[k].1 ==>
                        0 <= edges[k].0 < n && 0 <= edges[k].1 < n
      ensures Valid() && N == n && lmax == length
      ensures fresh(A) && fresh(U) && fresh(L)
      ensures UsageList == [] && Loops == []
      ensures forall v :: 0 <= v < n ==> L[v] == 0 && !U[v]
      ensures IsAdjacencyOf(A[..], n, edges)
    {
      var l := new int[n];
      var u := new bool[n];
      var a := new bool[n * n];
      var i := n;
      while i > 0
        invariant 0 <= i <= n
        invariant forall x :: i <= x < n ==> l[x] == 0 && !u[x]
        invariant forall x, y :: i <= x < n && 0 <= y < n ==> !Adjacent(a[..], n, x, y)
      {
        i := i - 1;
        l[i] := 0;
        u[i] := false;
        var j := n;
        while j > 0
          invariant 0 <= j <= n
          invariant forall x, y :: ((i < x < n && 0 <= y < n) || (x == i && j <= y < n)) ==>
                                   !Adjacent(a[..], n, x, y)
          modifies a
        {
          j := j - 1;
          ghost var before := a[..];
          a[Cell(n, i, j)] := false;
          SetCell(before, a[..], n, i, j, false);
        }
      }
      var e := 0;
      while e < |edges|
        invariant 0 <= e <= |edges|
        invariant forall x, y :: 0 <= x < n && 0 <= y < n ==>
                                 (Adjacent(a[..], n, x, y) <==> x != y && Linked(edges[..e], x, y))
        modifies a
      {
        var (x, y) := edges[e];
        if x != y {
          ghost var before := a[..];
          a[Cell(n, x, y)] := true;
          ghost var middle := a[..];
          SetCell(before, middle, n, x, y, true);
          a[Cell(n, y, x)] := true;
          SetCell(middle, a[..], n, y, x, true);
        }
        assert edges[..e + 1][..e] == edges[..e];
        e := e + 1;
      }
      assert edges[..e] == edges;
      N, lmax := n, length;
      A, U, L := a, u, l;
      Matrix := a[..];
      UsageList, Loops := [], [];
    }

    /** `_add_new_loop`: copies U and V[0..lmax) into fresh buffers and puts the
        copies at the front of the two lists; earlier entries are kept as they are. */
    method AddNewLoop(V: array<int>)
      requires U.Length == N && V.Length > lmax
      modifies this
      ensures UsageList == [U[..]] + old(UsageList)
      ensures Loops == [V[..lmax]] + old(Loops)
    {
      var newM := new int[lmax];
      var newU := new bool[N];
      var i := N;
      while i > 0
        invariant 0 <= i <= N
        invariant newU[i..] == U[i..]
        modifies newU
      {
        i := i - 1;
        newU[i] := U[i];
      }
      i := lmax;
      while i > 0
        invariant 0 <= i <= lmax
        invariant newM[i..] == V[i..lmax]
        modifies newM
      {
        i := i - 1;
        newM[i] := V[i];
      }
      assert newU[..] == U[..] && newM[..] == V[..lmax];
      UsageList := [newU[..]] + UsageList;
      Loops := [newM[..]] + Loops;
    }

    /** `_check_new_loop`: adds the current loop unless some stored snapshot
        equals U. */
    method CheckNewLoop(V: array<int>)
      requires U.Length == N && V.Length > lmax
      requires forall k :: 0 <= k < |UsageList| ==> |UsageList[k]| == N
      modifies this
      ensures U[..] in old(UsageList) ==> UsageList == old(UsageList) && Loops == old(Loops)
      ensures U[..] !in old(UsageList) ==>
                UsageList == [U[..]] + old(UsageList) && Loops == [V[..lmax]] + old(Loops)
    {
      if |UsageList| > 0 {
        var k := 0;
        while k < |UsageList|
          invariant 0 <= k <= |UsageList|
          invariant UsageList == old(UsageList) && Loops == old(Loops)
          invariant forall p :: 0 <= p < k ==> UsageList[p] != U[..]
        {
          var same := AreSimilar(N, U[..], UsageList[k]);
          if same {
            return;
          }
          k := k + 1;
        }
      }
      AddNewLoop(V);
    }

    /** `_advance`: fills slot length-1 with every unused neighbour of V[length],
        highest vertex first, recursing on each; at depth 0 it accepts the buffer
        if it closes on the start vertex and then clears U[V[0]].
        On return U is as on entry (at depth 0, with V[0] cleared), slots
        V[length..] are untouched, the lists were only prepended to, and every
        way of closing the partial path has its usage mask stored. */
    method Advance(length: nat, V: array<int>)
      requires SearchState(V, length)
      modifies this, U, V
      decreases length, 1
      ensures Valid()
      ensures V[length..] == old(V[length..])
      ensures length > 0 ==> U[..] == old(U[..])
      ensures length == 0 ==> U[..] == old(U[..])[V[0] := false]
      ensures IsSuffix(old(UsageList), UsageList) && IsSuffix(old(Loops), Loops)
      ensures CompletionsStored(Matrix, N, lmax, old(U[..]), old(V[length..]), UsageList, 0)
      ensures AddedAreCompletions(Matrix, N, lmax, old(U[..]), old(V[length..]), old(UsageList), UsageList)
    {
      ghost var u0, suf := U[..], V[length..];
      var j := V[length];
      if length > 0 {
        var i := N;
        while i > 0
          invariant 0 <= i <= N
          invariant Valid()
          invariant V[length..] == suf && U[..] == u0
          invariant IsSuffix(old(UsageList), UsageList) && IsSuffix(old(Loops), Loops)
          invariant CompletionsStored(Matrix, N, lmax, u0, suf, UsageList, i)
          invariant AddedAreCompletions(Matrix, N, lmax, u0, suf, old(UsageList), UsageList)
          decreases i
        {
          i := i - 1;
          ghost var before, beforeLoops := UsageList, Loops;
          if !U[i] && A[Cell(N, i, j)] {
            TryCandidate(length, V, i);
            SuffixTransitive(old(UsageList), before, UsageList);
            SuffixTransitive(old(Loops), beforeLoops, Loops);
            SuffixMembers(before, UsageList);
            StepStored(Matrix, N, lmax, u0, suf, before, UsageList, i);
            AddedStep(Matrix, N, lmax, u0, suf, old(UsageList), before, UsageList, i);
          } else {
            StepSkipped(Matrix, N, lmax, u0, suf, UsageList, i);
          }
        }
      } else {
        CloseLoop(V);
      }
    }

    /** One pass of the candidate loop of `_advance` for a vertex i that is
        unflagged and adjacent to the newest vertex V[length]: place i in slot
        length - 1, flag it, search one level deeper, unflag it. Afterwards U
        and V[length..] are as before and every completion of the longer path
        has its mask stored. */
    method TryCandidate(length: nat, V: array<int>, i: int)
      requires SearchState(V, length) && length > 0
      requires 0 <= i < N && !U[i] && Adjacent(Matrix, N, i, V[length])
      modifies this, U, V
      decreases length, 0
      ensures Valid()
      ensures V[length..] == old(V[length..]) && U[..] == old(U[..])
      ensures IsSuffix(old(UsageList), UsageList) && IsSuffix(old(Loops), Loops)
      ensures CompletionsStored(Matrix, N, lmax, old(U[..])[i := true], [i] + old(V[length..]), UsageList, 0)
      ensures AddedAreCompletions(Matrix, N, lmax, old(U[..])[i := true], [i] + old(V[length..]),
                                  old(UsageList), UsageList)
    {
      ghost var u0, suf, vs := U[..], V[length..], V[..];
      V[length - 1] := i;
      U[i] := true;
      ghost var u1, suf1 := U[..], V[length - 1..];
      assert V[..] == vs[length - 1 := i];
      SlotWrite(vs, length - 1, i);
      assert u1 == u0[i := true] && suf1 == [i] + suf;
      PartialExtend(Matrix, N, u0, suf, i);
      Advance(length - 1, V);
      ghost var u2 := U[..];
      SlotRead(V[..], length - 1, i, suf);
      U[i] := false;
      assert U[..] == u2[i := false];
      RestoreFlag(u0, u2, i);
      assert U[..] == u0 && V[length..] == suf;
    }

    /** The base case of `_advance` (length 0, the buffer is full): when slot 0
        repeats the start vertex the buffer holds a loop, which is checked
        against the stored ones; in either case the vertex in slot 0 is then
        unflagged. */
    method CloseLoop(V: array<int>)
      requires SearchState(V, 0)
      modifies this, U
      ensures Valid()
      ensures U[..] == old(U[..])[V[0] := false]
      ensures IsSuffix(old(UsageList), UsageList) && IsSuffix(old(Loops), Loops)
      ensures V[0] != V[lmax] ==> UsageList == old(UsageList) && Loops == old(Loops)
      ensures V[0] == V[lmax] ==>
                if old(U[..]) in old(UsageList) then UsageList == old(UsageList) && Loops == old(Loops)
                else UsageList == [old(U[..])] + old(UsageList) && Loops == [V[..lmax]] + old(Loops)
      ensures CompletionsStored(Matrix, N, lmax, old(U[..]), V[..], UsageList, 0)
      ensures AddedAreCompletions(Matrix, N, lmax, old(U[..]), V[..], old(UsageList), UsageList)
    {
      ghost var u0, suf := U[..], V[..];
      ghost var before := UsageList;
      if V[0] == V[lmax] {
        ghost var beforeLoops := Loops;
        assert IsCycle(Matrix, N, V[..lmax]) && U[..] == MaskOf(N, V[..lmax]) by {
          assert V[..] == V[0..] && V[..lmax] == suf[..lmax];
          ClosedPathIsCycle(Matrix, N, u0, suf);
        }
        CheckNewLoop(V);
        assert Valid() by {
          if U[..] !in before {
            StoreAccept(Matrix, N, lmax, before, beforeLoops, V[..lmax]);
          }
        }
      }
      FullPathStored(Matrix, N, lmax, u0, suf, UsageList);
      FullPathAdded(Matrix, N, lmax, u0, suf, before, UsageList);
      U[V[0]] := false;
    }

    /** The start-vertex loop of `main`: for s = N-1 down to 0 it puts s in the
        last slot of a fresh buffer and calls Advance(lmax). s itself is not
        flagged in U, which is what lets it reappear in slot 0. Afterwards the
        mask of every cycle of length lmax is stored, and U is clear again. */
    method Search()
      requires Valid()
      requires forall v :: 0 <= v < N ==> !U[v]
      modifies this, U
      ensures Valid()
      ensures forall v :: 0 <= v < N ==> !U[v]
      ensures IsSuffix(old(UsageList), UsageList) && IsSuffix(old(Loops), Loops)
      ensures CyclesStored(Matrix, N, lmax, UsageList, 0)
    {
      var V := new int[lmax + 1];
      ghost var u0 := U[..];
      var s := N;
      while s > 0
        invariant 0 <= s <= N
        invariant Valid() && U[..] == u0
        invariant IsSuffix(old(UsageList), UsageList) && IsSuffix(old(Loops), Loops)
        invariant CyclesStored(Matrix, N, lmax, UsageList, s)
        decreases s
      {
        s := s - 1;
        V[lmax] := s;
        assert V[lmax..] == [s];
        ghost var before, beforeLoops := UsageList, Loops;
        Advance(lmax, V);
        SuffixTransitive(old(UsageList), before, UsageList);
        SuffixTransitive(old(Loops), beforeLoops, Loops);
        SuffixMembers(before, UsageList);
        StartStored(Matrix, N, lmax, u0, s, before, UsageList);
      }
    }

    /** The counting loop of `_print_loops`: walks every stored loop from the
        front of the list and increments L at each of its lmax entries. */
    method CountParticipation()
      requires Valid()
      modifies L
      ensures forall v :: 0 <= v < N ==> L[v] == old(L[v]) + Participation(Loops, v)
    {
      var loops := Loops;
      assert forall k :: 0 <= k < |loops| ==> |loops[k]| == lmax && InRange(loops[k], N);
      var k := 0;
      while k < |loops|
        invariant 0 <= k <= |loops|
        invariant forall v :: 0 <= v < N ==> L[v] == old(L[v]) + Participation(loops[..k], v)
      {
        var W := loops[k];
        ghost var base := L[..];
        var i := 0;
        while i < lmax
          invariant 0 <= i <= lmax
          invariant forall v :: 0 <= v < N ==> L[v] == base[v] + Occurrences(W[..i], v)
        {
          L[W[i]] := L[W[i]] + 1;
          OccurrencesPrefix(W, i);
          i := i + 1;
        }
        assert W[..i] == W;
        ParticipationPrefix(loops, k);
        k := k + 1;
      }
      assert loops[..k] == loops;
    }
  }

  /** One run on one graph: read the network, search every start vertex, then
      count participation. Every stored loop is a cycle of length lmax, no vertex
      set is stored twice, every cycle's vertex set is stored, L[v] is the number
      of stored loops through v, and the counts add up to lmax per loop. */
  method FindLoops(n: nat, edges: seq<(int, int)>, lmax: nat) returns (f: SearchContext)
    requires 1 <= lmax
    requires forall k :: 0 <= k < |edges| && edges[k].0 != edges[k].1 ==>
                        0 <= edges[k].0 < n && 0 <= edges[k].1 < n
    ensures f.Valid() && f.N == n && f.lmax == lmax
    ensures IsAdjacencyOf(f.A[..], n, edges)
    ensures Store(f.A[..], n, lmax, f.UsageList, f.Loops)
    ensures forall c :: |c| == lmax && IsCycle(f.A[..], n, c) ==> MaskOf(n, c) in f.UsageList
    ensures forall v :: 0 <= v < n ==> !f.U[v] && f.L[v] == Containing(f.Loops, v)
    ensures SumTo(f.L[..], n) == lmax * |f.Loops|
  {
    f := new SearchContext(n, edges, lmax);
    f.Search();
    f.CountParticipation();
    forall v | 0 <= v < n
      ensures f.L[v] == Containing(f.Loops, v)
    {
      ParticipationCountsLoops(f.Loops, v);
    }
    SumOfParticipation(f.L[..], f.Loops, n);
    TotalParticipationIs(f.Loops, n, lmax);
  }
}
