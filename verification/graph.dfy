/**
 The adjacency relation of the graph: an n*n boolean matrix stored flat, with
 cell (i, j) at position i + j*n, built from an undirected edge list.
 */
module Graph {

  /** Position of cell (i, j) in the flat matrix: it lies in row band j. */
  function Cell(n: nat, i: int, j: int): (p: nat)
    requires 0 <= i < n && 0 <= j < n
    ensures j * n <= p < (j + 1) * n && p < n * n
  {
    MulMonotone(j + 1, n, n);
    i + j * n
  }

  lemma MulMonotone(a: nat, b: nat, n: nat)
    requires a <= b
    ensures a * n <= b * n
  {
  }

  /** Distinct cells have distinct positions. */
  lemma CellInjective(n: nat, i: int, j: int, x: int, y: int)
    requires 0 <= i < n && 0 <= j < n && 0 <= x < n && 0 <= y < n
    ensures Cell(n, i, j) == Cell(n, x, y) ==> i == x && j == y
  {
    if j < y {
      MulMonotone(j + 1, y, n);
    } else if y < j {
      MulMonotone(y + 1, j, n);
    }
  }

  /** Vertices i and j are connected: A[i + j*N] in LoopFinder.cpp. */
  predicate Adjacent(a: seq<bool>, n: nat, i: int, j: int)
  {
    |a| == n * n && 0 <= i < n && 0 <= j < n && a[Cell(n, i, j)]
  }

  /** Writing b into cell (i, j) changes that cell and no other. */
  lemma SetCell(a: seq<bool>, a': seq<bool>, n: nat, i: int, j: int, b: bool)
    requires |a| == n * n && 0 <= i < n && 0 <= j < n
    requires a' == a[Cell(n, i, j) := b]
    ensures forall x, y :: Adjacent(a', n, x, y) == if x == i && y == j then b else Adjacent(a, n, x, y)
  {
    forall x, y
      ensures Adjacent(a', n, x, y) == if x == i && y == j then b else Adjacent(a, n, x, y)
    {
      if 0 <= x < n && 0 <= y < n {
        CellInjective(n, i, j, x, y);
      }
    }
  }

  /** Some edge of the list joins i and j, in either orientation. */
  predicate Linked(edges: seq<(int, int)>, i: int, j: int)
  {
    edges != [] &&
    (Linked(edges[..|edges| - 1], i, j) || edges[|edges| - 1] == (i, j) || edges[|edges| - 1] == (j, i))
  }

  /** The recursive definition of Linked agrees with "some position holds the pair". */
  lemma {:induction false} LinkedIffListed(edges: seq<(int, int)>, i: int, j: int)
    ensures Linked(edges, i, j) <==>
            exists k :: 0 <= k < |edges| && (edges[k] == (i, j) || edges[k] == (j, i))
  {
    if edges != [] {
      var front := edges[..|edges| - 1];
      LinkedIffListed(front, i, j);
      if Linked(front, i, j) {
        var k :| 0 <= k < |front| && (front[k] == (i, j) || front[k] == (j, i));
        assert edges[k] == front[k];
      }
      if exists k :: 0 <= k < |edges| && (edges[k] == (i, j) || edges[k] == (j, i)) {
        var k :| 0 <= k < |edges| && (edges[k] == (i, j) || edges[k] == (j, i));
        if k < |front| {
          assert front[k] == edges[k];
        }
      }
    }
  }

  lemma {:induction false} LinkedSymmetric(edges: seq<(int, int)>, i: int, j: int)
    ensures Linked(edges, i, j) == Linked(edges, j, i)
  {
    if edges != [] {
      LinkedSymmetric(edges[..|edges| - 1], i, j);
    }
  }

  /** a is exactly the matrix that inserting every non-self edge of the list produces. */
  ghost predicate IsAdjacencyOf(a: seq<bool>, n: nat, edges: seq<(int, int)>)
  {
    |a| == n * n &&
    forall i, j :: 0 <= i < n && 0 <= j < n ==>
      (Adjacent(a, n, i, j) <==> i != j && Linked(edges, i, j))
  }

  ghost predicate Symmetric(a: seq<bool>, n: nat)
  {
    forall i, j :: Adjacent(a, n, i, j) ==> Adjacent(a, n, j, i)
  }

  ghost predicate Irreflexive(a: seq<bool>, n: nat)
  {
    forall i :: !Adjacent(a, n, i, i)
  }

  /** The matrix built from any edge list is that of a simple undirected graph. */
  lemma AdjacencyIsSimple(a: seq<bool>, n: nat, edges: seq<(int, int)>)
    requires IsAdjacencyOf(a, n, edges)
    ensures Symmetric(a, n) && Irreflexive(a, n)
  {
    forall i, j | Adjacent(a, n, i, j)
      ensures Adjacent(a, n, j, i)
    {
      LinkedSymmetric(edges, i, j);
    }
  }
}
