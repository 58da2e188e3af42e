# LoopFinder in Dafny

LoopFinder is a brute-force search for closed loops of a given length `lmax` in an
undirected simple graph. There are two versions, `LoopFinder.cpp` and `LoopFinder.c`,
and they run the same algorithm; the C version calls loops "motifs". The program:

- reads a network of `N` vertices into a flat boolean adjacency matrix `A`, where
  cell (i, j) is `A[i + j*N]`;
- tries every start vertex `s` in turn. For each one, a recursive step (`_advance`)
  fills a path buffer `V[0..lmax]` from the back, with unused neighbours of the
  newest vertex. The usage mask `U` flags the vertices already on the path;
- accepts the buffer as a loop when slot 0 comes back to the start vertex. The
  loop is stored only if no stored loop has the same vertex set, i.e. the same
  usage mask;
- finally counts, for each vertex, the stored loops it takes part in (`L`).

`main` does not flag the start vertex when it puts it in slot `lmax`. It is
flagged only when the search places it again (LoopFinder.cpp:100). That lets it
come back in slot 0, and puts it in the stored mask. The model keeps this
behaviour, including its consequence for `lmax = 2`: every edge i–j is then
stored as a loop of two vertices.

The model's modules:

- `Graph`: the flat matrix layout, adjacency, and the matrix an edge list gives rise to.
- `Cycles`: the reference definitions the search is proved against. It defines:
  - what a simple cycle is;
  - the usage mask of a vertex sequence;
  - the invariant of the two stored lists;
  - the partial paths the buffer holds;
  - the "completions" that close a partial path.

  It also proves the step lemmas that carry completeness through the search.
- `Similarity`: the mask comparison `_are_similar`.
- `Counting`: the participation counts and how they relate to the stored loops.
- `LoopFinder`: the program's global state as one class, `SearchContext`. It has:
  - the fields `N`, `lmax`, `A`, `U`, `L`;
  - the two lists, `UsageList` and `Loops`.

  Its methods are LoopFinder's functions. The path buffer `V` is an array the
  caller passes in, as `main` passes it to `_advance`.

What the model proves about one run (`FindLoops`):

- every stored loop is a simple cycle of length `lmax`, and its stored mask is
  that cycle's vertex set;
- no vertex set is stored twice;
- the vertex set of every cycle of length `lmax` in the graph is stored
  (completeness);
- `U` is all clear again at the end;
- `L[v]` is the number of stored loops through `v`;
- the `L` counts add up to `lmax` times the number of loops;
- the matrix is symmetric and has no self loops.

## Model

| member | source | states |
|---|---|---|
| Graph.Cell | LoopFinder.cpp:15-18 | cell (i, j) of the flat matrix is at a position inside row band j, so it is below N*N |
| Graph.CellInjective | LoopFinder.c:16-18 | two different cells (i, j) and (x, y) never share a position of the flat matrix |
| Graph.LinkedIffListed | LoopFinder.cpp:134-135 | the edge relation built one edge at a time holds for (i, j) exactly when some edge of the list is (i, j) or (j, i) |
| Graph.AdjacencyIsSimple | LoopFinder.c:133-134 | a matrix built from any edge list is symmetric and has an all-false diagonal, which is the simple undirected graph the header comment assumes |
| LoopFinder.SearchContext.constructor | LoopFinder.cpp:126-136 | L is all zero, U all clear, the lists empty, and A[i + j*N] is set exactly when i != j and the edge list joins i and j in either orientation |
| Similarity.Agreements | LoopFinder.cpp:40-43 | the number of agreeing positions from i on is at most the number of positions, and it reaches that bound exactly when the masks agree on all of them |
| Similarity.AreSimilar | LoopFinder.c:39-45 | the masks are reported similar exactly when they are equal, and dissimilar exactly when some position differs |
| LoopFinder.SearchContext.AddNewLoop | LoopFinder.cpp:47-54 | copies of U and of V[0..lmax) go to the front of UsageList and Loops, and every earlier entry is kept |
| LoopFinder.SearchContext.CheckNewLoop | LoopFinder.c:59-68 | if U equals a stored mask, both lists are unchanged; otherwise U and V[0..lmax) are prepended |
| Cycles.StoreAccept | LoopFinder.cpp:59-68 | prepending a cycle of length lmax whose mask is not yet stored keeps both lists aligned, keeps every entry a cycle with its own mask, and keeps masks pairwise distinct |
| LoopFinder.SearchContext.Advance | LoopFinder.cpp:94-111 | keeps the store invariant and leaves V[length..] alone. U is as on entry; at depth 0, U[V[0]] is cleared. The lists are only prepended to. Every way of closing the current partial path into a loop has its mask stored, and every mask the call adds is the mask of such a closing |
| LoopFinder.SearchContext.TryCandidate | LoopFinder.c:98-103 | for an unused neighbour i of V[length]: U and V[length..] come back as they were. Every closing of the path extended by i has its mask stored, and every added mask is the mask of such a closing |
| LoopFinder.SearchContext.CloseLoop | LoopFinder.c:105-110 | when slot 0 differs from slot lmax, both lists are unchanged. When they are equal, the lists are unchanged if U is already stored, and otherwise exactly U and V[0..lmax) are prepended. U[V[0]] is cleared afterwards, the store invariant holds, and the buffer's only possible closing is stored |
| Cycles.CompletionLift | LoopFinder.cpp:99-101 | a closing of the path extended by an unused neighbour i, followed by i, is a closing of the shorter path (the converse of CompletionStep) |
| Cycles.AddedStep | LoopFinder.c:97-103 | if the recursive call for candidate i added only closings of the extended path, the loop has still added only closings of the current path |
| Cycles.FullPathAdded | LoopFinder.c:106-107 | storing a full buffer's mask when slot 0 equals slot lmax, or storing nothing, adds only closings of that buffer |
| Cycles.SlotWrite | LoopFinder.cpp:99 | writing i into slot length-1 of the buffer makes the filled part i followed by the part filled before |
| Cycles.SlotRead | LoopFinder.cpp:101-102 | after the recursive call, slot length-1 still holds i and the slots after it are the earlier filled part |
| Cycles.PartialExtend | LoopFinder.cpp:98-100 | placing an unused vertex adjacent to the newest one, and flagging it, yields a valid longer partial path |
| Cycles.ClosedPathIsCycle | LoopFinder.cpp:106-107 | a full buffer whose slot 0 equals slot lmax holds a simple cycle in V[0..lmax), and U is exactly that cycle's vertex set |
| Cycles.CompletionStep | LoopFinder.c:97-101 | the last new vertex of any closing is unused and adjacent to the newest vertex, so the loop tries it; the rest of the closing then closes the extended path |
| Cycles.StepStored | LoopFinder.cpp:97-103 | once candidate i has been explored, the closings whose newest vertex is at least i are all stored |
| Cycles.StepSkipped | LoopFinder.cpp:98 | a candidate the test rejects (already used, or not adjacent) is the newest vertex of no closing, so skipping it loses nothing |
| Cycles.FullPathStored | LoopFinder.cpp:105-109 | a full buffer has one closing only when slot 0 equals slot lmax, so storing its mask in that case stores every closing |
| Cycles.RestoreFlag | LoopFinder.c:100-102 | clearing U[i] after the recursive call restores the mask from before i was flagged, whether or not the call cleared it |
| Cycles.CycleIsCompletion | LoopFinder.c:183-185 | every cycle of length lmax is a closing of the buffer that holds only its first vertex, with a clear mask |
| Cycles.StartStored | LoopFinder.c:183-186 | after the search from start vertex s, every cycle of length lmax whose first vertex is at least s has its mask stored |
| LoopFinder.SearchContext.Search | LoopFinder.cpp:214-217 | trying start vertices N-1 down to 0 leaves U clear and keeps the store invariant, and it stores the mask of every cycle of length lmax |
| Counting.Occurrences | LoopFinder.c:75-79 | the number of positions holding v is at most the length, and it is zero exactly when v does not occur |
| Counting.OccurrencesPrefix | LoopFinder.cpp:75-78 | the inner counting loop adds exactly one to the count of the vertex in the current slot |
| Counting.ParticipationPrefix | LoopFinder.cpp:74 | the outer loop adds the occurrences in one more stored loop |
| LoopFinder.SearchContext.CountParticipation | LoopFinder.c:74-81 | each L[v] grows by the number of occurrences of v over all stored loops |
| Counting.Containing | LoopFinder.cpp:24-25 | the number of stored loops containing v is at most the number of stored loops |
| Counting.OccurrencesOfDistinct | LoopFinder.c:24-25 | a vertex occurs at most once in a loop of distinct vertices |
| Counting.ParticipationCountsLoops | LoopFinder.cpp:24-25 | when every loop's vertices are distinct, the occurrence count of v is the number of loops containing v, which is what the comment on L promises |
| Counting.TotalOccurrencesIsLength | LoopFinder.cpp:78 | summed over all vertices, the count for a loop of in-range vertices is its length |
| Counting.TotalParticipationIs | LoopFinder.cpp:74-81 | summed over all vertices, the counts for loops of lmax in-range vertices come to lmax times the number of loops |
| Counting.SumOfParticipation | LoopFinder.c:82-85 | the printed counts L[0..N) add up to the summed participation |
| LoopFinder.FindLoops | LoopFinder.c:177-186 | reading, searching and counting yield the matrix of the edge list and a sound, duplicate-free store holding every cycle's vertex set. U ends clear, L[v] counts the stored loops through v, and the counts sum to lmax per loop |

## Left out

- Reading the `.gnet` file is not modelled: opening it, scanning N and the edge
  triples, and ignoring the weights (LoopFinder.cpp:119-124, 134, 137). The
  constructor takes N and the edge list as parameters. A self edge (i, i) is
  dropped by the `i != j` test whatever i is, and the model accepts it too. An
  edge with distinct endpoints outside [0, N) is not modelled: it writes either
  outside the matrix or into cells of other pairs, e.g. (-1, N) sets the diagonal
  cells A[N*N-1] and A[0]. The constructor and FindLoops require the endpoints
  of every non-self edge to lie in [0, N).
- All `printf` output is not modelled: the loop listing, the counts, and the
  `>>file` lines.
- `_export_gml` and its XGMML file are not modelled. They are file output and
  they use floating-point `sqrt`. The model keeps only the counting loop of
  `_print_loops`, which `_export_gml` calls.
- `main`'s argument parsing is not modelled.
- The batch mode of LoopFinder.cpp is not modelled. It lists files with
  `system`/`ls`, reads them with `fgets`, and runs once per file. It never
  clears `UsageList` and `Loops` between files, so a later file's report would
  also count the loops of earlier files. The model covers one run on one
  network from fresh state.
- Integer width is not modelled. Vertex numbers, `lmax`, matrix positions and
  the counts in `L` are unbounded. Each `L[v]` rises by at most one per stored
  loop. The C `int` arithmetic of the matrix size `N*N` and of the index
  `i+j*N` (LoopFinder.cpp:128, 132, 135) overflows once N > 46340; the model
  computes both exactly.
- Memory management is not modelled: raw `new[]` buffers that are never freed,
  and the variable-length array `V`. Stored entries are value copies
  (`seq`), as `_add_new_loop` copies `U` and `V` into fresh buffers.
- The constructor, Search and FindLoops require lmax ≥ 1. With `lmax = 0` the
  program stores one empty "loop" with an all-clear mask. That degenerate run is
  not modelled.
- The search's recursion runs on an explicit `length` parameter that decreases.
  Stack depth is not modelled.
