# Randomized local search for Maximum Clique, in Dafny

This project models `clique_stud2.cpp`, a heuristic for the Maximum Clique
problem, and proves properties of the model. The program's class
`MaxCliqueProblem` does four things:

- it keeps the graph as one neighbour set per vertex, filled symmetrically
  from the edges of a DIMACS file;
- it runs one trial of local search: start from a random vertex, add random
  candidates (vertices adjacent to every member), and when none is left try
  to erase a "problematic" member;
- `FindClique` repeats the trial and keeps the largest clique found;
- `Check` certifies the reported vector of vertices.

The model keeps the program's form. `MaxCliqueProblem` is a Dafny class. Its
field `neighbourSets: seq<set<int>>` models `neighbour_sets`, and its field
`bestClique: seq<int>` models `best_clique`. The trial loop, the candidate
scan, the removal scan and `Check` are methods with loops and invariants. They
are proved against specification predicates in module `Graph` and module
`Validator`. The outer search's choice of the best clique is a fold, `BestOf`,
in module `Search`. `FindClique` returns the trials' cliques as a ghost value
and promises that `bestClique` lists `BestOf` of them.

Each loop over an `unordered_set` picks its next element with Dafny's `:|`.
Nothing is assumed about the set's iteration order.

The random draws of `GetRandom` come from a `RandomSource` object that is
passed in (module `Random`). Callers rely only on its contract `a <= r <= b`.
So every property about a trial or a search holds for every sequence of random
choices.

What is proved, in short:

- The candidate scan returns exactly the vertices outside the clique that are
  adjacent to every member. They come in increasing order.
- On symmetric neighbour sets, inserting a candidate keeps the set a clique
  and grows it by one. So the removal scan never finds a problematic vertex:
  a set of vertices has one exactly when it is not a clique.
- Every trial terminates, after at most n - 1 insertions (measure
  n - |clique|). It ends with a locally maximal clique that contains its
  start vertex.
- The best clique is the first trial's clique of maximal size: ties keep the
  earlier one. Its size never decreases as trials are added.
- After `FindClique`, `bestClique` lists the best clique with no repetition.
  It is empty exactly when `iterations <= 0`. `Check` accepts it.
- `Check` returns true exactly when no two neighbouring entries are equal and
  every ordered pair of distinct entries is an edge.
- Edge insertion keeps the neighbour sets symmetric. After reading, j is a
  neighbour of i exactly when some edge joins them.
- The triangle yields the clique {0, 1, 2}. A graph without edges yields a
  single vertex. A star yields one of its edges.

The symmetry of the neighbour sets is the class invariant `Valid()`, and edge
insertion establishes it. Termination depends on it. Take neighbour sets
that are not symmetric: vertex 1 is in vertex 0's set, but vertex 0 is not
in vertex 1's set. A trial started at 0 adds 1, then finds 1 problematic and
erases it, then adds it again, and never stops. Reading a file cannot produce
such sets.

Three behaviours a reader might not expect, which the model keeps as the code
has them:

- Duplicates are detected with `std::unique` on the unsorted vector, not
  after sorting (see Findings).
- With zero iterations the reported clique is empty.
- A draw over an empty graph is undefined behaviour, not a reported error.

## Model

| member | source | states |
|---|---|---|
| `MaxClique.MaxCliqueProblem.constructor` | clique_stud2.cpp:170-172 | a new problem has no vertices and an empty reported clique, and satisfies the class invariant |
| `MaxClique.MaxCliqueProblem.AddEdge` | clique_stud2.cpp:45-49 | the 1-based edge (start, finish) puts finish-1 into start-1's set and start-1 into finish-1's set; nothing else changes; the sets stay symmetric |
| `MaxClique.MaxCliqueProblem.ReadGraph` | clique_stud2.cpp:37-50 | after the problem line's resize and the edge lines, the neighbour sets are the resized old sets with every edge inserted in order; they stay symmetric and closed |
| `Graph.Resized` | clique_stud2.cpp:41 | `resize(n)` yields n sets: the old ones where they exist, empty ones after them |
| `Graph.ResizedKeepsSymmetric` | clique_stud2.cpp:41 | growing symmetric, closed neighbour sets keeps them symmetric and closed |
| `Graph.InsertEdge` | clique_stud2.cpp:48-49 | inserting {i, j} adds j to set i and i to set j and changes no other set |
| `Graph.InsertEdgeKeepsSymmetric` | clique_stud2.cpp:48-49 | inserting an edge keeps the sets symmetric and closed, and makes both endpoints neighbours of each other |
| `Graph.InsertEdges` | clique_stud2.cpp:45-49 | the edges are inserted in order, each converted from 1-based to 0-based; there are as many sets as before and no neighbour is lost |
| `Graph.InsertEdgesAdjacency` | clique_stud2.cpp:45-49 | after inserting an edge list, j is a neighbour of i exactly when it was before or some edge (1-based, either direction) joins them; repeated edges collapse |
| `Graph.InsertEdgesKeepsSymmetric` | clique_stud2.cpp:45-49 | inserting any list of in-range edges into symmetric, closed sets leaves them symmetric and closed |
| `Random.RandomSource.constructor` | clique_stud2.cpp:18 | the generator starts from the given tape of raw draws, which stands for the static `mt19937`'s initial state |
| `Random.RandomSource.GetRandom` | clique_stud2.cpp:16-21 | for a <= b, the draw lies in [a, b]; it is the next raw draw reduced into that range |
| `Graph.Vertices` | clique_stud2.cpp:78 | the vertices scanned, 0 .. n-1, are n values |
| `MaxClique.MaxCliqueProblem.CollectCandidates` | clique_stud2.cpp:76-97 | every collected vertex is outside the clique and adjacent to every member; every such vertex is collected; the list is strictly increasing, so it holds no duplicates |
| `Graph.InsertCandidateKeepsClique` | clique_stud2.cpp:100-105 | on symmetric sets, adding a candidate to a clique gives a clique one vertex larger |
| `MaxClique.MaxCliqueProblem.FindProblematic` | clique_stud2.cpp:108-122 | a vertex is reported only if some other member is not its neighbour; when none is reported, the set is a clique |
| `Graph.CliqueIffNoProblematic` | clique_stud2.cpp:109-122 | a set of vertices is a clique exactly when none of its members is problematic |
| `Graph.InRangeSize` | clique_stud2.cpp:72-106 | a set of vertices of an n-vertex graph has at most n members, which bounds the insertions of a trial |
| `MaxClique.MaxCliqueProblem.Trial` | clique_stud2.cpp:65-130 | for n >= 1 and any random choices, a trial terminates with a locally maximal clique that contains its start vertex in [0, n); the clique has at most n vertices, one start vertex plus n - 1 insertions at most |
| `Search.KeepBest` | clique_stud2.cpp:133-136 | the result is the earlier best or the trial's clique, at least as large as both, and the earlier best on equal sizes |
| `Search.BestOf` | clique_stud2.cpp:61-136 | the best clique after a run of trials is the left-to-right fold of `KeepBest` from the empty set: empty before any trial, and at least as large as the latest trial's clique |
| `Search.BestOfIsLargest` | clique_stud2.cpp:63-137 | no trial's clique is larger than the best one |
| `Search.BestOfIsFirstLargest` | clique_stud2.cpp:133-136 | the best clique is the clique of a trial k that every earlier trial is strictly smaller than: the first one found wins ties |
| `Search.BestOfMonotone` | clique_stud2.cpp:133-136 | the best size after i trials is at most the best size after j >= i trials |
| `Search.BestOfIsSomeTrial` | clique_stud2.cpp:133-136 | the best clique is still empty or is one trial's clique |
| `Search.Enumerate` | clique_stud2.cpp:140 | the vector lists exactly the members of the set, each once, so it is as long as the set is large |
| `MaxClique.MaxCliqueProblem.FindClique` | clique_stud2.cpp:54-141 | the graph is unchanged; max(iterations, 0) trials, each a non-empty locally maximal clique; `bestClique` lists `BestOf` of them without repetition; it is a clique that `Check` accepts; it is empty exactly when iterations <= 0 |
| `MaxClique.MaxCliqueProblem.AllPairsAdjacent` | clique_stud2.cpp:156-166 | true exactly when every ordered pair of distinct entries (i, j) has j in i's neighbour set |
| `MaxClique.MaxCliqueProblem.Check` | clique_stud2.cpp:149-168 | true exactly when no two neighbouring entries are equal and every pair of distinct entries is adjacent |
| `Validator.PairwiseAdjacentIffClique` | clique_stud2.cpp:156-166 | for entries that are vertices, the adjacency test holds exactly when the listed vertices form a clique |
| `Validator.DistinctCliquePassesCheck` | clique_stud2.cpp:149-168 | a vector that lists a clique without repetition passes both tests of `Check` |
| `Validator.SeparatedDuplicatePassesCheck` | clique_stud2.cpp:151 | [0, 1, 0] over the edge {0, 1} passes both tests of `Check` although it repeats vertex 0 |
| `MaxClique.MaxCliqueProblem.CheckDistinct` | clique_stud2.cpp:151-155 | corrected `Check`: true exactly when no vertex occurs twice, wherever the copies stand, and every pair of distinct entries is adjacent |
| `Scenarios.TriangleIsComplete` | clique_stud2.cpp:45-49 | the edges 1-2, 2-3, 1-3 read into three empty sets give the complete graph on three vertices |
| `Scenarios.CompleteGraphTrial` | clique_stud2.cpp:72-130 | in a complete graph, the only locally maximal clique is the whole vertex set |
| `Scenarios.EdgelessGraphTrial` | clique_stud2.cpp:72-130 | in a graph without edges, a locally maximal clique has exactly one vertex |
| `Scenarios.StarGraphTrial` | clique_stud2.cpp:72-130 | in a star with k >= 1 leaves, a locally maximal clique is the centre and one leaf |
| `Scenarios.CompleteGraphSearch` | clique_stud2.cpp:63-136 | on a complete graph with at least one vertex, any non-empty run of trials ends with the whole vertex set as the best clique |
| `Scenarios.SearchTriangle` | clique_stud2.cpp:54-168 | reading the triangle and searching with at least one trial reports exactly {0, 1, 2}, and both `Check` and `CheckDistinct` accept it |

## Left out

- File reading and DIMACS tokenising (clique_stud2.cpp:25-44) are I/O over library streams. `ReadGraph` takes the vertex count of the problem line and the list of 1-based edges.
- `main` (clique_stud2.cpp:175-208) is console prompts, a fixed file list, CSV output and `clock()` timing. The console messages of `Check` are left out too; only its boolean result is modelled.
- The Mersenne-Twister generator and `uniform_int_distribution` are a foreign library. `RandomSource` stands in for them with a tape of raw draws; when the tape is empty it returns the lower bound. The unused second static generator (clique_stud2.cpp:56) is left out.
- The static generator is shared by every call in the process. The model passes one `RandomSource` object to `FindClique` instead.
- The iteration order of `unordered_set` is not modelled. Each loop over a set picks its next member nondeterministically, and `Enumerate` may list the members in any order.
- `FindClique` accepts `randomization` and ignores it, as the source does.
- The trial is a separate method `Trial` here; in the source it is the body of `FindClique`'s loop.
- `GetClique` (clique_stud2.cpp:144-147) only returns `best_clique`. Callers read the field `bestClique` instead.
- `MaxClique.MaxCliqueProblem.ReadGraph`: requires the problem line not to shrink the graph (`|neighbourSets| <= vertices`). The source's `resize` would also truncate, leaving neighbours that name removed vertices. With a single problem line on a new object, as the program reads files, this never happens.
- `MaxClique.MaxCliqueProblem.AddEdge`: requires both endpoints to be vertices of the graph. An out-of-range edge indexes past the end of the vector in the source, which is undefined behaviour.
- `MaxClique.MaxCliqueProblem.FindClique`: requires at least one vertex when a trial runs. The source would draw from the empty range [0, -1], which the distribution does not define.
- `MaxClique.MaxCliqueProblem.Check`: the model leaves `bestClique` unchanged. When `std::unique` finds equal neighbouring entries, it also moves later entries forward in place; `Check` then returns false and that reordering is not modelled.
- Integers are unbounded. Vertex numbers, sizes and counters stay far below the 32-bit range in the source, so no wrap-around is modelled.

## Findings

| source | as written | input that shows it | evidently intended | confidence | as-written member | corrected member |
|---|---|---|---|---|---|---|
| clique_stud2.cpp:151 | `std::unique` on the unsorted `best_clique` finds only equal neighbouring entries | `best_clique` = [0, 1, 0] with the edge {0, 1}: `Check` returns true | reject every repeated vertex, as the message "Duplicated vertices in the clique" says | medium, not executed; `FindClique` never reports a repetition, so the program's own runs are unaffected | `Validator.SeparatedDuplicatePassesCheck` | `MaxClique.MaxCliqueProblem.CheckDistinct` |
