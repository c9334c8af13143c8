/**
 * The graph of a MaxCliqueProblem: one neighbour set per vertex, vertices
 * numbered 0 .. n-1. This module holds the specification side of the model:
 * what a symmetric adjacency structure, a clique, an expansion candidate and a
 * locally maximal clique are, and how the edge list of a DIMACS file (1-based
 * vertex numbers) is folded into the neighbour sets.
 */
module Graph {

  /** `neighbour_sets`: entry i is the set of neighbours of vertex i. */
  type Adjacency = seq<set<int>>

  /** j is a neighbour of i exactly when i is a neighbour of j (for vertices of the graph). */
  predicate Symmetric(ns: Adjacency)
  {
    forall i, j :: 0 <= i < |ns| && 0 <= j < |ns| && j in ns[i] ==> i in ns[j]
  }

  /** Every neighbour recorded in ns is a vertex of the graph. */
  predicate Closed(ns: Adjacency)
  {
    forall i, j :: 0 <= i < |ns| && j in ns[i] ==> 0 <= j < |ns|
  }

  /** Every member of c is a vertex of a graph with n vertices. */
  predicate InRange(n: int, c: set<int>)
  {
    forall v :: v in c ==> 0 <= v < n
  }

  /** c is a clique: a set of vertices of which every two distinct members are adjacent. */
  predicate IsClique(ns: Adjacency, c: set<int>)
  {
    InRange(|ns|, c) &&
    forall u, v :: u in c && v in c && u != v ==> 0 <= u < |ns| && v in ns[u]
  }

  /** v may be added to c: it is a vertex outside c that every member of c has as a neighbour. */
  predicate IsCandidate(ns: Adjacency, c: set<int>, v: int)
  {
    0 <= v < |ns| && v !in c &&
    forall u :: u in c ==> 0 <= u < |ns| && v in ns[u]
  }

  /** No single vertex can be added to c. */
  predicate LocallyMaximal(ns: Adjacency, c: set<int>)
  {
    forall v :: 0 <= v < |ns| ==> !IsCandidate(ns, c, v)
  }

  /** Vertex `vertex` of c is "problematic": some other member of c is not its neighbour. */
  predicate IsProblematic(ns: Adjacency, c: set<int>, vertex: int)
  {
    vertex in c && 0 <= vertex < |ns| &&
    exists v :: v in c && v != vertex && v !in ns[vertex]
  }

  /** The vertices 0 .. n-1. */
  function Vertices(n: nat): (r: set<int>)
    ensures forall v :: v in r <==> 0 <= v < n
    ensures |r| == n
  {
    if n == 0 then {} else
      var r := Vertices(n - 1) + {n - 1};
      assert n - 1 !in Vertices(n - 1);
      r
  }

  /** A set of vertices of a graph with n vertices has at most n members. */
  lemma {:induction false} InRangeSize(n: nat, c: set<int>)
    requires InRange(n, c)
    ensures |c| <= n
  {
    assert c <= Vertices(n);
    SubsetSize(c, Vertices(n));
  }

  lemma {:induction false} SubsetSize(a: set<int>, b: set<int>)
    requires a <= b
    ensures |a| <= |b|
  {
    if a != {} {
      EmptyIfNoMember(a);
      var x :| x in a;
      SubsetSize(a - {x}, b - {x});
    }
  }

  /** Set extensionality, spelled out so that a member can be picked from a non-empty set. */
  lemma EmptyIfNoMember(a: set<int>)
    ensures (forall x :: x !in a) ==> a == {}
  {
    var e: set<int> := {};
    if forall x :: x !in a {
      assert forall x :: x in a <==> x in e;
      assert a == e;
    }
  }

  /**
   * Adding a candidate to a clique of a symmetric graph gives a clique one
   * vertex larger: the pairs (u, v) hold because v is a candidate, the pairs
   * (v, u) by symmetry.
   */
  lemma InsertCandidateKeepsClique(ns: Adjacency, c: set<int>, v: int)
    requires Symmetric(ns) && IsClique(ns, c) && IsCandidate(ns, c, v)
    ensures IsClique(ns, c + {v})
    ensures |c + {v}| == |c| + 1
  {
  }

  /** A clique has no problematic vertex, and a set without one whose members are vertices is a clique. */
  lemma CliqueIffNoProblematic(ns: Adjacency, c: set<int>)
    requires InRange(|ns|, c)
    ensures IsClique(ns, c) <==> forall vertex :: !IsProblematic(ns, c, vertex)
  {
    if !IsClique(ns, c) {
      var u, v :| u in c && v in c && u != v && v !in ns[u];
      assert IsProblematic(ns, c, u);
    }
  }

  // ---------------------------------------------------------------------
  // Building the neighbour sets from the edge list of a DIMACS file.
  // ---------------------------------------------------------------------

  /**
   * `neighbour_sets.resize(n)`: the first n sets are kept, missing ones are
   * added empty.
   */
  function Resized(ns: Adjacency, n: nat): (r: Adjacency)
    ensures |r| == n
    ensures forall i :: 0 <= i < n ==> r[i] == if i < |ns| then ns[i] else {}
  {
    if n <= |ns| then ns[..n] else ns + seq(n - |ns|, _ => {})
  }

  /**
   * Growing closed, symmetric neighbour sets keeps them so (the new vertices
   * have no neighbours yet).
   */
  lemma ResizedKeepsSymmetric(ns: Adjacency, n: nat)
    requires Symmetric(ns) && Closed(ns) && |ns| <= n
    ensures Symmetric(Resized(ns, n)) && Closed(Resized(ns, n))
  {
  }

  /** Both endpoints of a 1-based edge (s, f) are vertices of a graph with n vertices. */
  predicate ValidEdge(n: int, e: (int, int))
  {
    1 <= e.0 <= n && 1 <= e.1 <= n
  }

  /** Inserting edge {i, j} (0-based): j joins i's set, then i joins j's set. */
  function InsertEdge(ns: Adjacency, i: int, j: int): (r: Adjacency)
    requires 0 <= i < |ns| && 0 <= j < |ns|
    ensures |r| == |ns|
    ensures forall k :: 0 <= k < |ns| ==>
      r[k] == ns[k] + (if k == i then {j} else {}) + (if k == j then {i} else {})
  {
    var t := ns[i := ns[i] + {j}];
    t[j := t[j] + {i}]
  }

  /** Inserting an edge keeps the neighbour sets symmetric and makes its endpoints adjacent both ways. */
  lemma InsertEdgeKeepsSymmetric(ns: Adjacency, i: int, j: int)
    requires 0 <= i < |ns| && 0 <= j < |ns|
    requires Symmetric(ns) && Closed(ns)
    ensures Symmetric(InsertEdge(ns, i, j)) && Closed(InsertEdge(ns, i, j))
    ensures j in InsertEdge(ns, i, j)[i] && i in InsertEdge(ns, i, j)[j]
  {
  }

  /** The edges inserted in order, each converted from 1-based to 0-based; sets only grow. */
  function InsertEdges(ns: Adjacency, edges: seq<(int, int)>): (r: Adjacency)
    requires forall k :: 0 <= k < |edges| ==> ValidEdge(|ns|, edges[k])
    ensures |r| == |ns|
    ensures forall i :: 0 <= i < |ns| ==> ns[i] <= r[i]
  {
    if edges == [] then ns else
      var last := edges[|edges| - 1];
      assert ValidEdge(|ns|, last);
      InsertEdge(InsertEdges(ns, edges[..|edges| - 1]), last.0 - 1, last.1 - 1)
  }

  /** Some edge of the list joins the 0-based vertices i and j, in either direction. */
  predicate EdgeJoins(edges: seq<(int, int)>, i: int, j: int)
  {
    exists k :: 0 <= k < |edges| &&
      ((edges[k].0 == i + 1 && edges[k].1 == j + 1) || (edges[k].0 == j + 1 && edges[k].1 == i + 1))
  }

  /**
   * After all edges are inserted, j is a neighbour of i exactly when it was
   * one before or some edge of the list joins them; repeated edges collapse.
   */
  lemma {:induction false} InsertEdgesAdjacency(ns: Adjacency, edges: seq<(int, int)>, i: int, j: int)
    requires forall k :: 0 <= k < |edges| ==> ValidEdge(|ns|, edges[k])
    requires 0 <= i < |ns|
    ensures j in InsertEdges(ns, edges)[i] <==> j in ns[i] || EdgeJoins(edges, i, j)
  {
    if edges != [] {
      var init := edges[..|edges| - 1];
      var last := edges[|edges| - 1];
      InsertEdgesAdjacency(ns, init, i, j);
      assert forall k :: 0 <= k < |init| ==> init[k] == edges[k];
      assert EdgeJoins(edges, i, j) <==>
        EdgeJoins(init, i, j) || (last.0 == i + 1 && last.1 == j + 1) || (last.0 == j + 1 && last.1 == i + 1);
    }
  }

  /** Inserting a list of edges into symmetric neighbour sets leaves them symmetric. */
  lemma {:induction false} InsertEdgesKeepsSymmetric(ns: Adjacency, edges: seq<(int, int)>)
    requires forall k :: 0 <= k < |edges| ==> ValidEdge(|ns|, edges[k])
    requires Symmetric(ns) && Closed(ns)
    ensures Symmetric(InsertEdges(ns, edges)) && Closed(InsertEdges(ns, edges))
  {
    if edges != [] {
      var last := edges[|edges| - 1];
      InsertEdgesKeepsSymmetric(ns, edges[..|edges| - 1]);
      InsertEdgeKeepsSymmetric(InsertEdges(ns, edges[..|edges| - 1]), last.0 - 1, last.1 - 1);
    }
  }
}
