/**
 * Three small graphs and what a trial (and hence the search) can end with on
 * them: a complete graph (the triangle among them), a graph without edges
 * (the disconnected pair among them) and a star.
 */
module Scenarios {

  import opened Graph
  import opened Search
  import opened Validator
  import Random
  import MaxClique

  /** Every vertex is a neighbour of every other. */
  function Complete(n: nat): (ns: Adjacency)
    ensures |ns| == n && Symmetric(ns) && Closed(ns)
  {
    seq(n, i => Vertices(n) - {i})
  }

  /** No vertex has a neighbour. */
  function Edgeless(n: nat): (ns: Adjacency)
    ensures |ns| == n && Symmetric(ns) && Closed(ns)
  {
    seq(n, i => {})
  }

  /** Vertex 0 is joined to each of the vertices 1 .. k, and those to nothing else. */
  function Star(k: nat): (ns: Adjacency)
    ensures |ns| == k + 1 && Symmetric(ns) && Closed(ns)
  {
    seq(k + 1, i => if i == 0 then Vertices(k + 1) - {0} else {0})
  }

  /** The triangle read from the edges 1-2, 2-3, 1-3 is the complete graph on three vertices. */
  lemma TriangleIsComplete()
    ensures InsertEdges(Resized([], 3), [(1, 2), (2, 3), (1, 3)]) == Complete(3)
  {
    var edges: seq<(int, int)> := [(1, 2), (2, 3), (1, 3)];
    assert Resized([], 3) == [{}, {}, {}];
    assert edges[..2] == [(1, 2), (2, 3)];
    TriangleFirstEdges();
    assert InsertEdges([{}, {}, {}], edges) == InsertEdge([{1}, {0, 2}, {1}], 0, 2);
    TriangleLastEdge();
    CompleteTriangle();
  }

  lemma TriangleFirstEdges()
    ensures InsertEdges([{}, {}, {}], [(1, 2), (2, 3)]) == [{1}, {0, 2}, {1}]
  {
    var edges: seq<(int, int)> := [(1, 2), (2, 3)];
    assert edges[..1] == [(1, 2)] && [(1, 2)][..0] == [];
    var g1 := InsertEdge([{}, {}, {}], 0, 1);
    assert g1[0] == {1} && g1[1] == {0} && g1[2] == {};
    var g2 := InsertEdge([{1}, {0}, {}], 1, 2);
    assert g2[0] == {1} && g2[1] == {0, 2} && g2[2] == {1};
  }

  lemma TriangleLastEdge()
    ensures InsertEdge([{1}, {0, 2}, {1}], 0, 2) == [{1, 2}, {0, 2}, {0, 1}]
  {
    var g := InsertEdge([{1}, {0, 2}, {1}], 0, 2);
    assert g[0] == {1, 2} && g[1] == {0, 2} && g[2] == {0, 1};
  }

  lemma VerticesOfTriangle()
    ensures Vertices(3) == {0, 1, 2}
  {
  }

  lemma CompleteTriangle()
    ensures Complete(3) == [{1, 2}, {0, 2}, {0, 1}]
  {
    var c := Complete(3);
    VerticesOfTriangle();
    assert c[0] == {0, 1, 2} - {0} == {1, 2};
    assert c[1] == {0, 1, 2} - {1} == {0, 2};
    assert c[2] == {0, 1, 2} - {2} == {0, 1};
  }

  /** In a complete graph the only locally maximal clique is the whole vertex set. */
  lemma CompleteGraphTrial(n: nat, c: set<int>)
    requires IsClique(Complete(n), c) && LocallyMaximal(Complete(n), c)
    ensures c == Vertices(n)
  {
    var ns := Complete(n);
    forall v | 0 <= v < n
      ensures v in c
    {
      if v !in c {
        assert IsCandidate(ns, c, v);
      }
    }
  }

  /** Without edges a locally maximal clique is a single vertex, never two. */
  lemma EdgelessGraphTrial(n: nat, c: set<int>)
    requires n >= 1
    requires IsClique(Edgeless(n), c) && LocallyMaximal(Edgeless(n), c)
    ensures |c| == 1
  {
    var ns := Edgeless(n);
    assert !IsCandidate(ns, c, 0);
    assert c != {};
    EmptyIfNoMember(c);
    var u :| u in c;
    forall v | v in c ensures v == u {
      assert ns[u] == {};
    }
    assert c == {u};
  }

  /** In a star with at least one leaf a locally maximal clique is the centre and one leaf: an edge. */
  lemma StarGraphTrial(k: nat, c: set<int>)
    requires k >= 1
    requires IsClique(Star(k), c) && LocallyMaximal(Star(k), c)
    ensures |c| == 2 && 0 in c
  {
    var ns := Star(k);
    assert !IsCandidate(ns, c, 0) && !IsCandidate(ns, c, 1);
    assert 0 in c && c != {0};
    EmptyIfNoMember(c - {0});
    var leaf :| leaf in c - {0};
    forall v | v in c ensures v == 0 || v == leaf {
      assert ns[leaf] == {0};
    }
    assert c == {0, leaf};
  }

  /**
   * On a complete graph with at least one vertex, any non-empty run of trials
   * ends with the whole vertex set as the best clique.
   */
  lemma CompleteGraphSearch(n: nat, trials: seq<set<int>>)
    requires n >= 1 && trials != []
    requires forall k :: 0 <= k < |trials| ==>
      IsClique(Complete(n), trials[k]) && LocallyMaximal(Complete(n), trials[k])
    ensures BestOf(trials) == Vertices(n)
  {
    forall k | 0 <= k < |trials| ensures trials[k] == Vertices(n) {
      CompleteGraphTrial(n, trials[k]);
    }
    BestOfIsSomeTrial(trials);
    assert |BestOf(trials)| >= |Vertices(n)| > 0;
  }

  /**
   * The search on the triangle, from reading the edges to the checked result:
   * with at least one trial it reports the three vertices, and both Check
   * and the corrected CheckDistinct accept them.
   */
  method SearchTriangle(iterations: int, rng: Random.RandomSource) returns (clique: seq<int>, ok: bool, okDistinct: bool)
    requires iterations >= 1
    modifies rng
    ensures |clique| == 3 && Elements(clique) == {0, 1, 2} && ok && okDistinct
  {
    var problem := new MaxClique.MaxCliqueProblem();
    problem.ReadGraph(3, [(1, 2), (2, 3), (1, 3)]);
    TriangleIsComplete();
    assert problem.neighbourSets == Complete(3);
    var trials := problem.FindClique(0, iterations, rng);
    CompleteGraphSearch(3, trials);
    VerticesOfTriangle();
    clique := problem.bestClique;
    ok := problem.Check();
    okDistinct := problem.CheckDistinct();
  }
}
