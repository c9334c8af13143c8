/**
 * The MaxCliqueProblem class: a graph stored as one neighbour set per vertex,
 * a randomized local search for a large clique, and the check that certifies
 * the reported clique. File reading is reduced to its effect on the graph
 * (a vertex count and a list of 1-based edges); random draws come from a
 * RandomSource object passed in.
 */
module MaxClique {

  import opened Graph
  import opened Search
  import opened Validator
  import Random

  class MaxCliqueProblem {
    /** `neighbour_sets`: entry i holds the neighbours of vertex i. */
    var neighbourSets: seq<set<int>>
    /** `best_clique`: the vertices of the best clique found, as reported. */
    var bestClique: seq<int>

    /**
     * The neighbour sets are symmetric and name only vertices of the graph
     * (edge insertion keeps this), and the reported clique lists vertices of
     * the graph.
     */
    ghost predicate Valid()
      reads this
    {
      Symmetric(neighbourSets) && Closed(neighbourSets) &&
      forall k :: 0 <= k < |bestClique| ==> 0 <= bestClique[k] < |neighbourSets|
    }

    constructor ()
      ensures Valid() && neighbourSets == [] && bestClique == []
    {
      neighbourSets := [];
      bestClique := [];
    }

    /** One edge line of the file: the 1-based edge (start, finish) enters both neighbour sets. */
    method AddEdge(start: int, finish: int)
      requires Valid() && ValidEdge(|neighbourSets|, (start, finish))
      modifies this
      ensures Valid()
      ensures neighbourSets == InsertEdge(old(neighbourSets), start - 1, finish - 1)
      ensures bestClique == old(bestClique)
    {
      neighbourSets := neighbourSets[start - 1 := neighbourSets[start - 1] + {finish - 1}];
      neighbourSets := neighbourSets[finish - 1 := neighbourSets[finish - 1] + {start - 1}];
      InsertEdgeKeepsSymmetric(old(neighbourSets), start - 1, finish - 1);
    }

    /**
     * The graph part of ReadGraphFile: the problem line resizes the neighbour
     * sets to `vertices`, then every edge line inserts its edge.
     */
    method ReadGraph(vertices: nat, edges: seq<(int, int)>)
      requires Valid() && |neighbourSets| <= vertices
      requires forall k :: 0 <= k < |edges| ==> ValidEdge(vertices, edges[k])
      modifies this
      ensures Valid()
      ensures neighbourSets == InsertEdges(Resized(old(neighbourSets), vertices), edges)
      ensures bestClique == old(bestClique)
    {
      ResizedKeepsSymmetric(neighbourSets, vertices);
      neighbourSets := Resized(neighbourSets, vertices);
      ghost var base := neighbourSets;
      for k := 0 to |edges|
        invariant Valid() && |neighbourSets| == vertices
        invariant neighbourSets == InsertEdges(base, edges[..k])
        invariant bestClique == old(bestClique)
      {
        assert edges[..k + 1][..k] == edges[..k];
        assert InsertEdges(base, edges[..k + 1]) ==
          InsertEdge(InsertEdges(base, edges[..k]), edges[k].0 - 1, edges[k].1 - 1);
        AddEdge(edges[k].0, edges[k].1);
      }
      assert edges[..|edges|] == edges;
    }

    /**
     * The candidate scan of one step of a trial: every vertex, in increasing
     * order, that is not in the clique and is a neighbour of every member.
     */
    method CollectCandidates(clique: set<int>) returns (candidates: seq<int>)
      requires InRange(|neighbourSets|, clique)
      ensures forall k :: 0 <= k < |candidates| ==> IsCandidate(neighbourSets, clique, candidates[k])
      ensures forall v :: IsCandidate(neighbourSets, clique, v) ==> v in candidates
      ensures forall i, j :: 0 <= i < j < |candidates| ==> candidates[i] < candidates[j]
    {
      candidates := [];
      for v := 0 to |neighbourSets|
        invariant forall k :: 0 <= k < |candidates| ==>
          IsCandidate(neighbourSets, clique, candidates[k]) && candidates[k] < v
        invariant forall w :: 0 <= w < v && IsCandidate(neighbourSets, clique, w) ==> w in candidates
        invariant forall i, j :: 0 <= i < j < |candidates| ==> candidates[i] < candidates[j]
      {
        if v !in clique {
          var isCandidate := true;
          var rest := clique;
          while rest != {}
            invariant rest <= clique && isCandidate
            invariant forall u :: u in clique && u !in rest ==> v in neighbourSets[u]
            decreases |rest|
          {
            EmptyIfNoMember(rest);
            var u :| u in rest;
            if v !in neighbourSets[u] {
              isCandidate := false;
              break;
            }
            rest := rest - {u};
          }
          if isCandidate {
            candidates := candidates + [v];
          }
        }
      }
    }

    /**
     * The removal scan of a trial: looks through the clique for a member that
     * some other member is not a neighbour of. It finds one exactly when the
     * set is not a clique.
     */
    method FindProblematic(clique: set<int>) returns (found: bool, vertex: int)
      requires InRange(|neighbourSets|, clique)
      ensures found ==> IsProblematic(neighbourSets, clique, vertex)
      ensures !found ==> IsClique(neighbourSets, clique)
    {
      found, vertex := false, 0;
      var rest := clique;
      while rest != {}
        invariant rest <= clique
        invariant forall x, v :: x in clique && x !in rest && v in clique && v != x ==> v in neighbourSets[x]
        decreases |rest|
      {
        EmptyIfNoMember(rest);
        var x :| x in rest;
        var isProblematic := false;
        var others := clique;
        while others != {}
          invariant others <= clique && !isProblematic
          invariant forall v :: v in clique && v !in others && v != x ==> v in neighbourSets[x]
          decreases |others|
        {
          EmptyIfNoMember(others);
          var v :| v in others;
          if v != x && v !in neighbourSets[x] {
            isProblematic := true;
            break;
          }
          others := others - {v};
        }
        if isProblematic {
          found, vertex := true, x;
          return;
        }
        rest := rest - {x};
      }
    }

    /**
     * One trial of the local search: start from a random vertex, repeatedly
     * add a random candidate, and when there is none erase a problematic
     * member; stop when nothing changed. On symmetric neighbour sets the
     * growing set stays a clique, so the erase never happens, every change is
     * an insertion and the trial ends with a locally maximal clique.
     */
    method Trial(rng: Random.RandomSource) returns (clique: set<int>, start: int, ghost insertions: nat)
      requires Valid() && |neighbourSets| >= 1
      modifies rng
      ensures 0 <= start < |neighbourSets| && start in clique
      ensures IsClique(neighbourSets, clique) && LocallyMaximal(neighbourSets, clique)
      ensures |clique| == insertions + 1 && insertions <= |neighbourSets| - 1
    {
      var n := |neighbourSets|;
      start := rng.GetRandom(0, n - 1);
      clique := {start};
      insertions := 0;
      var improved := true;
      while improved
        invariant start in clique && IsClique(neighbourSets, clique)
        invariant |clique| == insertions + 1 && |clique| <= n
        invariant !improved ==> LocallyMaximal(neighbourSets, clique)
        decreases n - |clique| + (if improved then 1 else 0)
      {
        improved := false;
        var candidates := CollectCandidates(clique);
        if |candidates| != 0 {
          var idx := rng.GetRandom(0, |candidates| - 1);
          InsertCandidateKeepsClique(neighbourSets, clique, candidates[idx]);
          clique := clique + {candidates[idx]};
          insertions := insertions + 1;
          InRangeSize(n, clique);
          improved := true;
          continue;
        }
        var found, vertex := FindProblematic(clique);
        // The set is still a clique, so the removal scan finds nothing.
        assert !found;
        if found {
          clique := clique - {vertex};
          improved := true;
        }
      }
    }

    /**
     * FindClique: `iterations` independent trials; a trial's clique replaces
     * the best one only when strictly larger; the best set is then reported
     * in `bestClique`. `randomization` is accepted and has no effect. A draw
     * from an empty graph is undefined, so at least one vertex is needed when
     * any trial runs. The trials' cliques are returned as a ghost record.
     */
    method FindClique(randomization: int, iterations: int, rng: Random.RandomSource)
      returns (ghost trials: seq<set<int>>)
      requires Valid()
      requires iterations <= 0 || |neighbourSets| >= 1
      modifies this, rng
      ensures Valid() && neighbourSets == old(neighbourSets)
      ensures |trials| == if iterations <= 0 then 0 else iterations
      ensures forall k :: 0 <= k < |trials| ==>
        trials[k] != {} && IsClique(neighbourSets, trials[k]) && LocallyMaximal(neighbourSets, trials[k])
      ensures Distinct(bestClique) && Elements(bestClique) == BestOf(trials)
      ensures |bestClique| == |BestOf(trials)|
      ensures IsClique(neighbourSets, Elements(bestClique))
      ensures NoConsecutiveDuplicates(bestClique) && PairwiseAdjacent(neighbourSets, bestClique)
      ensures bestClique == [] <==> iterations <= 0
    {
      var bestSet: set<int> := {};
      trials := [];
      var it := 0;
      while it < iterations
        modifies rng
        invariant 0 <= it && (if iterations <= 0 then it == 0 else it <= iterations) && |trials| == it
        invariant forall k :: 0 <= k < |trials| ==>
          trials[k] != {} && IsClique(neighbourSets, trials[k]) && LocallyMaximal(neighbourSets, trials[k])
        invariant bestSet == BestOf(trials)
      {
        var clique, start, insertions := Trial(rng);
        if |clique| > |bestSet| {
          bestSet := clique;
        }
        trials := trials + [clique];
        assert trials[..|trials| - 1] == trials[..it];
        it := it + 1;
      }
      BestOfIsSomeTrial(trials);
      BestOfIsLargest(trials);
      bestClique := Enumerate(bestSet);
      assert forall x :: x in Elements(bestClique) <==> x in bestSet;
      assert Elements(bestClique) == bestSet;
      DistinctCliquePassesCheck(neighbourSets, bestClique);
    }

    /**
     * Whether every ordered pair of distinct entries of `bestClique` is an
     * edge: the nested scan of Check.
     */
    method AllPairsAdjacent() returns (ok: bool)
      requires Valid()
      ensures ok <==> PairwiseAdjacent(neighbourSets, bestClique)
    {
      for a := 0 to |bestClique|
        invariant forall a', b :: 0 <= a' < a && 0 <= b < |bestClique| && bestClique[a'] != bestClique[b] ==>
          bestClique[b] in neighbourSets[bestClique[a']]
      {
        for b := 0 to |bestClique|
          invariant forall b' :: 0 <= b' < b && bestClique[a] != bestClique[b'] ==>
            bestClique[b'] in neighbourSets[bestClique[a]]
        {
          if bestClique[a] != bestClique[b] && bestClique[b] !in neighbourSets[bestClique[a]] {
            return false;
          }
        }
      }
      return true;
    }

    /**
     * Check: rejects the reported vector when `std::unique` would shorten it
     * (two equal neighbouring entries) or when two distinct entries are not
     * adjacent; accepts it otherwise.
     */
    method Check() returns (ok: bool)
      requires Valid()
      ensures ok <==> NoConsecutiveDuplicates(bestClique) && PairwiseAdjacent(neighbourSets, bestClique)
    {
      var k := 1;
      while k < |bestClique|
        invariant 1 <= k && (|bestClique| > 0 ==> k <= |bestClique|)
        invariant forall m :: 1 <= m < k && m < |bestClique| ==> bestClique[m - 1] != bestClique[m]
      {
        if bestClique[k - 1] == bestClique[k] {
          return false;
        }
        k := k + 1;
      }
      ok := AllPairsAdjacent();
    }

    /**
     * Check with a duplicate test that finds every repeated vertex, adjacent
     * or not, as the rejection message of Check intends.
     */
    method CheckDistinct() returns (ok: bool)
      requires Valid()
      ensures ok <==> Distinct(bestClique) && PairwiseAdjacent(neighbourSets, bestClique)
    {
      for a := 0 to |bestClique|
        invariant forall i, j :: 0 <= i < a && i < j < |bestClique| ==> bestClique[i] != bestClique[j]
      {
        for b := a + 1 to |bestClique|
          invariant forall j :: a < j < b ==> bestClique[a] != bestClique[j]
        {
          if bestClique[a] == bestClique[b] {
            return false;
          }
        }
      }
      ok := AllPairsAdjacent();
    }
  }
}
