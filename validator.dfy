/**
 * What Check certifies about the reported vector of vertices, as predicates
 * on sequences, and how that relates to the clique the search found.
 */
module Validator {

  import opened Graph

  /** Every vertex occurs at most once. */
  predicate Distinct(s: seq<int>)
  {
    forall i, j :: 0 <= i < j < |s| ==> s[i] != s[j]
  }

  /**
   * No two neighbouring entries are equal: what `std::unique` tests when it
   * is asked whether it would shorten the (unsorted) vector.
   */
  predicate NoConsecutiveDuplicates(s: seq<int>)
  {
    forall k :: 1 <= k < |s| ==> s[k - 1] != s[k]
  }

  /** Every ordered pair of distinct entries (i, j) has j in i's neighbour set. */
  predicate PairwiseAdjacent(ns: Adjacency, s: seq<int>)
  {
    forall a, b :: 0 <= a < |s| && 0 <= b < |s| && s[a] != s[b] ==>
      0 <= s[a] < |ns| && s[b] in ns[s[a]]
  }

  /** The vertices listed in s. */
  function Elements(s: seq<int>): (r: set<int>)
    ensures forall x :: x in r <==> x in s
  {
    set x | x in s
  }

  /**
   * For a vector of vertices, the adjacency half of Check holds exactly when
   * the listed vertices form a clique.
   */
  lemma PairwiseAdjacentIffClique(ns: Adjacency, s: seq<int>)
    requires forall k :: 0 <= k < |s| ==> 0 <= s[k] < |ns|
    ensures PairwiseAdjacent(ns, s) <==> IsClique(ns, Elements(s))
  {
    if PairwiseAdjacent(ns, s) {
      forall u, v | u in Elements(s) && v in Elements(s) && u != v
        ensures 0 <= u < |ns| && v in ns[u]
      {
        var a :| 0 <= a < |s| && s[a] == u;
        var b :| 0 <= b < |s| && s[b] == v;
      }
    }
    if IsClique(ns, Elements(s)) {
      CliqueListPairwiseAdjacent(ns, s);
    }
  }

  lemma CliqueListPairwiseAdjacent(ns: Adjacency, s: seq<int>)
    requires IsClique(ns, Elements(s))
    ensures PairwiseAdjacent(ns, s)
  {
    forall a, b | 0 <= a < |s| && 0 <= b < |s| && s[a] != s[b]
      ensures 0 <= s[a] < |ns| && s[b] in ns[s[a]]
    {
      assert s[a] in Elements(s) && s[b] in Elements(s);
    }
  }

  /** A vector that lists a clique without repetition passes both halves of Check. */
  lemma DistinctCliquePassesCheck(ns: Adjacency, s: seq<int>)
    requires Distinct(s) && IsClique(ns, Elements(s))
    ensures NoConsecutiveDuplicates(s) && PairwiseAdjacent(ns, s)
  {
    forall k | 1 <= k < |s| ensures s[k - 1] != s[k] {
      assert 0 <= k - 1 < k < |s|;
    }
    CliqueListPairwiseAdjacent(ns, s);
  }

  /**
   * The duplicate test of Check misses repeated vertices that are not next
   * to each other: [0, 1, 0] over the single edge {0, 1} passes both halves.
   */
  lemma SeparatedDuplicatePassesCheck()
    ensures var s := [0, 1, 0];
      NoConsecutiveDuplicates(s) && PairwiseAdjacent([{1}, {0}], s) && !Distinct(s)
  {
    var s := [0, 1, 0];
    assert s[0] == s[2];
  }
}
