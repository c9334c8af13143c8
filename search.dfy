/**
 * The outer search of FindClique on values: the best clique after a run is a
 * left-to-right fold over the cliques the trials produced, where a trial's
 * clique replaces the best one only when it is strictly larger.
 */
module Search {

  import Graph

  /** The best clique after one more trial: the trial's clique if strictly larger, else the earlier best. */
  function KeepBest(best: set<int>, trial: set<int>): (r: set<int>)
    ensures r == best || r == trial
    ensures |r| >= |best| && |r| >= |trial|
    ensures |trial| == |best| ==> r == best
  {
    if |trial| > |best| then trial else best
  }

  /**
   * The best clique after the given trials: the left-to-right fold of
   * KeepBest from the empty set. It is empty before any trial and at least as
   * large as the latest trial's clique.
   */
  function BestOf(trials: seq<set<int>>): (r: set<int>)
    ensures trials == [] ==> r == {}
    ensures trials != [] ==> |r| >= |trials[|trials| - 1]|
  {
    if trials == [] then {} else KeepBest(BestOf(trials[..|trials| - 1]), trials[|trials| - 1])
  }

  /** No trial's clique is larger than the best one. */
  lemma {:induction false} BestOfIsLargest(trials: seq<set<int>>)
    ensures forall k :: 0 <= k < |trials| ==> |trials[k]| <= |BestOf(trials)|
  {
    if trials != [] {
      var init := trials[..|trials| - 1];
      BestOfIsLargest(init);
      assert forall k :: 0 <= k < |init| ==> init[k] == trials[k];
    }
  }

  /**
   * The best clique is the clique of some trial k, and every earlier trial was
   * strictly smaller: on equal sizes the first one found is kept.
   */
  lemma {:induction false} BestOfIsFirstLargest(trials: seq<set<int>>)
    requires trials != []
    ensures exists k :: (0 <= k < |trials| && BestOf(trials) == trials[k] &&
                         forall j :: 0 <= j < k ==> |trials[j]| < |trials[k]|)
  {
    var init := trials[..|trials| - 1];
    var last := |trials| - 1;
    assert forall k :: 0 <= k < |init| ==> init[k] == trials[k];
    if init == [] {
      assert BestOf(trials) == KeepBest({}, trials[0]);
      assert BestOf(trials) == trials[0];
    } else {
      BestOfIsFirstLargest(init);
      var k :| 0 <= k < |init| && BestOf(init) == init[k] &&
        forall j :: 0 <= j < k ==> |init[j]| < |init[k]|;
      if |trials[last]| > |BestOf(init)| {
        BestOfIsLargest(init);
        assert BestOf(trials) == trials[last];
        assert forall j :: 0 <= j < last ==> |trials[j]| < |trials[last]|;
      } else {
        assert BestOf(trials) == trials[k];
      }
    }
  }

  /** The size of the best clique never decreases as more trials are run. */
  lemma {:induction false} BestOfMonotone(trials: seq<set<int>>, i: nat, j: nat)
    requires i <= j <= |trials|
    ensures |BestOf(trials[..i])| <= |BestOf(trials[..j])|
  {
    if i < j {
      BestOfMonotone(trials, i, j - 1);
      assert trials[..j][..j - 1] == trials[..j - 1];
    }
  }

  /** The best clique is empty or is the clique of one of the trials. */
  lemma {:induction false} BestOfIsSomeTrial(trials: seq<set<int>>)
    ensures BestOf(trials) == {} || exists k :: 0 <= k < |trials| && BestOf(trials) == trials[k]
  {
    if trials != [] {
      BestOfIsFirstLargest(trials);
    }
  }

  /**
   * `best_clique.assign(best_clique_set.begin(), best_clique_set.end())`: the
   * members of a set, each once, in the set's (unspecified) iteration order.
   */
  method Enumerate(s: set<int>) returns (v: seq<int>)
    ensures forall x :: x in v <==> x in s
    ensures forall i, j :: 0 <= i < j < |v| ==> v[i] != v[j]
    ensures |v| == |s|
  {
    v := [];
    var rest := s;
    while rest != {}
      invariant rest <= s
      invariant forall x :: x in v <==> x in s && x !in rest
      invariant forall i, j :: 0 <= i < j < |v| ==> v[i] != v[j]
      invariant |v| + |rest| == |s|
      decreases |rest|
    {
      Graph.EmptyIfNoMember(rest);
      var x :| x in rest;
      v := v + [x];
      rest := rest - {x};
    }
  }
}
