/** The clustering of variables that merge-and-shrink builds from a decoupled
    factoring: the leaf factors as they are, then one singleton cluster per
    center variable. Without a factoring the clusters are the maximal
    strongly connected components of the causal graph, which an algorithm
    outside this model computes; they are an input here. */
module Clustering {
  import opened GamerOrdering

  /** The clusters of a factoring: the leaves followed by [c] for each center
      variable c, in order. */
  function FactoringClusters(leaves: seq<seq<int>>, center: seq<int>): (r: seq<seq<int>>)
    decreases |center|
  {
    if center == [] then leaves
    else FactoringClusters(leaves, center[..|center| - 1]) + [[center[|center| - 1]]]
  }

  /** The leaves come first and unchanged, then the singletons of the center
      variables in their order, and nothing else. */
  lemma {:induction false} FactoringClustersShape(leaves: seq<seq<int>>, center: seq<int>)
    ensures |FactoringClusters(leaves, center)| == |leaves| + |center|
    ensures FactoringClusters(leaves, center)[..|leaves|] == leaves
    ensures forall i :: 0 <= i < |center| ==> FactoringClusters(leaves, center)[|leaves| + i] == [center[i]]
    decreases |center|
  {
    if center != [] {
      FactoringClustersShape(leaves, center[..|center| - 1]);
    }
  }

  /** Read one after another, the clusters are the leaves' variables
      followed by the center variables. */
  lemma {:induction false} FactoringClustersConcat(leaves: seq<seq<int>>, center: seq<int>)
    ensures Concat(FactoringClusters(leaves, center)) == Concat(leaves) + center
    decreases |center|
  {
    if center != [] {
      var k := |center| - 1;
      var prev := FactoringClusters(leaves, center[..k]);
      FactoringClustersConcat(leaves, center[..k]);
      assert (prev + [[center[k]]])[..|prev|] == prev;
      assert center == center[..k] + [center[k]];
    }
  }

  /** The clustering mentions every variable as often as the leaves and the
      center do together: when those partition the variables 0..n-1, so do
      the clusters. */
  lemma FactoringClustersPartition(leaves: seq<seq<int>>, center: seq<int>, n: nat)
    ensures multiset(Concat(FactoringClusters(leaves, center))) == multiset(Concat(leaves)) + multiset(center)
    ensures multiset(Concat(leaves)) + multiset(center) == multiset(Ascending(n)) ==>
              multiset(Concat(FactoringClusters(leaves, center))) == multiset(Ascending(n))
  {
    FactoringClustersConcat(leaves, center);
  }

  /** compute: with a factoring, a copy of the leaves to which the loop over
      the center pushes back one singleton per center variable; without one,
      the strongly connected components of the causal graph. */
  method Compute(factoring: bool, leaves: seq<seq<int>>, center: seq<int>, sccs: seq<seq<int>>) returns (clusters: seq<seq<int>>)
    ensures clusters == if factoring then FactoringClusters(leaves, center) else sccs
  {
    if factoring {
      clusters := leaves;
      for i := 0 to |center|
        invariant clusters == FactoringClusters(leaves, center[..i])
      {
        assert center[..i + 1][..i] == center[..i];
        clusters := clusters + [[center[i]]];
      }
      assert center[..|center|] == center;
    } else {
      clusters := sccs;
    }
  }
}
