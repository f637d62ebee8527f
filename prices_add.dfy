/** The price diagrams of decoupled search over symbolic variables. A factor
    of the order in which the price diagram is built is either a leaf factor
    or a center variable. The diagram of one leaf state (0 on the assignments
    that agree with the leaf state on the leaf's variables, +infinity
    elsewhere) is modelled by the list of facts it requires; such diagrams
    are cached per leaf factor and built on first request, in id order. The
    registry's leaf states and the compliant-path graph's prices are inputs
    (functions of the leaf state id). */
module PricesAdd {
  import opened GamerOrdering

  /** Factor of PricesADD: a flag and a leaf id or center variable. */
  datatype Factor = Factor(isLeaf: bool, leafIdOrCenterVar: int)

  /** Factor(LeafFactorID): a leaf factor. */
  function LeafFactor(leafId: nat): (f: Factor)
    ensures f.isLeaf && GetLeafFactor(f) == leafId
  {
    Factor(true, leafId)
  }

  /** Factor(int): a center variable. */
  function CenterFactor(centerVar: int): (f: Factor)
    ensures !f.isLeaf && GetCenterVariable(f) == centerVar
  {
    Factor(false, centerVar)
  }

  /** get_leaf_factor: only for leaf factors. */
  function GetLeafFactor(f: Factor): int
    requires f.isLeaf
  {
    f.leafIdOrCenterVar
  }

  /** get_center_variable: only for center variables. */
  function GetCenterVariable(f: Factor): int
    requires !f.isLeaf
  {
    f.leafIdOrCenterVar
  }

  /** The two constructors build different factors, and each accessor gives
      back what its constructor stored. */
  lemma FactorConstructors(l: nat, l': nat, v: int, v': int)
    ensures LeafFactor(l) != CenterFactor(v)
    ensures LeafFactor(l) == LeafFactor(l') <==> l == l'
    ensures CenterFactor(v) == CenterFactor(v') <==> v == v'
  {
  }

  // ---------------------------------------------------------------------------
  // factor_order

  /** Every variable of the order is a variable of the planning task. */
  predicate VarsIn(order: seq<int>, n: int) {
    forall i :: 0 <= i < |order| ==> 0 <= order[i] < n
  }

  /** A variable from position j on belongs to leaf factor l. */
  predicate LeafMet(order: seq<int>, belongs: seq<BelongsTo>, j: int, l: nat)
    requires VarsIn(order, |belongs|) && 0 <= j
  {
    exists k :: j <= k < |order| && belongs[order[k]] == Leaf(l)
  }

  /** The factors the backward scan of the variable order produces down to
      position i: a center variable gives its own factor; a leaf variable
      gives its leaf factor unless a later variable (met earlier by the scan)
      already gave it. */
  function Scan(order: seq<int>, belongs: seq<BelongsTo>, i: int): seq<Factor>
    requires VarsIn(order, |belongs|) && 0 <= i <= |order|
    decreases |order| - i
  {
    if i == |order| then []
    else
      Scan(order, belongs, i + 1) +
      match belongs[order[i]]
      case Center => [CenterFactor(order[i])]
      case Leaf(l) => if LeafMet(order, belongs, i + 1, l) then [] else [LeafFactor(l)]
  }

  /** The scan holds a leaf factor exactly when one of its variables was
      scanned, and a center variable exactly when it was scanned; it holds
      no other factor. */
  lemma {:induction false} ScanMembers(order: seq<int>, belongs: seq<BelongsTo>, i: int, x: Factor)
    requires VarsIn(order, |belongs|) && 0 <= i <= |order|
    ensures x in Scan(order, belongs, i) <==>
      if x.isLeaf then x.leafIdOrCenterVar >= 0 && LeafMet(order, belongs, i, x.leafIdOrCenterVar)
      else exists k :: i <= k < |order| && order[k] == x.leafIdOrCenterVar && belongs[order[k]] == Center
    decreases |order| - i
  {
    if i < |order| {
      ScanMembers(order, belongs, i + 1, x);
      if x.isLeaf && x.leafIdOrCenterVar >= 0 {
        var l: nat := x.leafIdOrCenterVar;
        if belongs[order[i]] == Leaf(l) && !LeafMet(order, belongs, i + 1, l) {
          assert x == LeafFactor(l);
        }
        if LeafMet(order, belongs, i, l) && !LeafMet(order, belongs, i + 1, l) {
          assert belongs[order[i]] == Leaf(l);
        }
      }
    }
  }

  /** The scanned variables differ from each other. */
  predicate DistinctFrom(order: seq<int>, i: int) {
    forall p, q :: 0 <= i <= p < q < |order| ==> order[p] != order[q]
  }

  predicate FactorsDistinct(fs: seq<Factor>) {
    forall p, q :: 0 <= p < q < |fs| ==> fs[p] != fs[q]
  }

  /** Over distinct variables the scan lists every factor once: each leaf
      factor once, each center variable once. */
  lemma {:induction false} ScanDistinct(order: seq<int>, belongs: seq<BelongsTo>, i: int)
    requires VarsIn(order, |belongs|) && 0 <= i <= |order| && DistinctFrom(order, i)
    ensures FactorsDistinct(Scan(order, belongs, i))
    decreases |order| - i
  {
    if i < |order| {
      ScanDistinct(order, belongs, i + 1);
      var before := Scan(order, belongs, i + 1);
      var added := Scan(order, belongs, i)[|before|..];
      assert Scan(order, belongs, i) == before + added;
      if added != [] {
        var x := added[0];
        ScanMembers(order, belongs, i + 1, x);
        assert x !in before;
      }
    }
  }

  /** The constructor's loop: the variable order from its last position to its
      first, with considered_leaves marking the leaf factors already listed. */
  method BuildFactorOrder(order: seq<int>, belongs: seq<BelongsTo>, numLeaves: nat) returns (factorOrder: seq<Factor>)
    requires VarsIn(order, |belongs|) && LeavesIn(belongs, numLeaves)
    ensures factorOrder == Scan(order, belongs, 0)
    ensures DistinctFrom(order, 0) ==> FactorsDistinct(factorOrder)
  {
    var considered := seq(numLeaves, l => false);
    factorOrder := [];
    var i := |order| - 1;
    while i >= 0
      invariant -1 <= i < |order|
      invariant factorOrder == Scan(order, belongs, i + 1)
      invariant |considered| == numLeaves
      invariant forall l :: 0 <= l < numLeaves ==> (considered[l] <==> LeafMet(order, belongs, i + 1, l))
      decreases i
    {
      var v := order[i];
      if belongs[v].Leaf? {
        var l := belongs[v].leaf;
        if !considered[l] {
          considered := considered[l := true];
          factorOrder := factorOrder + [LeafFactor(l)];
        }
      } else {
        factorOrder := factorOrder + [CenterFactor(v)];
      }
      i := i - 1;
    }
    if DistinctFrom(order, 0) {
      ScanDistinct(order, belongs, 0);
    }
  }

  // ---------------------------------------------------------------------------
  // Leaf-state diagrams

  /** The leaf state assigns every variable of the leaf. */
  predicate Covers(leafVars: seq<int>, lstate: seq<int>) {
    forall k :: 0 <= k < |leafVars| ==> 0 <= leafVars[k] < |lstate|
  }

  /** The facts the diagram of a leaf state requires: each leaf variable
      with its value in the leaf state. */
  function LeafStateFacts(leafVars: seq<int>, lstate: seq<int>): seq<(int, int)>
    requires Covers(leafVars, lstate)
  {
    seq(|leafVars|, k requires 0 <= k < |leafVars| => (leafVars[k], lstate[leafVars[k]]))
  }

  /** The facts hold in an assignment of the variables. */
  predicate Holds(facts: seq<(int, int)>, a: seq<int>) {
    forall k :: 0 <= k < |facts| ==> 0 <= facts[k].0 < |a| && a[facts[k].0] == facts[k].1
  }

  /** The leaf-state diagram is 0 exactly on the assignments that agree with
      the leaf state on every leaf variable. */
  lemma LeafStateFactsHold(leafVars: seq<int>, lstate: seq<int>, a: seq<int>)
    requires Covers(leafVars, lstate) && Covers(leafVars, a)
    ensures Holds(LeafStateFacts(leafVars, lstate), a) <==> forall k :: 0 <= k < |leafVars| ==> a[leafVars[k]] == lstate[leafVars[k]]
  {
    var facts := LeafStateFacts(leafVars, lstate);
    assert forall k :: 0 <= k < |facts| ==> facts[k] == (leafVars[k], lstate[leafVars[k]]);
  }

  /** The inner loop of get_leaf_state_ADD: the conjunction, one leaf
      variable at a time, of the facts of the leaf state. */
  method BuildLeafStateFacts(leafVars: seq<int>, lstate: seq<int>) returns (facts: seq<(int, int)>)
    requires Covers(leafVars, lstate)
    ensures facts == LeafStateFacts(leafVars, lstate)
  {
    facts := [];
    for k := 0 to |leafVars|
      invariant facts == LeafStateFacts(leafVars[..k], lstate)
    {
      facts := facts + [(leafVars[k], lstate[leafVars[k]])];
    }
    assert leafVars[..|leafVars|] == leafVars;
  }

  /** Every leaf state of the registry assigns the variables of its leaf. */
  ghost predicate LookupCovers(leaves: seq<seq<int>>, lookupLeaf: (nat, nat) -> seq<int>) {
    forall f: nat, id: nat :: f < |leaves| ==> Covers(leaves[f], lookupLeaf(id, f))
  }

  // ---------------------------------------------------------------------------
  // get_leaf_prices_ADD: the reached leaf states

  /** The reached leaf states (has_leaf_state) among the ids below k, in
      increasing order. */
  function ReachedIds(has: nat -> bool, k: nat): seq<nat>
    decreases k
  {
    if k == 0 then [] else ReachedIds(has, k - 1) + (if has(k - 1) then [k - 1] else [])
  }

  /** ReachedIds lists exactly the reached ids below k, each once, in
      increasing order. */
  lemma {:induction false} ReachedIdsExactly(has: nat -> bool, k: nat)
    ensures forall p :: 0 <= p < |ReachedIds(has, k)| ==> ReachedIds(has, k)[p] < k && has(ReachedIds(has, k)[p])
    ensures forall p, q :: 0 <= p < q < |ReachedIds(has, k)| ==> ReachedIds(has, k)[p] < ReachedIds(has, k)[q]
    ensures forall id: nat :: id < k && has(id) ==> id in ReachedIds(has, k)
    decreases k
  {
    if k > 0 {
      ReachedIdsExactly(has, k - 1);
    }
  }

  /** The reached ids below a are the first ones of those below b >= a. */
  lemma {:induction false} ReachedIdsPrefix(has: nat -> bool, a: nat, b: nat)
    requires a <= b
    ensures |ReachedIds(has, a)| <= |ReachedIds(has, b)|
    ensures ReachedIds(has, b)[..|ReachedIds(has, a)|] == ReachedIds(has, a)
    decreases b
  {
    if a < b {
      ReachedIdsPrefix(has, a, b - 1);
    }
  }

  /** The leaf states get_leaf_prices_ADD visits: the reached ones in
      increasing id order, stopping after the num_reached-th of them; a count
      of zero or less never reaches zero on decrement, so then all are
      visited. */
  function Visited(has: nat -> bool, size: nat, numReached: int): (r: seq<nat>)
    ensures numReached > 0 ==> |r| <= numReached
    ensures forall p :: 0 <= p < |r| ==> r[p] < size && has(r[p])
  {
    var all := ReachedIds(has, size);
    ReachedIdsExactly(has, size);
    if numReached > 0 && numReached < |all| then all[..numReached] else all
  }

  class PricesAdd {
    const leaves: seq<seq<int>>
    /** lookup_leaf_state of the registry: the leaf state with a given id
        of a given factor. */
    const lookupLeaf: (nat, nat) -> seq<int>
    const factorOrder: seq<Factor>
    /** precomputed_leaf_state_ADDs: per leaf factor, the diagrams of its
        first leaf states, by id. */
    var precomputed: seq<seq<seq<(int, int)>>>

    ghost predicate Valid()
      reads this
    {
      && LookupCovers(leaves, lookupLeaf)
      && |precomputed| == |leaves|
      && forall f, id :: 0 <= f < |leaves| && 0 <= id < |precomputed[f]| ==>
           precomputed[f][id] == LeafStateFacts(leaves[f], lookupLeaf(id, f))
    }

    /** The constructor: one empty cache per leaf factor, and the factor
        order of the backward scan of the variable order. */
    constructor (order: seq<int>, belongs: seq<BelongsTo>, leaves: seq<seq<int>>, lookupLeaf: (nat, nat) -> seq<int>)
      requires VarsIn(order, |belongs|) && LeavesIn(belongs, |leaves|) && LookupCovers(leaves, lookupLeaf)
      ensures Valid() && this.leaves == leaves && this.lookupLeaf == lookupLeaf
      ensures |precomputed| == |leaves| && forall f :: 0 <= f < |leaves| ==> precomputed[f] == []
      ensures factorOrder == Scan(order, belongs, 0)
    {
      var fo := BuildFactorOrder(order, belongs, |leaves|);
      this.leaves := leaves;
      this.lookupLeaf := lookupLeaf;
      factorOrder := fo;
      precomputed := seq(|leaves|, f => []);
    }

    /** get_leaf_state_ADD: grows the factor's cache, in id order, until it
        holds the requested id, and answers that id's diagram. The other
        caches and the entries already built stay as they are. */
    method GetLeafStateAdd(id: nat, factor: nat) returns (facts: seq<(int, int)>)
      modifies this`precomputed
      requires Valid() && factor < |leaves|
      ensures Valid()
      ensures |precomputed| == |old(precomputed)|
      ensures |precomputed[factor]| == if id < |old(precomputed[factor])| then |old(precomputed[factor])| else id + 1
      ensures precomputed[factor][..|old(precomputed[factor])|] == old(precomputed[factor])
      ensures forall f :: 0 <= f < |precomputed| && f != factor ==> precomputed[f] == old(precomputed[f])
      ensures facts == precomputed[factor][id] == LeafStateFacts(leaves[factor], lookupLeaf(id, factor))
    {
      ghost var before := precomputed[factor];
      while |precomputed[factor]| <= id
        invariant Valid() && |precomputed| == |old(precomputed)|
        invariant |before| <= |precomputed[factor]| <= if id < |before| then |before| else id + 1
        invariant precomputed[factor][..|before|] == before
        invariant forall f :: 0 <= f < |precomputed| && f != factor ==> precomputed[f] == old(precomputed[f])
        decreases id + 1 - |precomputed[factor]|
      {
        var newId := |precomputed[factor]|;
        var lstate := lookupLeaf(newId, factor);
        var res := BuildLeafStateFacts(leaves[factor], lstate);
        precomputed := precomputed[factor := precomputed[factor] + [res]];
      }
      facts := precomputed[factor][id];
    }

    /** The terms are, in order, the diagrams of the visited leaf states of
        the leaf, each with its price. */
    ghost predicate TermsOf(leaf: nat, price: nat -> int, terms: seq<(seq<(int, int)>, int)>, visited: seq<nat>)
      requires LookupCovers(leaves, lookupLeaf) && leaf < |leaves|
    {
      && |terms| == |visited|
      && forall p :: 0 <= p < |terms| ==>
           terms[p] == (LeafStateFacts(leaves[leaf], lookupLeaf(visited[p], leaf)), price(visited[p]))
    }

    /** One reached leaf state of get_leaf_prices_ADD: its diagram, from the
        cache, with its price. */
    method AddTerm(leaf: nat, id: nat, price: nat -> int, terms: seq<(seq<(int, int)>, int)>, ghost visited: seq<nat>)
      returns (terms': seq<(seq<(int, int)>, int)>)
      modifies this`precomputed
      requires Valid() && leaf < |leaves|
      requires TermsOf(leaf, price, terms, visited)
      ensures Valid() && |precomputed| == |old(precomputed)|
      ensures TermsOf(leaf, price, terms', visited + [id])
    {
      var cost := price(id);
      var diagram := GetLeafStateAdd(id, leaf);
      terms' := terms + [(diagram, cost)];
    }

    /** One id of the reached-state loop of get_leaf_prices_ADD: a reached
        leaf state adds its term, any other id adds nothing. */
    method VisitId(leaf: nat, id: nat, has: nat -> bool, price: nat -> int, terms: seq<(seq<(int, int)>, int)>)
      returns (terms': seq<(seq<(int, int)>, int)>)
      modifies this`precomputed
      requires Valid() && leaf < |leaves|
      requires TermsOf(leaf, price, terms, ReachedIds(has, id))
      ensures Valid() && |precomputed| == |old(precomputed)|
      ensures TermsOf(leaf, price, terms', ReachedIds(has, id + 1))
    {
      if has(id) {
        terms' := AddTerm(leaf, id, price, terms, ReachedIds(has, id));
      } else {
        terms' := terms;
      }
    }

    /** The reached-state loop of get_leaf_prices_ADD: every visited leaf
        state contributes its diagram plus its price to the minimum (the
        minimum itself is the diagram library's); the answer lists those
        (diagram, price) terms in visiting order. */
    method GetLeafPricesAdd(leaf: nat, registrySize: nat, has: nat -> bool, price: nat -> int, numReached: int)
      returns (terms: seq<(seq<(int, int)>, int)>)
      modifies this`precomputed
      requires Valid() && leaf < |leaves|
      ensures Valid() && |precomputed| == |old(precomputed)|
      ensures TermsOf(leaf, price, terms, Visited(has, registrySize, numReached))
    {
      terms := [];
      var remaining := numReached;
      var id := 0;
      while id < registrySize
        invariant Valid() && |precomputed| == |old(precomputed)|
        invariant id <= registrySize
        invariant remaining == numReached - |ReachedIds(has, id)|
        invariant numReached > 0 ==> |ReachedIds(has, id)| < numReached
        invariant TermsOf(leaf, price, terms, ReachedIds(has, id))
        decreases registrySize - id
      {
        var reached := has(id);
        terms := VisitId(leaf, id, has, price, terms);
        if reached {
          remaining := remaining - 1;
          if remaining == 0 {
            ReachedIdsPrefix(has, id + 1, registrySize);
            return;
          }
        }
        id := id + 1;
      }
    }
  }
}
