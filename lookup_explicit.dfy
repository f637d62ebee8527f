/** The explicit lookup of the decoupled ADD heuristic
    (LookupAddDecoupledHeuristicExplicit): which leaves a heuristic diagram
    depends on, the member state of the search node, and the branch and
    bound over one reached leaf state per covered leaf. A member state
    assigns every finite-domain variable a value, or -1. */
module LookupExplicit {
  import PricesAdd
  import LookupEncoding

  /** std::numeric_limits<int>::max() */
  const IntMax: int := 0x7fff_ffff

  /** A terminal of a diagram: the +infinity terminal or a number. */
  datatype Terminal = PlusInfinity | Value(v: int)

  /** The leaf states of the registry: the variables of each leaf factor
      (g_leaves), lookup_leaf_state and the number of leaf states of a
      factor. */
  datatype LeafRegistry = LeafRegistry(leaves: seq<seq<int>>, lookupLeaf: (nat, nat) -> seq<int>, size: nat -> nat)

  /** What the compliant-path graph of a search node tells about one leaf
      state id of a leaf factor: has_leaf_state, get_cost_of_state, and per
      leaf get_number_states. */
  datatype Prices = Prices(has: (nat, nat) -> bool, cost: (nat, nat) -> int, numStates: nat -> nat)

  /** has_leaf_state of one leaf factor. */
  function HasOf(prices: Prices, leaf: nat): nat -> bool {
    (id: nat) => prices.has(id, leaf)
  }

  /** The leaf-state ids the per-leaf loop visits: the reached ones in id
      order, stopping after get_number_states of them. */
  function VisitedOf(reg: LeafRegistry, prices: Prices, leaf: nat): seq<nat> {
    PricesAdd.Visited(HasOf(prices, leaf), reg.size(leaf), prices.numStates(leaf))
  }

  // ---------------------------------------------------------------------------
  // The leaves the heuristic diagram covers

  /** support_fd_vars: the finite-domain variables whose diagram variables
      the heuristic depends on. */
  method SupportVars(support: seq<nat>, fdVarOf: seq<nat>, numVars: nat) returns (inSupport: seq<bool>)
    requires forall i :: 0 <= i < |support| ==> support[i] < |fdVarOf| && fdVarOf[support[i]] < numVars
    ensures |inSupport| == numVars
    ensures forall v :: 0 <= v < numVars ==> (inSupport[v] <==> exists i :: 0 <= i < |support| && fdVarOf[support[i]] == v)
  {
    inSupport := seq(numVars, v => false);
    for i := 0 to |support|
      invariant |inSupport| == numVars
      invariant forall v :: 0 <= v < numVars ==> (inSupport[v] <==> exists i' :: 0 <= i' < i && fdVarOf[support[i']] == v)
    {
      inSupport := inSupport[fdVarOf[support[i]] := true];
    }
  }

  /** The support as a flag per finite-domain variable. */
  function SupportFlags(support: seq<nat>, fdVarOf: seq<nat>, numVars: nat): (r: seq<bool>)
    requires forall i :: 0 <= i < |support| ==> support[i] < |fdVarOf|
    ensures |r| == numVars
  {
    seq(numVars, v => exists i :: 0 <= i < |support| && fdVarOf[support[i]] == v)
  }

  /** Some variable of the leaf is in the support. */
  predicate Touches(leafVars: seq<int>, inSupport: seq<bool>) {
    exists k :: 0 <= k < |leafVars| && 0 <= leafVars[k] < |inSupport| && inSupport[leafVars[k]]
  }

  /** The leaf factors some of whose variables are in the support. */
  function TouchesOf(leaves: seq<seq<int>>, inSupport: seq<bool>): nat -> bool {
    (l: nat) => l < |leaves| && Touches(leaves[l], inSupport)
  }

  /** covered_leaves: the leaves that touch the support, in leaf order. */
  function CoveredLeaves(leaves: seq<seq<int>>, inSupport: seq<bool>): (r: seq<nat>)
    ensures forall k :: 0 <= k < |r| ==> r[k] < |leaves|
  {
    PricesAdd.ReachedIdsExactly(TouchesOf(leaves, inSupport), |leaves|);
    PricesAdd.ReachedIds(TouchesOf(leaves, inSupport), |leaves|)
  }

  /** A leaf is covered exactly when one of its variables is in the support;
      the list is strictly increasing, so it has no duplicates. */
  lemma CoveredLeavesExactly(leaves: seq<seq<int>>, inSupport: seq<bool>)
    ensures forall l: nat :: l in CoveredLeaves(leaves, inSupport) <==> l < |leaves| && Touches(leaves[l], inSupport)
    ensures forall p, q :: 0 <= p < q < |CoveredLeaves(leaves, inSupport)| ==>
              CoveredLeaves(leaves, inSupport)[p] < CoveredLeaves(leaves, inSupport)[q]
  {
    PricesAdd.ReachedIdsExactly(TouchesOf(leaves, inSupport), |leaves|);
  }

  /** The inner loop over the variables of one leaf, left at the first one
      in the support. */
  method LeafTouches(leafVars: seq<int>, inSupport: seq<bool>) returns (touches: bool)
    requires forall k :: 0 <= k < |leafVars| ==> 0 <= leafVars[k] < |inSupport|
    ensures touches <==> Touches(leafVars, inSupport)
  {
    touches := false;
    var k := 0;
    while k < |leafVars|
      invariant k <= |leafVars|
      invariant forall k' :: 0 <= k' < k ==> !inSupport[leafVars[k']]
    {
      if inSupport[leafVars[k]] {
        return true;
      }
      k := k + 1;
    }
  }

  /** Every variable of every leaf is a finite-domain variable. */
  predicate LeavesWithin(leaves: seq<seq<int>>, numVars: nat) {
    forall l, k :: 0 <= l < |leaves| && 0 <= k < |leaves[l]| ==> 0 <= leaves[l][k] < numVars
  }

  /** The loop over the leaf factors that lists the covered ones. */
  method ComputeCoveredLeaves(leaves: seq<seq<int>>, inSupport: seq<bool>) returns (covered: seq<nat>)
    requires LeavesWithin(leaves, |inSupport|)
    ensures covered == CoveredLeaves(leaves, inSupport)
  {
    covered := [];
    for l := 0 to |leaves|
      invariant covered == PricesAdd.ReachedIds(TouchesOf(leaves, inSupport), l)
    {
      var touches := LeafTouches(leaves[l], inSupport);
      if touches {
        covered := covered + [l];
      }
    }
  }

  // ---------------------------------------------------------------------------
  // Member states

  /** The member state after `ms[var] = values[var]` for every listed
      variable, in order. */
  function Assign(ms: seq<int>, vars: seq<int>, values: seq<int>): (r: seq<int>)
    requires forall k :: 0 <= k < |vars| ==> 0 <= vars[k] < |ms| && vars[k] < |values|
    ensures |r| == |ms|
    decreases |vars|
  {
    if vars == [] then ms
    else
      var k := |vars| - 1;
      Assign(ms, vars[..k], values)[vars[k] := values[vars[k]]]
  }

  /** The listed variables take their values and every other variable keeps
      its own. */
  lemma {:induction false} AssignAt(ms: seq<int>, vars: seq<int>, values: seq<int>)
    requires forall k :: 0 <= k < |vars| ==> 0 <= vars[k] < |ms| && vars[k] < |values|
    ensures forall v :: 0 <= v < |ms| ==> Assign(ms, vars, values)[v] == if v in vars then values[v] else ms[v]
    decreases |vars|
  {
    if vars != [] {
      var k := |vars| - 1;
      AssignAt(ms, vars[..k], values);
      assert forall v :: v in vars <==> v in vars[..k] || v == vars[k];
    }
  }

  /** The member state before any leaf is chosen: the state's values on the
      center variables and -1 everywhere else. */
  function InitialMembers(numVars: nat, center: seq<int>, state: seq<int>): (r: seq<int>)
    requires LookupEncoding.VarsWithin(center, numVars, state)
  {
    Assign(seq(numVars, v => -1), center, state)
  }

  lemma InitialMembersAt(numVars: nat, center: seq<int>, state: seq<int>)
    requires LookupEncoding.VarsWithin(center, numVars, state)
    ensures |InitialMembers(numVars, center, state)| == numVars
    ensures forall v :: 0 <= v < numVars ==> InitialMembers(numVars, center, state)[v] == if v in center then state[v] else -1
  {
    AssignAt(seq(numVars, v => -1), center, state);
  }

  /** The initial member_state of lookup. */
  method InitialMemberState(numVars: nat, center: seq<int>, state: seq<int>) returns (ms: array<int>)
    requires LookupEncoding.VarsWithin(center, numVars, state)
    ensures fresh(ms) && ms[..] == InitialMembers(numVars, center, state)
  {
    ms := new int[numVars](v => -1);
    assert ms[..] == seq(numVars, v => -1);
    AssignValues(ms, center, state);
  }

  /** `member_state[var] = values[var]` for every listed variable. */
  method AssignValues(ms: array<int>, vars: seq<int>, values: seq<int>)
    modifies ms
    requires forall k :: 0 <= k < |vars| ==> 0 <= vars[k] < ms.Length && vars[k] < |values|
    ensures ms[..] == Assign(old(ms[..]), vars, values)
  {
    for k := 0 to |vars|
      invariant ms[..] == Assign(old(ms[..]), vars[..k], values)
    {
      assert vars[..k + 1][..k] == vars[..k];
      ms[vars[k]] := values[vars[k]];
    }
    assert vars[..|vars|] == vars;
  }

  // ---------------------------------------------------------------------------
  // Branch and bound over the member states

  /** One explicit lookup: the registry, the prices of the search node, the
      evaluation of the heuristic diagram on a member state (the binary
      description and Eval of the diagram library) and the covered leaves. */
  datatype Search = Search(reg: LeafRegistry, prices: Prices, eval: seq<int> -> Terminal, covered: seq<nat>)

  ghost predicate SearchValid(s: Search, numVars: nat) {
    && PricesAdd.LookupCovers(s.reg.leaves, s.reg.lookupLeaf)
    && LeavesWithin(s.reg.leaves, numVars)
    && forall k :: 0 <= k < |s.covered| ==> s.covered[k] < |s.reg.leaves|
  }

  /** Every price is non-negative. */
  ghost predicate NonNegative(prices: Prices) {
    forall id, leaf :: prices.cost(id, leaf) >= 0
  }

  /** A member-state value, or none. */
  datatype Extended = Finite(n: int) | Infinite

  function Lower(a: Extended, b: Extended): Extended {
    if a.Infinite? then b else if b.Infinite? then a else Finite(if a.n <= b.n then a.n else b.n)
  }

  /** min_h after considering the candidate value. */
  function MinWith(m: int, e: Extended): int {
    if e.Finite? && e.n < m then e.n else m
  }

  /** A complete member state counts with its prices plus its heuristic
      value, unless that value is negative or +infinity. */
  function Evaluated(t: Terminal, sum: int): Extended {
    if t.Value? && t.v >= 0 then Finite(sum + t.v) else Infinite
  }

  /** The member state with the variables of the leaf set to the leaf
      state. */
  function Choose(s: Search, index: nat, ms: seq<int>, id: nat): (r: seq<int>)
    requires SearchValid(s, |ms|) && index < |s.covered|
    ensures |r| == |ms|
  {
    var leaf := s.covered[index];
    assert PricesAdd.Covers(s.reg.leaves[leaf], s.reg.lookupLeaf(id, leaf));
    Assign(ms, s.reg.leaves[leaf], s.reg.lookupLeaf(id, leaf))
  }

  /** The best value over all complete member states that choose, for each
      covered leaf from index on, one of its visited leaf states: the
      reference the pruned search is measured against. */
  function Best(s: Search, index: nat, ms: seq<int>, sum: int): Extended
    requires SearchValid(s, |ms|) && index <= |s.covered|
    decreases 2 * (|s.covered| - index) + 1, 0
  {
    if index == |s.covered| then Evaluated(s.eval(ms), sum)
    else BestOver(s, index, ms, sum, VisitedOf(s.reg, s.prices, s.covered[index]))
  }

  /** The best value when the leaf at index takes one of the listed states. */
  function BestOver(s: Search, index: nat, ms: seq<int>, sum: int, ids: seq<nat>): Extended
    requires SearchValid(s, |ms|) && index < |s.covered|
    decreases 2 * (|s.covered| - index), |ids|
  {
    if ids == [] then Infinite
    else
      var k := |ids| - 1;
      var id := ids[k];
      var leaf := s.covered[index];
      Lower(BestOver(s, index, ms, sum, ids[..k]), Best(s, index + 1, Choose(s, index, ms, id), sum + s.prices.cost(id, leaf)))
  }

  /** With non-negative prices no completion costs less than the prices
      already paid: the cut at sum_prices >= min_h loses nothing. */
  lemma {:induction false} BestAtLeast(s: Search, index: nat, ms: seq<int>, sum: int)
    requires SearchValid(s, |ms|) && index <= |s.covered| && NonNegative(s.prices)
    ensures Best(s, index, ms, sum).Finite? ==> Best(s, index, ms, sum).n >= sum
    decreases 2 * (|s.covered| - index) + 1, 0
  {
    if index < |s.covered| {
      BestOverAtLeast(s, index, ms, sum, VisitedOf(s.reg, s.prices, s.covered[index]));
    }
  }

  lemma {:induction false} BestOverAtLeast(s: Search, index: nat, ms: seq<int>, sum: int, ids: seq<nat>)
    requires SearchValid(s, |ms|) && index < |s.covered| && NonNegative(s.prices)
    ensures BestOver(s, index, ms, sum, ids).Finite? ==> BestOver(s, index, ms, sum, ids).n >= sum
    decreases 2 * (|s.covered| - index), |ids|
  {
    if ids != [] {
      var k := |ids| - 1;
      var id := ids[k];
      BestOverAtLeast(s, index, ms, sum, ids[..k]);
      assert s.prices.cost(id, s.covered[index]) >= 0;
      BestAtLeast(s, index + 1, Choose(s, index, ms, id), sum + s.prices.cost(id, s.covered[index]));
    }
  }

  /** The variable belongs to a covered leaf from index on. */
  predicate CoveredVar(s: Search, index: nat, v: int)
    requires forall k :: 0 <= k < |s.covered| ==> s.covered[k] < |s.reg.leaves|
  {
    exists k :: index <= k < |s.covered| && v in s.reg.leaves[s.covered[k]]
  }

  /** The member states agree on every variable of no covered leaf from
      index on. */
  predicate AgreeOutside(s: Search, index: nat, a: seq<int>, b: seq<int>)
    requires forall k :: 0 <= k < |s.covered| ==> s.covered[k] < |s.reg.leaves|
  {
    |a| == |b| && forall v :: 0 <= v < |a| && !CoveredVar(s, index, v) ==> a[v] == b[v]
  }

  /** Choosing the same leaf state keeps the agreement, one leaf further. */
  lemma ChooseAgrees(s: Search, index: nat, a: seq<int>, b: seq<int>, id: nat)
    requires SearchValid(s, |a|) && index < |s.covered| && AgreeOutside(s, index, a, b)
    ensures AgreeOutside(s, index + 1, Choose(s, index, a, id), Choose(s, index, b, id))
  {
    var leaf := s.covered[index];
    var vars := s.reg.leaves[leaf];
    var values := s.reg.lookupLeaf(id, leaf);
    assert PricesAdd.Covers(vars, values);
    AssignAt(a, vars, values);
    AssignAt(b, vars, values);
    forall v | 0 <= v < |a| && !CoveredVar(s, index + 1, v) && v !in vars
      ensures a[v] == b[v]
    {
      assert !CoveredVar(s, index, v);
    }
  }

  /** The best value depends only on the variables outside the covered
      leaves still to choose: those are overwritten before any evaluation. */
  lemma {:induction false} BestIndependent(s: Search, index: nat, a: seq<int>, b: seq<int>, sum: int)
    requires SearchValid(s, |a|) && index <= |s.covered| && AgreeOutside(s, index, a, b)
    ensures Best(s, index, a, sum) == Best(s, index, b, sum)
    decreases 2 * (|s.covered| - index) + 1, 0
  {
    if index == |s.covered| {
      assert a == b;
    } else {
      BestOverIndependent(s, index, a, b, sum, VisitedOf(s.reg, s.prices, s.covered[index]));
    }
  }

  lemma {:induction false} BestOverIndependent(s: Search, index: nat, a: seq<int>, b: seq<int>, sum: int, ids: seq<nat>)
    requires SearchValid(s, |a|) && index < |s.covered| && AgreeOutside(s, index, a, b)
    ensures BestOver(s, index, a, sum, ids) == BestOver(s, index, b, sum, ids)
    decreases 2 * (|s.covered| - index), |ids|
  {
    if ids != [] {
      var k := |ids| - 1;
      var id := ids[k];
      BestOverIndependent(s, index, a, b, sum, ids[..k]);
      ChooseAgrees(s, index, a, b, id);
      BestIndependent(s, index + 1, Choose(s, index, a, id), Choose(s, index, b, id), sum + s.prices.cost(id, s.covered[index]));
    }
  }

  /** A later covered leaf is a covered leaf from index on, and so is the
      leaf at index. */
  lemma CoveredVarMonotone(s: Search, index: nat)
    requires forall k :: 0 <= k < |s.covered| ==> s.covered[k] < |s.reg.leaves|
    requires index < |s.covered|
    ensures forall v :: CoveredVar(s, index + 1, v) ==> CoveredVar(s, index, v)
    ensures forall v :: v in s.reg.leaves[s.covered[index]] ==> CoveredVar(s, index, v)
  {
  }

  /** compute_decoupled_value_explicit_member_states: min_h never grows,
      never drops below the best value of the member states below this
      node, and reaches it exactly when no price is negative. Only the
      variables of the covered leaves from index on change. */
  method ComputeDecoupledValue(s: Search, ms: array<int>, minH: int, sum: int, index: nat) returns (minH': int)
    modifies ms
    requires SearchValid(s, ms.Length) && index <= |s.covered|
    ensures MinWith(minH, Best(s, index, old(ms[..]), sum)) <= minH' <= minH
    ensures NonNegative(s.prices) ==> minH' == MinWith(minH, Best(s, index, old(ms[..]), sum))
    ensures AgreeOutside(s, index, ms[..], old(ms[..]))
    decreases |s.covered| - index, 3
  {
    if sum >= minH {
      if NonNegative(s.prices) {
        BestAtLeast(s, index, ms[..], sum);
      }
      return minH;
    }
    if index == |s.covered| {
      var t := s.eval(ms[..]);
      if t.Value? && t.v >= 0 {
        minH' := if sum + t.v < minH then sum + t.v else minH;
      } else {
        minH' := minH;
      }
      return;
    }
    minH' := EnumerateLeaf(s, ms, minH, sum, index);
  }

  /** min_h, after the leaf at index tried the listed leaf states, relates
      to their best value as the search promises. */
  ghost predicate Progress(s: Search, index: nat, ms0: seq<int>, sum: int, minH: int, minH': int, ids: seq<nat>)
    requires SearchValid(s, |ms0|) && index < |s.covered|
  {
    var b := BestOver(s, index, ms0, sum, ids);
    && MinWith(minH, b) <= minH' <= minH
    && (NonNegative(s.prices) ==> minH' == MinWith(minH, b))
  }

  /** The loop over the leaf states of the covered leaf at index. */
  method EnumerateLeaf(s: Search, ms: array<int>, minH: int, sum: int, index: nat) returns (minH': int)
    modifies ms
    requires SearchValid(s, ms.Length) && index < |s.covered|
    ensures Progress(s, index, old(ms[..]), sum, minH, minH', VisitedOf(s.reg, s.prices, s.covered[index]))
    ensures AgreeOutside(s, index, ms[..], old(ms[..]))
    decreases |s.covered| - index, 2
  {
    var leaf := s.covered[index];
    ghost var has := HasOf(s.prices, leaf);
    ghost var ms0 := ms[..];
    var remaining: int := s.prices.numStates(leaf);
    minH' := minH;
    var id := 0;
    while id < s.reg.size(leaf)
      invariant id <= s.reg.size(leaf)
      invariant remaining == s.prices.numStates(leaf) - |PricesAdd.ReachedIds(has, id)|
      invariant s.prices.numStates(leaf) > 0 ==> |PricesAdd.ReachedIds(has, id)| < s.prices.numStates(leaf)
      invariant Progress(s, index, ms0, sum, minH, minH', PricesAdd.ReachedIds(has, id))
      invariant AgreeOutside(s, index, ms[..], ms0)
      decreases s.reg.size(leaf) - id
    {
      var reached := s.prices.has(id, leaf);
      minH' := EnumerateStep(s, ms, minH, minH', sum, index, id, ms0);
      if reached {
        remaining := remaining - 1;
        if remaining == 0 {
          PricesAdd.ReachedIdsPrefix(has, id + 1, s.reg.size(leaf));
          assert VisitedOf(s.reg, s.prices, leaf) == PricesAdd.ReachedIds(has, id + 1);
          return;
        }
      }
      id := id + 1;
    }
  }

  /** One id of the per-leaf loop: a reached leaf state is searched on, any
      other id changes nothing. */
  method EnumerateStep(s: Search, ms: array<int>, minH: int, current: int, sum: int, index: nat, id: nat, ghost ms0: seq<int>)
    returns (minH': int)
    modifies ms
    requires SearchValid(s, ms.Length) && index < |s.covered| && AgreeOutside(s, index, ms[..], ms0)
    requires Progress(s, index, ms0, sum, minH, current, PricesAdd.ReachedIds(HasOf(s.prices, s.covered[index]), id))
    ensures Progress(s, index, ms0, sum, minH, minH', PricesAdd.ReachedIds(HasOf(s.prices, s.covered[index]), id + 1))
    ensures AgreeOutside(s, index, ms[..], ms0)
    decreases |s.covered| - index, 1
  {
    var leaf := s.covered[index];
    ghost var reached := PricesAdd.ReachedIds(HasOf(s.prices, leaf), id);
    if s.prices.has(id, leaf) {
      assert HasOf(s.prices, leaf)(id);
      minH' := VisitLeafState(s, ms, current, sum, index, id, ms0);
      assert PricesAdd.ReachedIds(HasOf(s.prices, leaf), id + 1) == reached + [id];
      assert (reached + [id])[..|reached|] == reached;
      assert BestOver(s, index, ms0, sum, reached + [id])
          == Lower(BestOver(s, index, ms0, sum, reached), Best(s, index + 1, Choose(s, index, ms0, id), sum + s.prices.cost(id, leaf)));
    } else {
      assert !HasOf(s.prices, leaf)(id);
      assert PricesAdd.ReachedIds(HasOf(s.prices, leaf), id + 1) == reached;
      minH' := current;
    }
  }

  /** One reached leaf state: set its variables in the member state and
      search on with its price added. */
  method VisitLeafState(s: Search, ms: array<int>, minH: int, sum: int, index: nat, id: nat, ghost ms0: seq<int>)
    returns (minH': int)
    modifies ms
    requires SearchValid(s, ms.Length) && index < |s.covered| && AgreeOutside(s, index, ms[..], ms0)
    ensures var b := Best(s, index + 1, Choose(s, index, ms0, id), sum + s.prices.cost(id, s.covered[index]));
      && MinWith(minH, b) <= minH' <= minH
      && (NonNegative(s.prices) ==> minH' == MinWith(minH, b))
    ensures AgreeOutside(s, index, ms[..], ms0)
    decreases |s.covered| - index, 0
  {
    var leaf := s.covered[index];
    var lstate := s.reg.lookupLeaf(id, leaf);
    ghost var before := ms[..];
    assert PricesAdd.Covers(s.reg.leaves[leaf], lstate);
    AssignValues(ms, s.reg.leaves[leaf], lstate);
    ghost var chosen := ms[..];
    assert chosen == Choose(s, index, before, id);
    ChooseAgrees(s, index, before, ms0, id);
    BestIndependent(s, index + 1, chosen, Choose(s, index, ms0, id), sum + s.prices.cost(id, leaf));
    var price := s.prices.cost(id, leaf);
    minH' := ComputeDecoupledValue(s, ms, minH, sum + price, index + 1);
    AssignAt(before, s.reg.leaves[leaf], lstate);
    CoveredVarMonotone(s, index);
  }

  // ---------------------------------------------------------------------------
  // lookup

  /** The diagram variables of every diagram lie inside the variable table
      and name finite-domain variables. */
  ghost predicate SupportWithin(supportOf: nat -> seq<nat>, fdVarOf: seq<nat>, numVars: nat) {
    forall d: nat, i :: 0 <= i < |supportOf(d)| ==> supportOf(d)[i] < |fdVarOf| && fdVarOf[supportOf(d)[i]] < numVars
  }

  /** LookupAddDecoupledHeuristicExplicit with its cache covered_leaves_by_ADD
      of the covered leaves per heuristic diagram. A diagram is named by its
      node; supportOf gives its SupportIndices and fdVarOf is getFDVar. */
  class ExplicitHeuristic {
    const reg: LeafRegistry
    const center: seq<int>
    const numVars: nat
    const fdVarOf: seq<nat>
    const supportOf: nat -> seq<nat>
    var coveredByAdd: map<nat, seq<nat>>

    /** The covered leaves of a diagram. */
    ghost function CoveredFor(d: nat): seq<nat>
      reads this
      requires SupportWithin(supportOf, fdVarOf, numVars)
    {
      CoveredLeaves(reg.leaves, SupportFlags(supportOf(d), fdVarOf, numVars))
    }

    /** Every cached list is the diagram's covered leaves, or empty: an empty
        list is computed again on the next lookup. */
    ghost predicate Valid()
      reads this
    {
      && PricesAdd.LookupCovers(reg.leaves, reg.lookupLeaf)
      && LeavesWithin(reg.leaves, numVars)
      && (forall k :: 0 <= k < |center| ==> 0 <= center[k] < numVars)
      && SupportWithin(supportOf, fdVarOf, numVars)
      && forall d :: d in coveredByAdd ==> coveredByAdd[d] == [] || coveredByAdd[d] == CoveredFor(d)
    }

    constructor (reg: LeafRegistry, center: seq<int>, numVars: nat, fdVarOf: seq<nat>, supportOf: nat -> seq<nat>)
      requires PricesAdd.LookupCovers(reg.leaves, reg.lookupLeaf) && LeavesWithin(reg.leaves, numVars)
      requires forall k :: 0 <= k < |center| ==> 0 <= center[k] < numVars
      requires SupportWithin(supportOf, fdVarOf, numVars)
      ensures Valid() && coveredByAdd == map[]
      ensures this.reg == reg && this.center == center && this.numVars == numVars
      ensures this.fdVarOf == fdVarOf && this.supportOf == supportOf
    {
      this.reg := reg;
      this.center := center;
      this.numVars := numVars;
      this.fdVarOf := fdVarOf;
      this.supportOf := supportOf;
      coveredByAdd := map[];
    }

    /** lookup: the covered leaves of the diagram, from the cache unless the
        cached list is empty, then the branch and bound from the initial
        member state with min_h = INT_MAX. The answer is INT_MAX or the best
        member-state value when no price is negative, and never below it. */
    method Lookup(heuristic: nat, eval: seq<int> -> Terminal, prices: Prices, state: seq<int>) returns (h: int)
      modifies this
      requires Valid() && |state| == numVars
      ensures Valid()
      ensures coveredByAdd == old(coveredByAdd)[heuristic := CoveredFor(heuristic)]
      ensures var b := Best(Search(reg, prices, eval, CoveredFor(heuristic)), 0, InitialMembers(numVars, center, state), 0);
        && MinWith(IntMax, b) <= h <= IntMax
        && (NonNegative(prices) ==> h == MinWith(IntMax, b))
    {
      var covered := if heuristic in coveredByAdd then coveredByAdd[heuristic] else [];
      if covered == [] {
        var inSupport := SupportVars(supportOf(heuristic), fdVarOf, numVars);
        assert inSupport == SupportFlags(supportOf(heuristic), fdVarOf, numVars);
        covered := ComputeCoveredLeaves(reg.leaves, inSupport);
        coveredByAdd := coveredByAdd[heuristic := covered];
      }
      assert covered == CoveredFor(heuristic);
      CoveredLeavesExactly(reg.leaves, SupportFlags(supportOf(heuristic), fdVarOf, numVars));
      var ms := InitialMemberState(numVars, center, state);
      h := ComputeDecoupledValue(Search(reg, prices, eval, covered), ms, IntMax, 0, 0);
    }
  }
}
