/** The recursive lookup of the decoupled ADD heuristic
    (LookupAddDecoupledHeuristicRecursive): a walk down the heuristic
    diagram under an assignment of the diagram variables; a node whose
    variable is free enumerates the reached leaf states of its leaf. A
    diagram is a terminal or a node on a diagram variable with a then-child
    and an else-child. */
module LookupRecursive {
  import PricesAdd
  import opened LookupEncoding
  import opened LookupExplicit

  datatype Add = Constant(t: Terminal) | Node(index: nat, high: Add, low: Add)

  /** The value of a terminal: +infinity as INT_MAX, any other terminal its
      number. */
  function TerminalValue(t: Terminal): (r: int)
    ensures t.PlusInfinity? ==> r == IntMax
    ensures t.Value? ==> r == t.v
  {
    match t
    case PlusInfinity => IntMax
    case Value(v) => v
  }

  /** Every node of the diagram is on a diagram variable of the assignment. */
  predicate NodesIn(f: Add, size: nat) {
    match f
    case Constant(_) => true
    case Node(i, high, low) => i < size && NodesIn(high, size) && NodesIn(low, size)
  }

  /** What the walk needs: the registry and the prices of the search node,
      the diagram variables of each finite-domain variable (vars_index_pre)
      and the leaf of each diagram variable (leaf_bdd_var). */
  datatype Walk = Walk(reg: LeafRegistry, prices: Prices, varBits: seq<seq<nat>>, leafOfBit: seq<nat>)

  ghost predicate WalkValid(w: Walk, size: nat) {
    && PricesAdd.LookupCovers(w.reg.leaves, w.reg.lookupLeaf)
    && AllBitsIn(w.varBits, size)
    && (forall l, k :: 0 <= l < |w.reg.leaves| && 0 <= k < |w.reg.leaves[l]| ==> 0 <= w.reg.leaves[l][k] < |w.varBits|)
    && size <= |w.leafOfBit|
    && forall i :: 0 <= i < |w.leafOfBit| ==> w.leafOfBit[i] < |w.reg.leaves|
  }

  /** The assignment after set_binary_encoding_leaf of a leaf state. */
  function EncodeLeaf(w: Walk, a: seq<int>, leaf: nat, id: nat): (r: seq<int>)
    requires WalkValid(w, |a|) && leaf < |w.reg.leaves|
    ensures |r| == |a|
  {
    assert PricesAdd.Covers(w.reg.leaves[leaf], w.reg.lookupLeaf(id, leaf));
    EncodeVars(a, w.varBits, w.reg.leaves[leaf], w.reg.lookupLeaf(id, leaf))
  }

  /** The assignment with the listed diagram variables set free. */
  function Clear(a: seq<int>, bits: seq<nat>): (r: seq<int>)
    requires BitsIn(bits, |a|)
    ensures |r| == |a|
    decreases |bits|
  {
    if bits == [] then a
    else
      var k := |bits| - 1;
      Clear(a, bits[..k])[bits[k] := -1]
  }

  /** The assignment with every diagram variable of the listed
      finite-domain variables set free. */
  function ClearVars(a: seq<int>, varBits: seq<seq<nat>>, vars: seq<int>): (r: seq<int>)
    requires AllBitsIn(varBits, |a|) && forall k :: 0 <= k < |vars| ==> 0 <= vars[k] < |varBits|
    ensures |r| == |a|
    decreases |vars|
  {
    if vars == [] then a
    else
      var k := |vars| - 1;
      Clear(ClearVars(a, varBits, vars[..k]), varBits[vars[k]])
  }

  lemma {:induction false} ClearFrees(a: seq<int>, bits: seq<nat>)
    requires BitsIn(bits, |a|)
    ensures forall pos :: 0 <= pos < |bits| ==> Clear(a, bits)[bits[pos]] == -1
    ensures forall j :: 0 <= j < |a| && j !in bits ==> Clear(a, bits)[j] == a[j]
    decreases |bits|
  {
    if bits != [] {
      var k := |bits| - 1;
      ClearFrees(a, bits[..k]);
      assert forall j :: j in bits <==> j in bits[..k] || j == bits[k];
    }
  }

  /** The reset after a leaf's enumeration: every diagram variable of every
      variable of the leaf is free, and no other entry changes. */
  lemma {:induction false} ClearVarsFrees(a: seq<int>, varBits: seq<seq<nat>>, vars: seq<int>)
    requires AllBitsIn(varBits, |a|) && forall k :: 0 <= k < |vars| ==> 0 <= vars[k] < |varBits|
    ensures forall k, pos :: 0 <= k < |vars| && 0 <= pos < |varBits[vars[k]]| ==> ClearVars(a, varBits, vars)[varBits[vars[k]][pos]] == -1
    ensures forall j: nat :: j < |a| && !BitOf(varBits, vars, j) ==> ClearVars(a, varBits, vars)[j] == a[j]
    decreases |vars|
  {
    if vars != [] {
      var n := |vars| - 1;
      var before := ClearVars(a, varBits, vars[..n]);
      ClearVarsFrees(a, varBits, vars[..n]);
      ClearFrees(before, varBits[vars[n]]);
      forall k, pos | 0 <= k < |vars| && 0 <= pos < |varBits[vars[k]]|
        ensures ClearVars(a, varBits, vars)[varBits[vars[k]][pos]] == -1
      {
        if k < n && varBits[vars[k]][pos] !in varBits[vars[n]] {
          assert vars[..n][k] == vars[k];
        }
      }
      forall j: nat | j < |a| && !BitOf(varBits, vars, j)
        ensures ClearVars(a, varBits, vars)[j] == a[j]
      {
        assert j !in varBits[vars[n]];
      }
    }
  }

  /** lookup_recursive without its cache: the value of the diagram under the
      assignment, and the assignment the walk leaves behind. */
  function Lookup(w: Walk, f: Add, a: seq<int>): (r: (int, seq<int>))
    requires WalkValid(w, |a|) && NodesIn(f, |a|)
    ensures |r.1| == |a|
    decreases f, 1
  {
    match f
    case Constant(t) => (TerminalValue(t), a)
    case Node(i, high, low) =>
      if a[i] != -1 then Lookup(w, if a[i] == 1 then high else low, a)
      else
        var leaf := w.leafOfBit[i];
        var e := Enumerate(w, f, a, leaf, VisitedOf(w.reg, w.prices, leaf));
        (e.0, ClearVars(e.1, w.varBits, w.reg.leaves[leaf]))
  }

  /** The loop over the listed leaf states at a node whose variable is free:
      each sets the leaf's bits, follows the node's branch for the new value
      of its variable, and a finite result adds the state's price to the
      minimum. */
  function Enumerate(w: Walk, f: Add, a: seq<int>, leaf: nat, ids: seq<nat>): (r: (int, seq<int>))
    requires WalkValid(w, |a|) && f.Node? && NodesIn(f, |a|) && leaf < |w.reg.leaves|
    ensures |r.1| == |a|
    decreases f, 0, |ids|
  {
    if ids == [] then (IntMax, a)
    else
      var k := |ids| - 1;
      var id := ids[k];
      var before := Enumerate(w, f, a, leaf, ids[..k]);
      var encoded := EncodeLeaf(w, before.1, leaf, id);
      var next := if encoded[f.index] != 0 then f.high else f.low;
      var sub := Lookup(w, next, encoded);
      var cost := w.prices.cost(id, leaf);
      (if sub.0 < IntMax then (if cost + sub.0 < before.0 then cost + sub.0 else before.0) else before.0, sub.1)
  }

  /** Every terminal of the diagram is +infinity. */
  predicate AllInfinite(f: Add) {
    match f
    case Constant(t) => t.PlusInfinity?
    case Node(_, high, low) => AllInfinite(high) && AllInfinite(low)
  }

  /** A dead end stays a dead end: when every terminal is +infinity the
      lookup is INT_MAX whatever the prices, since no infinite sub-result
      enters the minimum. */
  lemma {:induction false} LookupInfinite(w: Walk, f: Add, a: seq<int>)
    requires WalkValid(w, |a|) && NodesIn(f, |a|) && AllInfinite(f)
    ensures Lookup(w, f, a).0 == IntMax
    decreases f, 1
  {
    match f
    case Constant(t) =>
    case Node(i, high, low) =>
      if a[i] != -1 {
        LookupInfinite(w, if a[i] == 1 then high else low, a);
      } else {
        var leaf := w.leafOfBit[i];
        EnumerateInfinite(w, f, a, leaf, VisitedOf(w.reg, w.prices, leaf));
      }
  }

  lemma {:induction false} EnumerateInfinite(w: Walk, f: Add, a: seq<int>, leaf: nat, ids: seq<nat>)
    requires WalkValid(w, |a|) && f.Node? && NodesIn(f, |a|) && leaf < |w.reg.leaves| && AllInfinite(f)
    ensures Enumerate(w, f, a, leaf, ids).0 == IntMax
    decreases f, 0, |ids|
  {
    if ids != [] {
      var k := |ids| - 1;
      var before := Enumerate(w, f, a, leaf, ids[..k]);
      EnumerateInfinite(w, f, a, leaf, ids[..k]);
      var encoded := EncodeLeaf(w, before.1, leaf, ids[k]);
      LookupInfinite(w, if encoded[f.index] != 0 then f.high else f.low, encoded);
    }
  }

  /** Every number terminal of the diagram is non-negative. */
  predicate NonNegativeTerminals(f: Add) {
    match f
    case Constant(t) => t.Value? ==> t.v >= 0
    case Node(_, high, low) => NonNegativeTerminals(high) && NonNegativeTerminals(low)
  }

  /** With non-negative terminals and prices the lookup is non-negative. */
  lemma {:induction false} LookupNonNegative(w: Walk, f: Add, a: seq<int>)
    requires WalkValid(w, |a|) && NodesIn(f, |a|) && NonNegativeTerminals(f) && NonNegative(w.prices)
    ensures Lookup(w, f, a).0 >= 0
    decreases f, 1
  {
    match f
    case Constant(t) =>
    case Node(i, high, low) =>
      if a[i] != -1 {
        LookupNonNegative(w, if a[i] == 1 then high else low, a);
      } else {
        var leaf := w.leafOfBit[i];
        EnumerateNonNegative(w, f, a, leaf, VisitedOf(w.reg, w.prices, leaf));
      }
  }

  lemma {:induction false} EnumerateNonNegative(w: Walk, f: Add, a: seq<int>, leaf: nat, ids: seq<nat>)
    requires WalkValid(w, |a|) && f.Node? && NodesIn(f, |a|) && leaf < |w.reg.leaves|
    requires NonNegativeTerminals(f) && NonNegative(w.prices)
    ensures Enumerate(w, f, a, leaf, ids).0 >= 0
    decreases f, 0, |ids|
  {
    if ids != [] {
      var k := |ids| - 1;
      var before := Enumerate(w, f, a, leaf, ids[..k]);
      EnumerateNonNegative(w, f, a, leaf, ids[..k]);
      var encoded := EncodeLeaf(w, before.1, leaf, ids[k]);
      LookupNonNegative(w, if encoded[f.index] != 0 then f.high else f.low, encoded);
      assert w.prices.cost(ids[k], leaf) >= 0;
    }
  }

  /** After a lookup at a node whose variable is free, all diagram variables
      of that node's leaf are free again. */
  lemma LookupResetsLeaf(w: Walk, f: Add, a: seq<int>)
    requires WalkValid(w, |a|) && NodesIn(f, |a|) && f.Node? && a[f.index] == -1
    ensures var vars := w.reg.leaves[w.leafOfBit[f.index]];
      forall k, pos :: 0 <= k < |vars| && 0 <= pos < |w.varBits[vars[k]]| ==> Lookup(w, f, a).1[w.varBits[vars[k]][pos]] == -1
  {
    var leaf := w.leafOfBit[f.index];
    var e := Enumerate(w, f, a, leaf, VisitedOf(w.reg, w.prices, leaf));
    ClearVarsFrees(e.1, w.varBits, w.reg.leaves[leaf]);
  }

  /** lookup_recursive on the assignment vector, without the cache. */
  method LookupRec(w: Walk, f: Add, assignment: array<int>) returns (r: int)
    modifies assignment
    requires WalkValid(w, assignment.Length) && NodesIn(f, assignment.Length)
    ensures (r, assignment[..]) == Lookup(w, f, old(assignment[..]))
    decreases f, 2
  {
    if f.Constant? {
      return TerminalValue(f.t);
    }
    var bddVar := f.index;
    if assignment[bddVar] != -1 {
      var next := if assignment[bddVar] == 1 then f.high else f.low;
      r := LookupRec(w, next, assignment);
      return;
    }
    var leaf := w.leafOfBit[bddVar];
    r := EnumerateLeafStates(w, f, assignment, leaf);
    ResetLeaf(assignment, w.varBits, w.reg.leaves[leaf]);
  }

  /** The reset loop: every diagram variable of every variable of the leaf
      becomes free. */
  method ResetLeaf(assignment: array<int>, varBits: seq<seq<nat>>, vars: seq<int>)
    modifies assignment
    requires AllBitsIn(varBits, assignment.Length) && forall k :: 0 <= k < |vars| ==> 0 <= vars[k] < |varBits|
    ensures assignment[..] == ClearVars(old(assignment[..]), varBits, vars)
  {
    for k := 0 to |vars|
      invariant assignment[..] == ClearVars(old(assignment[..]), varBits, vars[..k])
    {
      assert vars[..k + 1][..k] == vars[..k];
      ghost var before := assignment[..];
      var bits := varBits[vars[k]];
      for pos := 0 to |bits|
        invariant assignment[..] == Clear(before, bits[..pos])
      {
        assert bits[..pos + 1][..pos] == bits[..pos];
        assignment[bits[pos]] := -1;
      }
      assert bits[..|bits|] == bits;
    }
    assert vars[..|vars|] == vars;
  }

  /** The loop over the reached leaf states at a node whose variable is free. */
  method EnumerateLeafStates(w: Walk, f: Add, assignment: array<int>, leaf: nat) returns (result: int)
    modifies assignment
    requires WalkValid(w, assignment.Length) && f.Node? && NodesIn(f, assignment.Length) && leaf < |w.reg.leaves|
    ensures (result, assignment[..]) == Enumerate(w, f, old(assignment[..]), leaf, VisitedOf(w.reg, w.prices, leaf))
    decreases f, 1
  {
    ghost var has := HasOf(w.prices, leaf);
    ghost var a0 := assignment[..];
    result := IntMax;
    var remaining: int := w.prices.numStates(leaf);
    var id := 0;
    while id < w.reg.size(leaf)
      invariant id <= w.reg.size(leaf)
      invariant remaining == w.prices.numStates(leaf) - |PricesAdd.ReachedIds(has, id)|
      invariant w.prices.numStates(leaf) > 0 ==> |PricesAdd.ReachedIds(has, id)| < w.prices.numStates(leaf)
      invariant (result, assignment[..]) == Enumerate(w, f, a0, leaf, PricesAdd.ReachedIds(has, id))
      decreases w.reg.size(leaf) - id
    {
      var reached := w.prices.has(id, leaf);
      result := EnumerateStep(w, f, assignment, leaf, id, result, a0);
      if reached {
        remaining := remaining - 1;
        if remaining == 0 {
          PricesAdd.ReachedIdsPrefix(has, id + 1, w.reg.size(leaf));
          assert VisitedOf(w.reg, w.prices, leaf) == PricesAdd.ReachedIds(has, id + 1);
          return;
        }
      }
      id := id + 1;
    }
  }

  /** One id of the loop: a reached leaf state is encoded, the walk goes on
      below the node, and a finite result lowers the minimum. */
  method EnumerateStep(w: Walk, f: Add, assignment: array<int>, leaf: nat, id: nat, current: int, ghost a0: seq<int>)
    returns (result: int)
    modifies assignment
    requires WalkValid(w, assignment.Length) && f.Node? && NodesIn(f, assignment.Length) && leaf < |w.reg.leaves|
    requires |a0| == assignment.Length
    requires (current, assignment[..]) == Enumerate(w, f, a0, leaf, PricesAdd.ReachedIds(HasOf(w.prices, leaf), id))
    ensures (result, assignment[..]) == Enumerate(w, f, a0, leaf, PricesAdd.ReachedIds(HasOf(w.prices, leaf), id + 1))
    decreases f, 0
  {
    ghost var reached := PricesAdd.ReachedIds(HasOf(w.prices, leaf), id);
    if w.prices.has(id, leaf) {
      assert HasOf(w.prices, leaf)(id);
      assert PricesAdd.ReachedIds(HasOf(w.prices, leaf), id + 1) == reached + [id];
      assert (reached + [id])[..|reached|] == reached;
      var cost := w.prices.cost(id, leaf);
      var lstate := w.reg.lookupLeaf(id, leaf);
      assert PricesAdd.Covers(w.reg.leaves[leaf], lstate);
      SetBinaryEncodingLeaf(assignment, w.varBits, w.reg.leaves[leaf], lstate);
      var next := if assignment[f.index] != 0 then f.high else f.low;
      var sub := LookupRec(w, next, assignment);
      result := current;
      if sub < IntMax {
        result := if cost + sub < current then cost + sub else current;
      }
    } else {
      assert !HasOf(w.prices, leaf)(id);
      assert PricesAdd.ReachedIds(HasOf(w.prices, leaf), id + 1) == reached;
      result := current;
    }
  }

  /** The assignment lookup starts from: every diagram variable of a center
      variable holds its bit of the state's value, all others are free. */
  function InitialAssignment(size: nat, varBits: seq<seq<nat>>, center: seq<int>, state: seq<int>): (r: seq<int>)
    requires AllBitsIn(varBits, size) && VarsWithin(center, |varBits|, state)
    ensures |r| == size
  {
    EncodeVars(seq(size, j => -1), varBits, center, state)
  }

  lemma InitialAssignmentAt(size: nat, varBits: seq<seq<nat>>, center: seq<int>, state: seq<int>)
    requires Layout(varBits, size) && VarsWithin(center, |varBits|, state)
    ensures forall k, pos :: 0 <= k < |center| && 0 <= pos < |varBits[center[k]]| ==>
              InitialAssignment(size, varBits, center, state)[varBits[center[k]][pos]] == Bit(state[center[k]], pos)
    ensures forall j: nat :: j < size && !BitOf(varBits, center, j) ==> InitialAssignment(size, varBits, center, state)[j] == -1
  {
    EncodeVarsSets(seq(size, j => -1), varBits, center, state);
    EncodeVarsFrame(seq(size, j => -1), varBits, center, state);
  }

  /** lookup: a free assignment of all diagram variables (twice the number
      of finite-domain bits, for the primed copies), the center encoded from
      the state, then the walk from the root. */
  method LookupHeuristic(w: Walk, heuristic: Add, numBddVars: nat, center: seq<int>, state: seq<int>) returns (h: int)
    requires WalkValid(w, numBddVars * 2) && NodesIn(heuristic, numBddVars * 2) && VarsWithin(center, |w.varBits|, state)
    ensures h == Lookup(w, heuristic, InitialAssignment(numBddVars * 2, w.varBits, center, state)).0
  {
    var assignment := new int[numBddVars * 2](j => -1);
    assert assignment[..] == seq(numBddVars * 2, j => -1);
    SetBinaryEncodingCenter(assignment, w.varBits, center, state);
    h := LookupRec(w, heuristic, assignment);
  }
}
