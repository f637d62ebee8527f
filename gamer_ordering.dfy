/** The static variable orderings of the symbolic planner, built on the
    influence graph: compute_gamer_ordering over the causal graph of the
    variables, compute_gamer_ordering_respecting_factors over the graph of
    the factors of a decoupled task followed by the expansion of the factor
    order into variables, and compute_factored_gamer_ordering, which orders
    the variables inside each leaf factor. The causal graph is an input: the
    successors of each variable. Every influence graph is built with the same
    generator seed, so each starts from the same stream of draws `rng`. */
module GamerOrdering {
  import opened OptOrderCost
  import opened OptOrderSearch
  import opened OptOrder

  // ---------------------------------------------------------------------------
  // Matrices built by set_influence from lists of pairs

  /** Every pair of es names two rows of an num x num matrix. */
  predicate PairsIn(es: seq<(int, int)>, num: int) {
    forall i :: 0 <= i < |es| ==> 0 <= es[i].0 < num && 0 <= es[i].1 < num
  }

  /** The matrix after set_influence(e.0, e.1) with the default value 1, for
      each pair e of es in turn (a pair outside the matrix is never linked by
      the constructions below; here it leaves the matrix as it is). */
  function Link(m: seq<seq<int>>, es: seq<(int, int)>): (r: seq<seq<int>>)
    requires IsSquareMatrix(m)
    ensures |r| == |m| && IsSquareMatrix(r)
    decreases |es|
  {
    if es == [] then m
    else
      var k := |es| - 1;
      var r := Link(m, es[..k]);
      if 0 <= es[k].0 < |m| && 0 <= es[k].1 < |m| then SetCells(r, es[k].0, es[k].1, 1) else r
  }

  /** Starting from zeros, two rows influence each other (with value 1)
      exactly when a listed pair joins them, in either direction. */
  lemma {:induction false} LinkEntries(num: nat, es: seq<(int, int)>, a: int, b: int)
    requires PairsIn(es, num) && 0 <= a < num && 0 <= b < num
    ensures Link(Zeros(num), es)[a][b] == if (a, b) in es || (b, a) in es then 1 else 0
    decreases |es|
  {
    if es != [] {
      var k := |es| - 1;
      var e, init := es[k], es[..k];
      assert PairsIn(init, num);
      LinkEntries(num, init, a, b);
      assert Link(Zeros(num), es) == SetCells(Link(Zeros(num), init), e.0, e.1, 1);
      InSnoc(es, (a, b));
      InSnoc(es, (b, a));
    }
  }

  /** A pair occurs in a nonempty list exactly when it occurs before the last one or is the last one. */
  lemma {:induction false} InSnoc(es: seq<(int, int)>, x: (int, int))
    requires es != []
    ensures x in es <==> x in es[..|es| - 1] || x == es[|es| - 1]
  {
    assert es == es[..|es| - 1] + [es[|es| - 1]];
  }

  /** Linking one more pair after a list is linking the extended list. */
  lemma {:induction false} LinkSnoc(m: seq<seq<int>>, es: seq<(int, int)>, e: (int, int))
    requires IsSquareMatrix(m) && 0 <= e.0 < |m| && 0 <= e.1 < |m|
    ensures Link(m, es + [e]) == SetCells(Link(m, es), e.0, e.1, 1)
  {
    assert (es + [e])[..|es|] == es;
  }

  /** Every successor named by the causal graph is a variable. */
  predicate SuccessorsIn(succ: seq<seq<int>>, num: int) {
    forall v, j :: 0 <= v < |succ| && 0 <= j < |succ[v]| ==> 0 <= succ[v][j] < num
  }

  /** 0, 1, ..., k - 1. */
  function Ascending(k: nat): (r: seq<int>)
    ensures |r| == k && forall i :: 0 <= i < k ==> r[i] == i
  {
    if k == 0 then [] else Ascending(k - 1) + [k - 1]
  }

  /** A sequence whose entries differ pairwise has no value twice. */
  lemma {:induction false} DistinctByIndex(s: seq<int>)
    requires forall i, j :: 0 <= i < j < |s| ==> s[i] != s[j]
    ensures Distinct(s)
    decreases |s|
  {
    if s != [] {
      DistinctByIndex(s[1..]);
      assert s == [s[0]] + s[1..];
      assert s[0] !in s[1..];
    }
  }

  /** cost is the objective of m wherever that objective is mentioned. */
  lemma {:induction false} CostOfIsObjective(m: seq<seq<int>>)
    ensures IsObjective(CostOf(m), m)
  {
  }

  /** The array holding s, as the vector the orderings are optimised in. */
  method ToArray(s: seq<int>) returns (a: array<int>)
    ensures fresh(a) && a[..] == s
  {
    a := new int[|s|](k requires 0 <= k < |s| => s[k]);
  }

  /** get_ordering on a fresh influence graph holding m: the climb and
      restarts of the optimiser from the first draw of the stream. */
  method OrderWith(ig: InfluenceGraph, ordering: seq<int>) returns (r: seq<int>)
    modifies ig`drawn
    requires ig.Valid() && ig.drawn == 0 && |ordering| > 0 && InRange(ordering, ig.n) && Distinct(ordering)
    ensures r == GetOrderingResult(CostOf(ig.influenceGraph), ordering, ig.rng, 0, ClimbIterations, RestartCount)
  {
    var a := ToArray(ordering);
    CostOfIsObjective(ig.influenceGraph);
    ig.GetOrdering(a, CostOf(ig.influenceGraph));
    r := a[..];
  }

  /** What get_ordering promises about its result for the objective of m. */
  lemma {:induction false} OrderingResult(m: seq<seq<int>>, o: seq<int>, rng: nat -> nat)
    requires |o| > 0 && Distinct(o)
    ensures var r := GetOrderingResult(CostOf(m), o, rng, 0, ClimbIterations, RestartCount);
            multiset(r) == multiset(o) && Cost(m, r) <= Cost(m, o)
  {
    GetOrderingPermutes(CostOf(m), o, rng, 0, ClimbIterations, RestartCount);
    GetOrderingNeverWorseByObjective(m, CostOf(m), o, rng, 0, ClimbIterations, RestartCount);
  }

  // ---------------------------------------------------------------------------
  // compute_gamer_ordering

  /** The pairs compute_gamer_ordering links for variable v: (v, v2) for each
      of the first j causal-graph successors v2 of v other than v itself. */
  function SuccPairs(succ: seq<seq<int>>, v: int, j: int): seq<(int, int)>
    requires 0 <= v < |succ| && 0 <= j <= |succ[v]|
    decreases j
  {
    if j == 0 then []
    else SuccPairs(succ, v, j - 1) + (if succ[v][j - 1] != v then [(v, succ[v][j - 1])] else [])
  }

  /** The pairs linked for the variables below v, in the order the loops visit them. */
  function GamerPairs(succ: seq<seq<int>>, v: int): seq<(int, int)>
    requires 0 <= v <= |succ|
    decreases v
  {
    if v == 0 then [] else GamerPairs(succ, v - 1) + SuccPairs(succ, v - 1, |succ[v - 1]|)
  }

  lemma {:induction false} SuccPairsMembers(succ: seq<seq<int>>, v: int, j: int, a: int, b: int)
    requires 0 <= v < |succ| && 0 <= j <= |succ[v]|
    ensures (a, b) in SuccPairs(succ, v, j) <==> a == v && b != v && b in succ[v][..j]
    decreases j
  {
    if j > 0 {
      SuccPairsMembers(succ, v, j - 1, a, b);
      assert succ[v][..j] == succ[v][..j - 1] + [succ[v][j - 1]];
    }
  }

  /** The pair (a, b) is linked exactly when a is a variable below v and b is
      one of its causal-graph successors other than a. */
  lemma {:induction false} GamerPairsMembers(succ: seq<seq<int>>, v: int, a: int, b: int)
    requires 0 <= v <= |succ|
    ensures (a, b) in GamerPairs(succ, v) <==> 0 <= a < v && a != b && b in succ[a]
    decreases v
  {
    if v > 0 {
      GamerPairsMembers(succ, v - 1, a, b);
      SuccPairsMembers(succ, v - 1, |succ[v - 1]|, a, b);
      assert succ[v - 1][..|succ[v - 1]|] == succ[v - 1];
    }
  }

  lemma {:induction false} GamerPairsIn(succ: seq<seq<int>>, v: int)
    requires 0 <= v <= |succ| && SuccessorsIn(succ, |succ|)
    ensures PairsIn(GamerPairs(succ, v), |succ|)
    decreases v
  {
    if v > 0 {
      GamerPairsIn(succ, v - 1);
      var es := GamerPairs(succ, v);
      forall i | 0 <= i < |es| ensures 0 <= es[i].0 < |succ| && 0 <= es[i].1 < |succ| {
        GamerPairsMembers(succ, v, es[i].0, es[i].1);
      }
    }
  }

  /** The influence matrix compute_gamer_ordering builds over the variables. */
  function GamerGraph(succ: seq<seq<int>>): (m: seq<seq<int>>)
    requires SuccessorsIn(succ, |succ|)
    ensures |m| == |succ| && IsSquareMatrix(m)
  {
    Link(Zeros(|succ|), GamerPairs(succ, |succ|))
  }

  /** Two variables influence each other exactly when they differ and one is a
      causal-graph successor of the other. */
  lemma {:induction false} GamerGraphEntries(succ: seq<seq<int>>, a: int, b: int)
    requires SuccessorsIn(succ, |succ|) && 0 <= a < |succ| && 0 <= b < |succ|
    ensures GamerGraph(succ)[a][b] == if a != b && (b in succ[a] || a in succ[b]) then 1 else 0
  {
    GamerPairsIn(succ, |succ|);
    LinkEntries(|succ|, GamerPairs(succ, |succ|), a, b);
    GamerPairsMembers(succ, |succ|, a, b);
    GamerPairsMembers(succ, |succ|, b, a);
  }

  /** set_influence(a, b) extends the list of linked pairs by (a, b). */
  method LinkPair(ig: InfluenceGraph, a: int, b: int, ghost m0: seq<seq<int>>, ghost es: seq<(int, int)>)
    modifies ig`influenceGraph
    requires ig.Valid() && 0 <= a < ig.n && 0 <= b < ig.n
    requires |m0| == ig.n && IsSquareMatrix(m0) && ig.influenceGraph == Link(m0, es)
    ensures ig.Valid() && ig.influenceGraph == Link(m0, es + [(a, b)])
  {
    LinkSnoc(m0, es, (a, b));
    ig.SetInfluence(a, b);
  }

  /** One more successor v2 of v adds the pair (v, v2) unless v2 is v. */
  lemma {:induction false} SuccPairsStep(succ: seq<seq<int>>, v: int, j: int, pre: seq<(int, int)>, es: seq<(int, int)>, v2: int)
    requires 0 <= v < |succ| && 0 <= j < |succ[v]| && v2 == succ[v][j] && es == pre + SuccPairs(succ, v, j)
    ensures pre + SuccPairs(succ, v, j + 1) == if v2 != v then es + [(v, v2)] else es
  {
  }

  /** The inner loop of the graph construction for variable v. */
  method LinkSuccessors(ig: InfluenceGraph, succ: seq<seq<int>>, v: int, ghost m0: seq<seq<int>>, ghost pre: seq<(int, int)>)
    modifies ig`influenceGraph
    requires ig.Valid() && |succ| == ig.n && SuccessorsIn(succ, |succ|) && 0 <= v < |succ|
    requires |m0| == ig.n && IsSquareMatrix(m0) && ig.influenceGraph == Link(m0, pre)
    ensures ig.Valid()
    ensures ig.influenceGraph == Link(m0, pre + SuccPairs(succ, v, |succ[v]|))
  {
    assert pre + SuccPairs(succ, v, 0) == pre;
    for j := 0 to |succ[v]|
      invariant ig.Valid()
      invariant ig.influenceGraph == Link(m0, pre + SuccPairs(succ, v, j))
    {
      LinkSuccessor(ig, succ, v, j, m0, pre);
    }
  }

  /** One pass of the inner loop: link v with its j-th successor v2 unless v2 is v. */
  method LinkSuccessor(ig: InfluenceGraph, succ: seq<seq<int>>, v: int, j: int, ghost m0: seq<seq<int>>, ghost pre: seq<(int, int)>)
    modifies ig`influenceGraph
    requires ig.Valid() && |succ| == ig.n && SuccessorsIn(succ, |succ|) && 0 <= v < |succ| && 0 <= j < |succ[v]|
    requires |m0| == ig.n && IsSquareMatrix(m0) && ig.influenceGraph == Link(m0, pre + SuccPairs(succ, v, j))
    ensures ig.Valid() && ig.influenceGraph == Link(m0, pre + SuccPairs(succ, v, j + 1))
  {
    var v2 := succ[v][j];
    ghost var es := pre + SuccPairs(succ, v, j);
    SuccPairsStep(succ, v, j, pre, es, v2);
    if v != v2 {
      LinkPair(ig, v, v2, m0, es);
    }
  }

  /** The graph construction of compute_gamer_ordering: every variable is
      linked to each of its causal-graph successors other than itself. */
  method LinkGamerGraph(ig: InfluenceGraph, succ: seq<seq<int>>)
    modifies ig`influenceGraph
    requires ig.Valid() && |succ| == ig.n && SuccessorsIn(succ, |succ|) && ig.influenceGraph == Zeros(ig.n)
    ensures ig.Valid() && ig.influenceGraph == GamerGraph(succ)
  {
    for v := 0 to |succ|
      invariant ig.Valid()
      invariant ig.influenceGraph == Link(Zeros(ig.n), GamerPairs(succ, v))
    {
      LinkSuccessors(ig, succ, v, Zeros(ig.n), GamerPairs(succ, v));
    }
  }

  /** n - 1, ..., 1, 0: the variables in reverse index order. */
  function Descending(k: nat): (r: seq<int>)
    ensures |r| == k && forall i :: 0 <= i < k ==> r[i] == k - 1 - i
  {
    seq(k, i => k - 1 - i)
  }

  /** What compute_gamer_ordering returns: get_ordering, on the graph of the
      causal graph, applied to the variables in reverse index order. */
  function GamerOrderingResult(succ: seq<seq<int>>, rng: nat -> nat): (r: seq<int>)
    requires |succ| > 0 && SuccessorsIn(succ, |succ|)
  {
    GetOrderingResult(CostOf(GamerGraph(succ)), Descending(|succ|), rng, 0, ClimbIterations, RestartCount)
  }

  /** compute_gamer_ordering returns every variable exactly once, and an
      ordering at least as good as the reverse index order. */
  lemma {:induction false} GamerOrderingPermutes(succ: seq<seq<int>>, rng: nat -> nat)
    requires |succ| > 0 && SuccessorsIn(succ, |succ|)
    ensures multiset(GamerOrderingResult(succ, rng)) == multiset(Ascending(|succ|))
    ensures Cost(GamerGraph(succ), GamerOrderingResult(succ, rng)) <= Cost(GamerGraph(succ), Descending(|succ|))
  {
    DistinctByIndex(Descending(|succ|));
    OrderingResult(GamerGraph(succ), Descending(|succ|), rng);
    DescendingPermutes(|succ|);
  }

  /** The variables in reverse index order are all the variables once each. */
  lemma {:induction false} DescendingPermutes(k: nat)
    ensures multiset(Descending(k)) == multiset(Ascending(k))
    decreases k
  {
    if k > 0 {
      DescendingPermutes(k - 1);
      assert Descending(k) == [k - 1] + Descending(k - 1);
      assert Ascending(k) == Ascending(k - 1) + [k - 1];
    }
  }

  /** compute_gamer_ordering: builds the influence graph of the causal graph,
      lists the variables, reverses the list and optimises it. */
  method ComputeGamerOrdering(succ: seq<seq<int>>, rng: nat -> nat) returns (varOrder: seq<int>)
    requires |succ| > 0 && SuccessorsIn(succ, |succ|)
    ensures varOrder == GamerOrderingResult(succ, rng)
  {
    varOrder := ListVariables(|succ|);
    var ig := new InfluenceGraph(|succ|, rng);
    LinkGamerGraph(ig, succ);
    varOrder := Reverse(varOrder);
    assert varOrder == Descending(|succ|);
    DistinctByIndex(varOrder);
    varOrder := OrderWith(ig, varOrder);
  }

  /** The variables 0, 1, ..., n - 1, pushed back one at a time. */
  method ListVariables(n: nat) returns (varOrder: seq<int>)
    ensures varOrder == Ascending(n)
  {
    varOrder := [];
    for v := 0 to n
      invariant varOrder == Ascending(v)
    {
      varOrder := varOrder + [v];
    }
  }

  /** std::reverse of the listed variables. */
  method Reverse(s: seq<int>) returns (r: seq<int>)
    ensures |r| == |s| && forall i :: 0 <= i < |s| ==> r[i] == s[|s| - 1 - i]
  {
    r := seq(|s|, i requires 0 <= i < |s| => s[|s| - 1 - i]);
  }

  // ---------------------------------------------------------------------------
  // compute_gamer_ordering_respecting_factors

  /** The factor a variable belongs to: one of the leaf factors, or the center. */
  datatype BelongsTo = Center | Leaf(leaf: nat)

  /** Every leaf a variable belongs to is one of the numLeaves leaf factors. */
  predicate LeavesIn(belongs: seq<BelongsTo>, numLeaves: nat) {
    forall v :: 0 <= v < |belongs| && belongs[v].Leaf? ==> belongs[v].leaf < numLeaves
  }

  /** The center variables, in increasing order. */
  function CentersOf(belongs: seq<BelongsTo>): (r: seq<int>)
    ensures forall i :: 0 <= i < |r| ==> 0 <= r[i] < |belongs| && belongs[r[i]] == Center
    ensures forall i, j :: 0 <= i < j < |r| ==> r[i] < r[j]
    decreases |belongs|
  {
    if belongs == [] then []
    else
      var k := |belongs| - 1;
      CentersOf(belongs[..k]) + (if belongs[k] == Center then [k] else [])
  }

  /** The center variables among the first k + 1 are those among the first k, then k if it is one. */
  lemma {:induction false} CentersOfStep(belongs: seq<BelongsTo>, k: int)
    requires 0 <= k < |belongs|
    ensures CentersOf(belongs[..k + 1]) == CentersOf(belongs[..k]) + (if belongs[k] == Center then [k] else [])
  {
    assert belongs[..k + 1][..k] == belongs[..k];
  }

  /** CentersOf lists exactly the center variables. */
  lemma {:induction false} CentersOfMembers(belongs: seq<BelongsTo>, v: int)
    ensures v in CentersOf(belongs) <==> 0 <= v < |belongs| && belongs[v] == Center
    decreases |belongs|
  {
    if belongs != [] {
      var k := |belongs| - 1;
      CentersOfMembers(belongs[..k], v);
    }
  }

  /** The factor number of variable v: its leaf, or for a center variable the
      next number after the leaves and the center variables before it. */
  function FactorOfVar(numLeaves: nat, belongs: seq<BelongsTo>, v: int): int
    requires 0 <= v < |belongs|
  {
    match belongs[v]
    case Leaf(id) => id
    case Center => numLeaves + |CentersOf(belongs[..v])|
  }

  /** The number of factors: the leaves and one per center variable. */
  function NumFactors(numLeaves: nat, belongs: seq<BelongsTo>): nat {
    numLeaves + |CentersOf(belongs)|
  }

  lemma {:induction false} FactorOfVarIn(numLeaves: nat, belongs: seq<BelongsTo>, v: int)
    requires LeavesIn(belongs, numLeaves) && 0 <= v < |belongs|
    ensures 0 <= FactorOfVar(numLeaves, belongs, v) < NumFactors(numLeaves, belongs)
  {
    if belongs[v] == Center {
      var c := CentersOf(belongs);
      CentersOfStep(belongs, v);
      CentersOfPrefix(belongs, v + 1);
    }
  }

  /** The center variables of a prefix are at most as many as all of them. */
  lemma {:induction false} CentersOfPrefix(belongs: seq<BelongsTo>, k: int)
    requires 0 <= k <= |belongs|
    ensures |CentersOf(belongs[..k])| <= |CentersOf(belongs)|
    decreases |belongs| - k
  {
    if k < |belongs| {
      CentersOfStep(belongs, k);
      CentersOfPrefix(belongs, k + 1);
    } else {
      assert belongs[..k] == belongs;
    }
  }

  /** The numbering after the center loop has visited the variables below v. */
  /** factor_to_center_variable maps the factor numLeaves + i to the i-th center variable c[i]. */
  predicate CentersNumbered(numLeaves: nat, c: seq<int>, toCenter: map<int, int>) {
    forall f :: numLeaves <= f < numLeaves + |c| ==> f in toCenter && toCenter[f] == c[f - numLeaves]
  }

  predicate NumberedBelow(numLeaves: nat, belongs: seq<BelongsTo>, v: int, factorOrder: seq<int>, toCenter: map<int, int>, toFactor: map<int, int>)
    requires 0 <= v <= |belongs|
  {
    var c := CentersOf(belongs[..v]);
    && factorOrder == Ascending(numLeaves + |c|)
    && CentersNumbered(numLeaves, c, toCenter)
    && (forall u :: 0 <= u < v && belongs[u] == Center ==> u in toFactor && toFactor[u] == FactorOfVar(numLeaves, belongs, u))
  }

  /** One pass of the center loop: a center variable v gets the next factor number. */
  method NumberCenter(numLeaves: nat, belongs: seq<BelongsTo>, v: int, factorOrder: seq<int>, toCenter: map<int, int>, toFactor: map<int, int>)
    returns (factorOrder': seq<int>, toCenter': map<int, int>, toFactor': map<int, int>)
    requires 0 <= v < |belongs| && NumberedBelow(numLeaves, belongs, v, factorOrder, toCenter, toFactor)
    ensures NumberedBelow(numLeaves, belongs, v + 1, factorOrder', toCenter', toFactor')
  {
    factorOrder', toCenter', toFactor' := factorOrder, toCenter, toFactor;
    if belongs[v] == Center {
      var id := |factorOrder|;
      factorOrder' := factorOrder + [id];
      toCenter' := toCenter[id := v];
      toFactor' := toFactor[v := id];
      NumberedCenter(numLeaves, belongs, v, factorOrder, toCenter, toFactor);
    } else {
      NumberedLeaf(numLeaves, belongs, v, factorOrder, toCenter, toFactor);
    }
  }

  /** A center variable takes the next factor number, numLeaves + (centers so far). */
  lemma {:induction false} NumberedCenter(numLeaves: nat, belongs: seq<BelongsTo>, v: int, factorOrder: seq<int>, toCenter: map<int, int>, toFactor: map<int, int>)
    requires 0 <= v < |belongs| && belongs[v] == Center && NumberedBelow(numLeaves, belongs, v, factorOrder, toCenter, toFactor)
    ensures NumberedBelow(numLeaves, belongs, v + 1, factorOrder + [|factorOrder|], toCenter[|factorOrder| := v], toFactor[v := |factorOrder|])
  {
    CentersOfStep(belongs, v);
    var c, c' := CentersOf(belongs[..v]), CentersOf(belongs[..v + 1]);
    var id := |factorOrder|;
    assert id == numLeaves + |c| && c' == c + [v];
    assert Ascending(numLeaves + |c'|) == Ascending(numLeaves + |c|) + [id];
    var toCenter', toFactor' := toCenter[id := v], toFactor[v := id];
    forall u | 0 <= u < v + 1 && belongs[u] == Center ensures u in toFactor' && toFactor'[u] == FactorOfVar(numLeaves, belongs, u) {
      if u == v {
        assert FactorOfVar(numLeaves, belongs, v) == id;
      }
    }
    forall f | numLeaves <= f < numLeaves + |c'| ensures f in toCenter' && toCenter'[f] == c'[f - numLeaves] {
      if f < numLeaves + |c| {
        assert c'[f - numLeaves] == c[f - numLeaves];
      }
    }
  }

  /** A leaf variable takes no factor number of its own. */
  lemma {:induction false} NumberedLeaf(numLeaves: nat, belongs: seq<BelongsTo>, v: int, factorOrder: seq<int>, toCenter: map<int, int>, toFactor: map<int, int>)
    requires 0 <= v < |belongs| && belongs[v] != Center && NumberedBelow(numLeaves, belongs, v, factorOrder, toCenter, toFactor)
    ensures NumberedBelow(numLeaves, belongs, v + 1, factorOrder, toCenter, toFactor)
  {
    CentersOfStep(belongs, v);
  }

  /** The factor numbering of the source: factor_order lists 0, 1, ... for the
      leaves and then one number per center variable in variable order;
      toCenter (factor_to_center_variable) and toFactor
      (center_variable_to_factor) relate the center numbers and variables. */
  method NumberFactors(numLeaves: nat, belongs: seq<BelongsTo>) returns (factorOrder: seq<int>, toCenter: map<int, int>, toFactor: map<int, int>)
    ensures factorOrder == Ascending(NumFactors(numLeaves, belongs))
    ensures CentersNumbered(numLeaves, CentersOf(belongs), toCenter)
    ensures forall v :: 0 <= v < |belongs| && belongs[v] == Center ==> v in toFactor && toFactor[v] == FactorOfVar(numLeaves, belongs, v)
  {
    factorOrder := [];
    for factor := 0 to numLeaves
      invariant factorOrder == Ascending(factor)
    {
      factorOrder := factorOrder + [factor];
    }
    toCenter, toFactor := map[], map[];
    assert belongs[..0] == [];
    for v := 0 to |belongs|
      invariant NumberedBelow(numLeaves, belongs, v, factorOrder, toCenter, toFactor)
    {
      factorOrder, toCenter, toFactor := NumberCenter(numLeaves, belongs, v, factorOrder, toCenter, toFactor);
    }
    assert belongs[..|belongs|] == belongs;
  }

  /** The pairs of factors linked for variable v: for each of its first j
      causal-graph successors v2, the factors of v and v2 when they differ. */
  function FactorSuccPairs(numLeaves: nat, belongs: seq<BelongsTo>, succ: seq<seq<int>>, v: int, j: int): seq<(int, int)>
    requires |succ| == |belongs| && SuccessorsIn(succ, |succ|) && 0 <= v < |succ| && 0 <= j <= |succ[v]|
    decreases j
  {
    if j == 0 then []
    else
      var f1, f2 := FactorOfVar(numLeaves, belongs, v), FactorOfVar(numLeaves, belongs, succ[v][j - 1]);
      FactorSuccPairs(numLeaves, belongs, succ, v, j - 1) + (if f1 != f2 then [(f1, f2)] else [])
  }

  /** The pairs of factors linked for the variables below v. */
  function FactorPairs(numLeaves: nat, belongs: seq<BelongsTo>, succ: seq<seq<int>>, v: int): seq<(int, int)>
    requires |succ| == |belongs| && SuccessorsIn(succ, |succ|) && 0 <= v <= |succ|
    decreases v
  {
    if v == 0 then []
    else FactorPairs(numLeaves, belongs, succ, v - 1) + FactorSuccPairs(numLeaves, belongs, succ, v - 1, |succ[v - 1]|)
  }

  /** Some variable of factor x below v has a causal-graph successor in factor y. */
  predicate FactorLinkedBelow(numLeaves: nat, belongs: seq<BelongsTo>, succ: seq<seq<int>>, v: int, x: int, y: int)
    requires |succ| == |belongs| && SuccessorsIn(succ, |succ|) && 0 <= v <= |succ|
  {
    exists u, i :: 0 <= u < v && 0 <= i < |succ[u]| && FactorOfVar(numLeaves, belongs, u) == x
                   && FactorOfVar(numLeaves, belongs, succ[u][i]) == y
  }

  lemma {:induction false} FactorSuccPairsMembers(numLeaves: nat, belongs: seq<BelongsTo>, succ: seq<seq<int>>, v: int, j: int, x: int, y: int)
    requires |succ| == |belongs| && SuccessorsIn(succ, |succ|) && 0 <= v < |succ| && 0 <= j <= |succ[v]|
    ensures (x, y) in FactorSuccPairs(numLeaves, belongs, succ, v, j) <==>
      x != y && x == FactorOfVar(numLeaves, belongs, v) && exists i :: 0 <= i < j && FactorOfVar(numLeaves, belongs, succ[v][i]) == y
    decreases j
  {
    if j > 0 {
      FactorSuccPairsMembers(numLeaves, belongs, succ, v, j - 1, x, y);
      if x != y && x == FactorOfVar(numLeaves, belongs, v) && FactorOfVar(numLeaves, belongs, succ[v][j - 1]) == y {
        assert (x, y) in FactorSuccPairs(numLeaves, belongs, succ, v, j);
      }
    }
  }

  /** The pair (x, y) is linked exactly when the factors differ and a variable
      of x below v has a causal-graph successor in y. */
  lemma {:induction false} FactorPairsMembers(numLeaves: nat, belongs: seq<BelongsTo>, succ: seq<seq<int>>, v: int, x: int, y: int)
    requires |succ| == |belongs| && SuccessorsIn(succ, |succ|) && 0 <= v <= |succ|
    ensures (x, y) in FactorPairs(numLeaves, belongs, succ, v) <==> x != y && FactorLinkedBelow(numLeaves, belongs, succ, v, x, y)
    decreases v
  {
    if v > 0 {
      var u := v - 1;
      FactorPairsMembers(numLeaves, belongs, succ, u, x, y);
      FactorSuccPairsMembers(numLeaves, belongs, succ, u, |succ[u]|, x, y);
      if x != y && FactorLinkedBelow(numLeaves, belongs, succ, v, x, y) && !FactorLinkedBelow(numLeaves, belongs, succ, u, x, y) {
        var w, i :| 0 <= w < v && 0 <= i < |succ[w]| && FactorOfVar(numLeaves, belongs, w) == x
                    && FactorOfVar(numLeaves, belongs, succ[w][i]) == y;
        assert w == u;
      }
    }
  }

  lemma {:induction false} FactorPairsIn(numLeaves: nat, belongs: seq<BelongsTo>, succ: seq<seq<int>>, v: int)
    requires |succ| == |belongs| && SuccessorsIn(succ, |succ|) && LeavesIn(belongs, numLeaves) && 0 <= v <= |succ|
    ensures PairsIn(FactorPairs(numLeaves, belongs, succ, v), NumFactors(numLeaves, belongs))
    decreases v
  {
    var es := FactorPairs(numLeaves, belongs, succ, v);
    forall i | 0 <= i < |es| ensures 0 <= es[i].0 < NumFactors(numLeaves, belongs) && 0 <= es[i].1 < NumFactors(numLeaves, belongs) {
      FactorPairsMembers(numLeaves, belongs, succ, v, es[i].0, es[i].1);
      var u, j :| 0 <= u < v && 0 <= j < |succ[u]| && FactorOfVar(numLeaves, belongs, u) == es[i].0
                  && FactorOfVar(numLeaves, belongs, succ[u][j]) == es[i].1;
      FactorOfVarIn(numLeaves, belongs, u);
      FactorOfVarIn(numLeaves, belongs, succ[u][j]);
    }
  }

  /** The influence matrix over the factors. */
  function FactorGraph(numLeaves: nat, belongs: seq<BelongsTo>, succ: seq<seq<int>>): (m: seq<seq<int>>)
    requires |succ| == |belongs| && SuccessorsIn(succ, |succ|)
    ensures |m| == NumFactors(numLeaves, belongs) && IsSquareMatrix(m)
  {
    Link(Zeros(NumFactors(numLeaves, belongs)), FactorPairs(numLeaves, belongs, succ, |succ|))
  }

  /** Two factors influence each other exactly when they differ and a variable
      of one has a causal-graph successor in the other. */
  lemma {:induction false} FactorGraphEntries(numLeaves: nat, belongs: seq<BelongsTo>, succ: seq<seq<int>>, x: int, y: int)
    requires |succ| == |belongs| && SuccessorsIn(succ, |succ|) && LeavesIn(belongs, numLeaves)
    requires 0 <= x < NumFactors(numLeaves, belongs) && 0 <= y < NumFactors(numLeaves, belongs)
    ensures FactorGraph(numLeaves, belongs, succ)[x][y] ==
      if x != y && (FactorLinkedBelow(numLeaves, belongs, succ, |succ|, x, y) || FactorLinkedBelow(numLeaves, belongs, succ, |succ|, y, x)) then 1 else 0
  {
    FactorPairsIn(numLeaves, belongs, succ, |succ|);
    LinkEntries(NumFactors(numLeaves, belongs), FactorPairs(numLeaves, belongs, succ, |succ|), x, y);
    FactorPairsMembers(numLeaves, belongs, succ, |succ|, x, y);
    FactorPairsMembers(numLeaves, belongs, succ, |succ|, y, x);
  }

  /** center_variable_to_factor holds the factor number of every center variable. */
  predicate FactorsNumbered(numLeaves: nat, belongs: seq<BelongsTo>, toFactor: map<int, int>) {
    forall v :: 0 <= v < |belongs| && belongs[v] == Center ==> v in toFactor && toFactor[v] == FactorOfVar(numLeaves, belongs, v)
  }

  /** The factor of variable v as the source looks it up: through
      center_variable_to_factor for a center variable, its leaf otherwise. */
  method LookupFactor(numLeaves: nat, belongs: seq<BelongsTo>, toFactor: map<int, int>, v: int) returns (f: int)
    requires 0 <= v < |belongs| && FactorsNumbered(numLeaves, belongs, toFactor)
    ensures f == FactorOfVar(numLeaves, belongs, v)
  {
    f := if belongs[v] == Center then toFactor[v] else belongs[v].leaf;
  }

  /** One more successor of v adds the pair of factors (f1, f2) unless they are equal. */
  lemma {:induction false} FactorSuccPairsStep(numLeaves: nat, belongs: seq<BelongsTo>, succ: seq<seq<int>>, v: int, j: int, pre: seq<(int, int)>, es: seq<(int, int)>, f1: int, f2: int)
    requires |succ| == |belongs| && SuccessorsIn(succ, |succ|) && 0 <= v < |succ| && 0 <= j < |succ[v]|
    requires f1 == FactorOfVar(numLeaves, belongs, v) && f2 == FactorOfVar(numLeaves, belongs, succ[v][j])
    requires es == pre + FactorSuccPairs(numLeaves, belongs, succ, v, j)
    ensures pre + FactorSuccPairs(numLeaves, belongs, succ, v, j + 1) == if f1 != f2 then es + [(f1, f2)] else es
  {
  }

  /** The graph over the factors is being built in ig from m0, with the pairs pre linked. */
  predicate Building(ig: InfluenceGraph, numLeaves: nat, belongs: seq<BelongsTo>, succ: seq<seq<int>>, m0: seq<seq<int>>, es: seq<(int, int)>)
    reads ig`influenceGraph
  {
    && ig.Valid() && ig.n == NumFactors(numLeaves, belongs)
    && |succ| == |belongs| && SuccessorsIn(succ, |succ|) && LeavesIn(belongs, numLeaves)
    && |m0| == ig.n && IsSquareMatrix(m0) && ig.influenceGraph == Link(m0, es)
  }

  /** One pass of the inner loop: link the factor f1 of v with the factor of its j-th successor when they differ. */
  method LinkFactorSuccessor(ig: InfluenceGraph, numLeaves: nat, belongs: seq<BelongsTo>, succ: seq<seq<int>>, toFactor: map<int, int>,
                             v: int, f1: int, j: int, ghost m0: seq<seq<int>>, ghost pre: seq<(int, int)>)
    modifies ig`influenceGraph
    requires |succ| == |belongs| && SuccessorsIn(succ, |succ|)
    requires FactorsNumbered(numLeaves, belongs, toFactor) && 0 <= v < |succ| && f1 == FactorOfVar(numLeaves, belongs, v)
    requires 0 <= j < |succ[v]| && Building(ig, numLeaves, belongs, succ, m0, pre + FactorSuccPairs(numLeaves, belongs, succ, v, j))
    ensures Building(ig, numLeaves, belongs, succ, m0, pre + FactorSuccPairs(numLeaves, belongs, succ, v, j + 1))
  {
    var f2 := LookupFactor(numLeaves, belongs, toFactor, succ[v][j]);
    ghost var es := pre + FactorSuccPairs(numLeaves, belongs, succ, v, j);
    FactorSuccPairsStep(numLeaves, belongs, succ, v, j, pre, es, f1, f2);
    if f1 != f2 {
      FactorOfVarIn(numLeaves, belongs, v);
      FactorOfVarIn(numLeaves, belongs, succ[v][j]);
      LinkPair(ig, f1, f2, m0, es);
    }
  }

  /** The inner loop for variable v: factor1 is looked up once, then every successor is visited. */
  method LinkFactorSuccessors(ig: InfluenceGraph, numLeaves: nat, belongs: seq<BelongsTo>, succ: seq<seq<int>>, toFactor: map<int, int>,
                              v: int, ghost m0: seq<seq<int>>, ghost pre: seq<(int, int)>)
    modifies ig`influenceGraph
    requires |succ| == |belongs| && SuccessorsIn(succ, |succ|)
    requires FactorsNumbered(numLeaves, belongs, toFactor) && 0 <= v < |succ|
    requires Building(ig, numLeaves, belongs, succ, m0, pre)
    ensures Building(ig, numLeaves, belongs, succ, m0, pre + FactorSuccPairs(numLeaves, belongs, succ, v, |succ[v]|))
  {
    assert pre + FactorSuccPairs(numLeaves, belongs, succ, v, 0) == pre;
    var f1 := LookupFactor(numLeaves, belongs, toFactor, v);
    for j := 0 to |succ[v]|
      invariant Building(ig, numLeaves, belongs, succ, m0, pre + FactorSuccPairs(numLeaves, belongs, succ, v, j))
    {
      LinkFactorSuccessor(ig, numLeaves, belongs, succ, toFactor, v, f1, j, m0, pre);
    }
  }

  /** The graph construction over the factors: for every variable and each of
      its causal-graph successors, the two factors are linked when they differ. */
  method LinkFactorGraph(ig: InfluenceGraph, numLeaves: nat, belongs: seq<BelongsTo>, succ: seq<seq<int>>, toFactor: map<int, int>)
    modifies ig`influenceGraph
    requires FactorsNumbered(numLeaves, belongs, toFactor)
    requires Building(ig, numLeaves, belongs, succ, Zeros(ig.n), [])
    ensures ig.Valid() && ig.influenceGraph == FactorGraph(numLeaves, belongs, succ)
  {
    for v := 0 to |succ|
      invariant Building(ig, numLeaves, belongs, succ, Zeros(ig.n), FactorPairs(numLeaves, belongs, succ, v))
    {
      LinkFactorSuccessors(ig, numLeaves, belongs, succ, toFactor, v, Zeros(ig.n), FactorPairs(numLeaves, belongs, succ, v));
    }
  }

  // The expansion of the factor order into the variable order

  /** The variables that stand for factor f: the leaf's variables in
      g_leaves order, or the one center variable numbered f. No factor
      lies outside 0 .. |leaves| + |centers| - 1; such a number expands to nothing. */
  function Block(leaves: seq<seq<int>>, centers: seq<int>, f: int): seq<int> {
    if 0 <= f < |leaves| then leaves[f]
    else if |leaves| <= f < |leaves| + |centers| then [centers[f - |leaves|]]
    else []
  }

  /** The variable order the expansion loop builds from the factor order fo. */
  function Expand(leaves: seq<seq<int>>, centers: seq<int>, fo: seq<int>): seq<int>
    decreases |fo|
  {
    if fo == [] then []
    else
      var k := |fo| - 1;
      Expand(leaves, centers, fo[..k]) + Block(leaves, centers, fo[k])
  }

  lemma {:induction false} ExpandAppend(leaves: seq<seq<int>>, centers: seq<int>, a: seq<int>, b: seq<int>)
    ensures Expand(leaves, centers, a + b) == Expand(leaves, centers, a) + Expand(leaves, centers, b)
    decreases |b|
  {
    if b != [] {
      var k := |b| - 1;
      ExpandAppend(leaves, centers, a, b[..k]);
      assert (a + b)[..|a + b| - 1] == a + b[..k];
      assert (a + b)[|a + b| - 1] == b[k];
    } else {
      assert a + b == a;
    }
  }

  /** Each factor's variables appear as one contiguous block, in its own order,
      between the blocks of the factors before and after it. */
  lemma {:induction false} ExpandContiguous(leaves: seq<seq<int>>, centers: seq<int>, fo: seq<int>, i: int)
    requires 0 <= i < |fo|
    ensures Expand(leaves, centers, fo)
         == Expand(leaves, centers, fo[..i]) + Block(leaves, centers, fo[i]) + Expand(leaves, centers, fo[i + 1..])
  {
    var head := fo[..i + 1];
    assert head[..i] == fo[..i];
    assert Expand(leaves, centers, head) == Expand(leaves, centers, fo[..i]) + Block(leaves, centers, fo[i]);
    assert fo == head + fo[i + 1..];
    ExpandAppend(leaves, centers, head, fo[i + 1..]);
  }

  lemma {:induction false} RemoveAt(q: seq<int>, i: int)
    requires 0 <= i < |q|
    ensures multiset(q[..i] + q[i + 1..]) == multiset(q) - multiset{q[i]}
  {
    assert q == q[..i] + [q[i]] + q[i + 1..];
  }

  /** The element at k of p occurs in q when they are permutations of each other. */
  lemma {:induction false} FindIn(p: seq<int>, q: seq<int>, k: int) returns (i: int)
    requires multiset(p) == multiset(q) && 0 <= k < |p|
    ensures 0 <= i < |q| && q[i] == p[k]
  {
    assert p[k] in multiset(p);
    assert p[k] in q;
    i :| 0 <= i < |q| && q[i] == p[k];
  }

  /** Removing the same element from two permutations of each other leaves two permutations of each other. */
  lemma {:induction false} RemovePaired(p: seq<int>, q: seq<int>, k: int, i: int)
    requires multiset(p) == multiset(q) && 0 <= k < |p| && 0 <= i < |q| && q[i] == p[k]
    ensures multiset(p[..k] + p[k + 1..]) == multiset(q[..i] + q[i + 1..])
  {
    RemoveAt(p, k);
    RemoveAt(q, i);
  }

  /** Taking one factor out of the order takes its block out of the expansion. */
  lemma {:induction false} ExpandRemove(leaves: seq<seq<int>>, centers: seq<int>, q: seq<int>, i: int)
    requires 0 <= i < |q|
    ensures multiset(Expand(leaves, centers, q))
         == multiset(Expand(leaves, centers, q[..i] + q[i + 1..])) + multiset(Block(leaves, centers, q[i]))
  {
    ExpandContiguous(leaves, centers, q, i);
    ExpandAppend(leaves, centers, q[..i], q[i + 1..]);
  }

  /** The multiset of variables depends only on the multiset of factors. */
  lemma {:induction false} ExpandPermutation(leaves: seq<seq<int>>, centers: seq<int>, p: seq<int>, q: seq<int>)
    requires multiset(p) == multiset(q)
    ensures multiset(Expand(leaves, centers, p)) == multiset(Expand(leaves, centers, q))
    decreases |p|
  {
    if p != [] {
      var k := |p| - 1;
      var i := FindIn(p, q, k);
      RemovePaired(p, q, k, i);
      ExpandPermutation(leaves, centers, p[..k], q[..i] + q[i + 1..]);
      ExpandRemove(leaves, centers, q, i);
      ExpandRemove(leaves, centers, p, k);
      assert p[..k] + p[k + 1..] == p[..k];
    }
  }

  /** All the leaves, one after the other. */
  function Concat(ss: seq<seq<int>>): seq<int>
    decreases |ss|
  {
    if ss == [] then [] else Concat(ss[..|ss| - 1]) + ss[|ss| - 1]
  }

  lemma {:induction false} ExpandAscendingStep(leaves: seq<seq<int>>, centers: seq<int>, k: nat)
    requires 0 < k <= |leaves| + |centers|
    ensures Expand(leaves, centers, Ascending(k)) == Expand(leaves, centers, Ascending(k - 1)) + Block(leaves, centers, k - 1)
  {
    assert Ascending(k)[..k - 1] == Ascending(k - 1);
  }

  /** The first k factors of the numbering order expand to the first k leaves. */
  lemma {:induction false} ExpandLeaves(leaves: seq<seq<int>>, centers: seq<int>, k: nat)
    requires k <= |leaves|
    ensures Expand(leaves, centers, Ascending(k)) == Concat(leaves[..k])
    decreases k
  {
    if k > 0 {
      ExpandLeaves(leaves, centers, k - 1);
      ExpandAscendingStep(leaves, centers, k);
      assert leaves[..k][..k - 1] == leaves[..k - 1];
    } else {
      assert Ascending(0) == [];
    }
  }

  lemma {:induction false} SnocAssoc(a: seq<int>, b: seq<int>, x: int)
    ensures (a + b) + [x] == a + (b + [x])
  {
  }

  lemma {:induction false} ExpandCenter(leaves: seq<seq<int>>, centers: seq<int>, j: nat)
    requires 0 < j <= |centers|
    requires Expand(leaves, centers, Ascending(|leaves| + j - 1)) == Concat(leaves) + centers[..j - 1]
    ensures Expand(leaves, centers, Ascending(|leaves| + j)) == Concat(leaves) + centers[..j]
  {
    ExpandAscendingStep(leaves, centers, |leaves| + j);
    assert Block(leaves, centers, |leaves| + j - 1) == [centers[j - 1]];
    assert centers[..j] == centers[..j - 1] + [centers[j - 1]];
    SnocAssoc(Concat(leaves), centers[..j - 1], centers[j - 1]);
  }

  /** The numbering order of the factors expands to the leaves in order, then the center variables in order. */
  lemma {:induction false} ExpandAscending(leaves: seq<seq<int>>, centers: seq<int>, j: nat)
    requires j <= |centers|
    ensures Expand(leaves, centers, Ascending(|leaves| + j)) == Concat(leaves) + centers[..j]
    decreases j
  {
    if j > 0 {
      ExpandAscending(leaves, centers, j - 1);
      ExpandCenter(leaves, centers, j);
    } else {
      ExpandLeaves(leaves, centers, |leaves|);
      assert leaves[..|leaves|] == leaves;
    }
  }

  lemma {:induction false} ExpandAll(leaves: seq<seq<int>>, centers: seq<int>)
    ensures Expand(leaves, centers, Ascending(|leaves| + |centers|)) == Concat(leaves) + centers
  {
    ExpandAscending(leaves, centers, |centers|);
    assert centers[..|centers|] == centers;
  }

  /** The expansion loop: each leaf factor contributes its variables in g_leaves
      order, each center factor its one variable (factor_to_center_variable). */
  method ExpandFactorOrder(factorOrder: seq<int>, leaves: seq<seq<int>>, toCenter: map<int, int>, ghost centers: seq<int>) returns (varOrder: seq<int>)
    requires InRange(factorOrder, |leaves| + |centers|)
    requires CentersNumbered(|leaves|, centers, toCenter)
    ensures varOrder == Expand(leaves, centers, factorOrder)
  {
    varOrder := [];
    for i := 0 to |factorOrder|
      invariant varOrder == Expand(leaves, centers, factorOrder[..i])
    {
      assert factorOrder[..i + 1][..i] == factorOrder[..i];
      varOrder := AppendBlock(varOrder, leaves, toCenter, centers, factorOrder[i]);
    }
    assert factorOrder[..|factorOrder|] == factorOrder;
  }

  /** One pass of the expansion loop: the variables of one factor go to the end. */
  method AppendBlock(varOrder: seq<int>, leaves: seq<seq<int>>, toCenter: map<int, int>, ghost centers: seq<int>, factor: int) returns (varOrder': seq<int>)
    requires 0 <= factor < |leaves| + |centers| && CentersNumbered(|leaves|, centers, toCenter)
    ensures varOrder' == varOrder + Block(leaves, centers, factor)
  {
    if factor < |leaves| {
      varOrder' := varOrder;
      for k := 0 to |leaves[factor]|
        invariant varOrder' == varOrder + leaves[factor][..k]
      {
        varOrder' := varOrder' + [leaves[factor][k]];
        assert leaves[factor][..k + 1] == leaves[factor][..k] + [leaves[factor][k]];
      }
      assert leaves[factor][..|leaves[factor]|] == leaves[factor];
    } else {
      varOrder' := varOrder + [toCenter[factor]];
    }
  }

  // The whole construction

  /** There is at least one factor once there is a variable. */
  lemma {:induction false} SomeFactor(numLeaves: nat, belongs: seq<BelongsTo>)
    requires |belongs| > 0 && LeavesIn(belongs, numLeaves)
    ensures NumFactors(numLeaves, belongs) > 0
  {
    FactorOfVarIn(numLeaves, belongs, 0);
  }

  /** The factor order get_ordering leaves: the factors optimised on the factor
      graph, starting from their numbering order. */
  function RespectingFactorOrder(numLeaves: nat, belongs: seq<BelongsTo>, succ: seq<seq<int>>, rng: nat -> nat): seq<int>
    requires |succ| == |belongs| > 0 && SuccessorsIn(succ, |succ|) && LeavesIn(belongs, numLeaves)
  {
    SomeFactor(numLeaves, belongs);
    GetOrderingResult(CostOf(FactorGraph(numLeaves, belongs, succ)), Ascending(NumFactors(numLeaves, belongs)), rng, 0, ClimbIterations, RestartCount)
  }

  /** The optimised factor order holds every factor exactly once, and it is at
      least as good as the numbering order on the factor graph. */
  lemma {:induction false} RespectingFactorOrderPermutes(numLeaves: nat, belongs: seq<BelongsTo>, succ: seq<seq<int>>, rng: nat -> nat)
    requires |succ| == |belongs| > 0 && SuccessorsIn(succ, |succ|) && LeavesIn(belongs, numLeaves)
    ensures var fo, all := RespectingFactorOrder(numLeaves, belongs, succ, rng), Ascending(NumFactors(numLeaves, belongs));
            multiset(fo) == multiset(all) && InRange(fo, NumFactors(numLeaves, belongs))
            && Cost(FactorGraph(numLeaves, belongs, succ), fo) <= Cost(FactorGraph(numLeaves, belongs, succ), all)
  {
    var all := Ascending(NumFactors(numLeaves, belongs));
    SomeFactor(numLeaves, belongs);
    DistinctByIndex(all);
    OrderingResult(FactorGraph(numLeaves, belongs, succ), all, rng);
    InRangeByMultiset(all, RespectingFactorOrder(numLeaves, belongs, succ, rng), NumFactors(numLeaves, belongs));
  }

  /** What compute_gamer_ordering_respecting_factors returns with a factoring:
      the optimised factor order, expanded into variables. */
  function RespectingResult(leaves: seq<seq<int>>, belongs: seq<BelongsTo>, succ: seq<seq<int>>, rng: nat -> nat): seq<int>
    requires |succ| == |belongs| > 0 && SuccessorsIn(succ, |succ|) && LeavesIn(belongs, |leaves|)
  {
    RespectingFactorOrderPermutes(|leaves|, belongs, succ, rng);
    Expand(leaves, CentersOf(belongs), RespectingFactorOrder(|leaves|, belongs, succ, rng))
  }

  /** The variable order holds the variables of every leaf and every center
      variable, as often as they occur there. */
  lemma {:induction false} RespectingPermutes(leaves: seq<seq<int>>, belongs: seq<BelongsTo>, succ: seq<seq<int>>, rng: nat -> nat)
    requires |succ| == |belongs| > 0 && SuccessorsIn(succ, |succ|) && LeavesIn(belongs, |leaves|)
    ensures multiset(RespectingResult(leaves, belongs, succ, rng)) == multiset(Concat(leaves) + CentersOf(belongs))
  {
    RespectingFactorOrderPermutes(|leaves|, belongs, succ, rng);
    ExpandedPermutes(leaves, belongs, RespectingFactorOrder(|leaves|, belongs, succ, rng));
  }

  /** Any order of all the factors expands to the variables of the leaves and the centers. */
  lemma {:induction false} ExpandedPermutes(leaves: seq<seq<int>>, belongs: seq<BelongsTo>, fo: seq<int>)
    requires multiset(fo) == multiset(Ascending(NumFactors(|leaves|, belongs)))
    ensures multiset(Expand(leaves, CentersOf(belongs), fo)) == multiset(Concat(leaves) + CentersOf(belongs))
  {
    ExpandedPermutesOf(leaves, CentersOf(belongs), fo);
  }

  lemma {:induction false} ExpandedPermutesOf(leaves: seq<seq<int>>, centers: seq<int>, fo: seq<int>)
    requires multiset(fo) == multiset(Ascending(|leaves| + |centers|))
    ensures multiset(Expand(leaves, centers, fo)) == multiset(Concat(leaves) + centers)
  {
    ExpandAll(leaves, centers);
    ExpandPermutation(leaves, centers, Ascending(|leaves| + |centers|), fo);
  }

  /** A center variable that no leaf lists appears exactly once. */
  lemma {:induction false} RespectingCenterOnce(leaves: seq<seq<int>>, belongs: seq<BelongsTo>, succ: seq<seq<int>>, rng: nat -> nat, v: int)
    requires |succ| == |belongs| > 0 && SuccessorsIn(succ, |succ|) && LeavesIn(belongs, |leaves|)
    requires 0 <= v < |belongs| && belongs[v] == Center && v !in Concat(leaves)
    ensures multiset(RespectingResult(leaves, belongs, succ, rng))[v] == 1
  {
    RespectingPermutes(leaves, belongs, succ, rng);
    var c := CentersOf(belongs);
    CentersOfMembers(belongs, v);
    DistinctByIndex(c);
    assert multiset(Concat(leaves) + c)[v] == multiset(Concat(leaves))[v] + multiset(c)[v];
  }

  /** compute_gamer_ordering_respecting_factors. Without a factoring and
      without leaves it falls back to compute_gamer_ordering; otherwise it
      numbers the factors, builds the influence graph over the factors,
      optimises the factor order and expands it into variables. */
  method ComputeGamerOrderingRespectingFactors(factoring: bool, leaves: seq<seq<int>>, belongs: seq<BelongsTo>, succ: seq<seq<int>>, rng: nat -> nat)
    returns (varOrder: seq<int>)
    requires |succ| == |belongs| > 0 && SuccessorsIn(succ, |succ|) && LeavesIn(belongs, |leaves|)
    ensures !factoring && leaves == [] ==> varOrder == GamerOrderingResult(succ, rng)
    ensures factoring || leaves != [] ==> varOrder == RespectingResult(leaves, belongs, succ, rng)
  {
    if !factoring && leaves == [] {
      varOrder := ComputeGamerOrdering(succ, rng);
      return;
    }
    var factorOrder, toCenter, toFactor := NumberFactors(|leaves|, belongs);
    factorOrder := OrderFactors(leaves, belongs, succ, toFactor, factorOrder, rng);
    RespectingFactorOrderPermutes(|leaves|, belongs, succ, rng);
    varOrder := ExpandFactorOrder(factorOrder, leaves, toCenter, CentersOf(belongs));
  }

  /** The first half of the factored case: number the factors, build the
      influence graph over them and optimise their order. */
  method OrderFactors(leaves: seq<seq<int>>, belongs: seq<BelongsTo>, succ: seq<seq<int>>, toFactor: map<int, int>, numbered: seq<int>, rng: nat -> nat)
    returns (factorOrder: seq<int>)
    requires |succ| == |belongs| > 0 && SuccessorsIn(succ, |succ|) && LeavesIn(belongs, |leaves|)
    requires FactorsNumbered(|leaves|, belongs, toFactor) && numbered == Ascending(NumFactors(|leaves|, belongs))
    ensures factorOrder == RespectingFactorOrder(|leaves|, belongs, succ, rng)
  {
    var ig := new InfluenceGraph(|numbered|, rng);
    LinkFactorGraph(ig, |leaves|, belongs, succ, toFactor);
    SomeFactor(|leaves|, belongs);
    DistinctByIndex(numbered);
    ghost var m := ig.influenceGraph;
    factorOrder := OrderWith(ig, numbered);
    RespectingFactorOrderIs(|leaves|, belongs, succ, rng, m, numbered);
  }

  lemma {:induction false} RespectingFactorOrderIs(numLeaves: nat, belongs: seq<BelongsTo>, succ: seq<seq<int>>, rng: nat -> nat, m: seq<seq<int>>, o: seq<int>)
    requires |succ| == |belongs| > 0 && SuccessorsIn(succ, |succ|) && LeavesIn(belongs, numLeaves)
    requires m == FactorGraph(numLeaves, belongs, succ) && o == Ascending(NumFactors(numLeaves, belongs)) && |o| > 0
    ensures RespectingFactorOrder(numLeaves, belongs, succ, rng) == GetOrderingResult(CostOf(m), o, rng, 0, ClimbIterations, RestartCount)
  {
  }

  // ---------------------------------------------------------------------------
  // compute_factored_gamer_ordering

  /** The pairs linked for variable v of leaf factor f: (v, v2) for each of the
      first j causal-graph successors v2 of v that belong to f. */
  function LeafSuccPairs(succ: seq<seq<int>>, belongs: seq<BelongsTo>, f: nat, v: int, j: int): seq<(int, int)>
    requires |belongs| == |succ| && SuccessorsIn(succ, |succ|) && 0 <= v < |succ| && 0 <= j <= |succ[v]|
    decreases j
  {
    if j == 0 then []
    else LeafSuccPairs(succ, belongs, f, v, j - 1) + (if belongs[succ[v][j - 1]] == Leaf(f) then [(v, succ[v][j - 1])] else [])
  }

  /** The pairs linked for the first i variables of the leaf, in the order the loops visit them. */
  function LeafPairs(succ: seq<seq<int>>, belongs: seq<BelongsTo>, leaf: seq<int>, f: nat, i: int): seq<(int, int)>
    requires |belongs| == |succ| && SuccessorsIn(succ, |succ|) && InRange(leaf, |succ|) && 0 <= i <= |leaf|
    decreases i
  {
    if i == 0 then [] else LeafPairs(succ, belongs, leaf, f, i - 1) + LeafSuccPairs(succ, belongs, f, leaf[i - 1], |succ[leaf[i - 1]]|)
  }

  lemma {:induction false} LeafSuccPairsMembers(succ: seq<seq<int>>, belongs: seq<BelongsTo>, f: nat, v: int, j: int, a: int, b: int)
    requires |belongs| == |succ| && SuccessorsIn(succ, |succ|) && 0 <= v < |succ| && 0 <= j <= |succ[v]|
    ensures (a, b) in LeafSuccPairs(succ, belongs, f, v, j) <==> a == v && b in succ[v][..j] && belongs[b] == Leaf(f)
    decreases j
  {
    if j > 0 {
      LeafSuccPairsMembers(succ, belongs, f, v, j - 1, a, b);
      assert succ[v][..j] == succ[v][..j - 1] + [succ[v][j - 1]];
    }
  }

  /** The pair (a, b) is linked for leaf f exactly when a is one of the first i
      variables of the leaf and b is a causal-graph successor of a in f. */
  lemma {:induction false} LeafPairsMembers(succ: seq<seq<int>>, belongs: seq<BelongsTo>, leaf: seq<int>, f: nat, i: int, a: int, b: int)
    requires |belongs| == |succ| && SuccessorsIn(succ, |succ|) && InRange(leaf, |succ|) && 0 <= i <= |leaf|
    ensures (a, b) in LeafPairs(succ, belongs, leaf, f, i) <==> a in leaf[..i] && b in succ[a] && belongs[b] == Leaf(f)
    decreases i
  {
    if i > 0 {
      var v := leaf[i - 1];
      LeafPairsMembers(succ, belongs, leaf, f, i - 1, a, b);
      LeafSuccPairsMembers(succ, belongs, f, v, |succ[v]|, a, b);
      assert succ[v][..|succ[v]|] == succ[v];
      assert leaf[..i] == leaf[..i - 1] + [v];
    }
  }

  lemma {:induction false} LeafPairsIn(succ: seq<seq<int>>, belongs: seq<BelongsTo>, leaf: seq<int>, f: nat)
    requires |belongs| == |succ| && SuccessorsIn(succ, |succ|) && InRange(leaf, |succ|)
    ensures PairsIn(LeafPairs(succ, belongs, leaf, f, |leaf|), |succ|)
  {
    var es := LeafPairs(succ, belongs, leaf, f, |leaf|);
    forall i | 0 <= i < |es| ensures 0 <= es[i].0 < |succ| && 0 <= es[i].1 < |succ| {
      LeafPairsMembers(succ, belongs, leaf, f, |leaf|, es[i].0, es[i].1);
      assert leaf[..|leaf|] == leaf;
    }
  }

  /** The influence matrix compute_factored_gamer_ordering builds for leaf factor f, over all the variables. */
  function LeafGraph(succ: seq<seq<int>>, belongs: seq<BelongsTo>, leaf: seq<int>, f: nat): (m: seq<seq<int>>)
    requires |belongs| == |succ| && SuccessorsIn(succ, |succ|) && InRange(leaf, |succ|)
    ensures |m| == |succ| && IsSquareMatrix(m)
  {
    Link(Zeros(|succ|), LeafPairs(succ, belongs, leaf, f, |leaf|))
  }

  /** Two variables influence each other in the graph of leaf f exactly when
      one is a variable of the leaf and the other a causal-graph successor of
      it that belongs to f (a variable may be linked with itself). */
  lemma {:induction false} LeafGraphEntries(succ: seq<seq<int>>, belongs: seq<BelongsTo>, leaf: seq<int>, f: nat, a: int, b: int)
    requires |belongs| == |succ| && SuccessorsIn(succ, |succ|) && InRange(leaf, |succ|) && 0 <= a < |succ| && 0 <= b < |succ|
    ensures LeafGraph(succ, belongs, leaf, f)[a][b]
         == if (a in leaf && b in succ[a] && belongs[b] == Leaf(f)) || (b in leaf && a in succ[b] && belongs[a] == Leaf(f)) then 1 else 0
  {
    LeafPairsIn(succ, belongs, leaf, f);
    LinkEntries(|succ|, LeafPairs(succ, belongs, leaf, f, |leaf|), a, b);
    LeafPairsMembers(succ, belongs, leaf, f, |leaf|, a, b);
    LeafPairsMembers(succ, belongs, leaf, f, |leaf|, b, a);
    assert leaf[..|leaf|] == leaf;
  }

  /** One pass of the innermost loop: link v with its j-th successor when that belongs to leaf f. */
  method LinkLeafSuccessor(ig: InfluenceGraph, succ: seq<seq<int>>, belongs: seq<BelongsTo>, f: nat, v: int, j: int,
                           ghost m0: seq<seq<int>>, ghost pre: seq<(int, int)>)
    modifies ig`influenceGraph
    requires ig.Valid() && |succ| == ig.n && |belongs| == |succ| && SuccessorsIn(succ, |succ|) && 0 <= v < |succ| && 0 <= j < |succ[v]|
    requires |m0| == ig.n && IsSquareMatrix(m0) && ig.influenceGraph == Link(m0, pre + LeafSuccPairs(succ, belongs, f, v, j))
    ensures ig.Valid() && ig.influenceGraph == Link(m0, pre + LeafSuccPairs(succ, belongs, f, v, j + 1))
  {
    var v2 := succ[v][j];
    ghost var es := pre + LeafSuccPairs(succ, belongs, f, v, j);
    assert pre + LeafSuccPairs(succ, belongs, f, v, j + 1) == if belongs[v2] == Leaf(f) then es + [(v, v2)] else es;
    if belongs[v2] == Leaf(f) {
      LinkPair(ig, v, v2, m0, es);
    }
  }

  /** The loop over the successors of variable v of leaf f. */
  method LinkLeafSuccessors(ig: InfluenceGraph, succ: seq<seq<int>>, belongs: seq<BelongsTo>, f: nat, v: int,
                            ghost m0: seq<seq<int>>, ghost pre: seq<(int, int)>)
    modifies ig`influenceGraph
    requires ig.Valid() && |succ| == ig.n && |belongs| == |succ| && SuccessorsIn(succ, |succ|) && 0 <= v < |succ|
    requires |m0| == ig.n && IsSquareMatrix(m0) && ig.influenceGraph == Link(m0, pre)
    ensures ig.Valid() && ig.influenceGraph == Link(m0, pre + LeafSuccPairs(succ, belongs, f, v, |succ[v]|))
  {
    assert pre + LeafSuccPairs(succ, belongs, f, v, 0) == pre;
    for j := 0 to |succ[v]|
      invariant ig.Valid()
      invariant ig.influenceGraph == Link(m0, pre + LeafSuccPairs(succ, belongs, f, v, j))
    {
      LinkLeafSuccessor(ig, succ, belongs, f, v, j, m0, pre);
    }
  }

  /** The graph construction for leaf f: each variable of the leaf is linked
      with each of its causal-graph successors that belongs to the same leaf. */
  method LinkLeafGraph(ig: InfluenceGraph, succ: seq<seq<int>>, belongs: seq<BelongsTo>, leaf: seq<int>, f: nat)
    modifies ig`influenceGraph
    requires ig.Valid() && |succ| == ig.n && |belongs| == |succ| && SuccessorsIn(succ, |succ|) && InRange(leaf, |succ|)
    requires ig.influenceGraph == Zeros(ig.n)
    ensures ig.Valid() && ig.influenceGraph == LeafGraph(succ, belongs, leaf, f)
  {
    for i := 0 to |leaf|
      invariant ig.Valid()
      invariant ig.influenceGraph == Link(Zeros(ig.n), LeafPairs(succ, belongs, leaf, f, i))
    {
      LinkLeafSuccessors(ig, succ, belongs, f, leaf[i], Zeros(ig.n), LeafPairs(succ, belongs, leaf, f, i));
    }
  }

  /** A leaf compute_factored_gamer_ordering can order: some variables, each once. */
  ghost predicate LeafIn(leaf: seq<int>, num: int) {
    |leaf| > 0 && InRange(leaf, num) && Distinct(leaf)
  }

  /** The order compute_factored_gamer_ordering gives leaf f: get_ordering on
      the graph of the leaf, starting from the leaf's own order. */
  function LeafOrder(succ: seq<seq<int>>, belongs: seq<BelongsTo>, leaf: seq<int>, f: nat, rng: nat -> nat): seq<int>
    requires |belongs| == |succ| && SuccessorsIn(succ, |succ|) && LeafIn(leaf, |succ|)
  {
    GetOrderingResult(CostOf(LeafGraph(succ, belongs, leaf, f)), leaf, rng, 0, ClimbIterations, RestartCount)
  }

  /** Each leaf is reordered among its own variables, and its order is at
      least as good as the one it had on the graph of the leaf. */
  lemma {:induction false} LeafOrderPermutes(succ: seq<seq<int>>, belongs: seq<BelongsTo>, leaf: seq<int>, f: nat, rng: nat -> nat)
    requires |belongs| == |succ| && SuccessorsIn(succ, |succ|) && LeafIn(leaf, |succ|)
    ensures multiset(LeafOrder(succ, belongs, leaf, f, rng)) == multiset(leaf)
    ensures Cost(LeafGraph(succ, belongs, leaf, f), LeafOrder(succ, belongs, leaf, f, rng)) <= Cost(LeafGraph(succ, belongs, leaf, f), leaf)
  {
    OrderingResult(LeafGraph(succ, belongs, leaf, f), leaf, rng);
  }

  /** One pass of the loop over the leaves: a fresh influence graph over all the variables, linked and optimised. */
  method OrderLeaf(succ: seq<seq<int>>, belongs: seq<BelongsTo>, leaf: seq<int>, f: nat, rng: nat -> nat) returns (order: seq<int>)
    requires |belongs| == |succ| && SuccessorsIn(succ, |succ|) && LeafIn(leaf, |succ|)
    ensures order == LeafOrder(succ, belongs, leaf, f, rng)
  {
    var ig := new InfluenceGraph(|succ|, rng);
    LinkLeafGraph(ig, succ, belongs, leaf, f);
    order := OrderWith(ig, leaf);
  }

  /** Every leaf of the factoring can be ordered. */
  ghost predicate LeavesOrderable(leaves: seq<seq<int>>, num: int) {
    forall f :: 0 <= f < |leaves| ==> LeafIn(leaves[f], num)
  }

  /** The leaves after the loop over the leaves has replaced the first k of them by their orders. */
  function Reorder(leaves: seq<seq<int>>, orders: seq<seq<int>>, k: nat): (r: seq<seq<int>>)
    requires k <= |leaves| == |orders|
    ensures |r| == |leaves|
    decreases k
  {
    if k == 0 then leaves else Reorder(leaves, orders, k - 1)[k - 1 := orders[k - 1]]
  }

  /** After k passes, the first k leaves are replaced and the others are as given. */
  lemma {:induction false} ReorderEntries(leaves: seq<seq<int>>, orders: seq<seq<int>>, k: nat, f: int)
    requires k <= |leaves| == |orders| && 0 <= f < |leaves|
    ensures Reorder(leaves, orders, k)[f] == if f < k then orders[f] else leaves[f]
    decreases k
  {
    if k > 0 {
      ReorderEntries(leaves, orders, k - 1, f);
    }
  }

  /** After the last pass every leaf is replaced by its order. */
  lemma {:induction false} ReorderAll(leaves: seq<seq<int>>, orders: seq<seq<int>>)
    requires |leaves| == |orders|
    ensures Reorder(leaves, orders, |leaves|) == orders
  {
    forall f | 0 <= f < |leaves| ensures Reorder(leaves, orders, |leaves|)[f] == orders[f] {
      ReorderEntries(leaves, orders, |leaves|, f);
    }
  }

  /** What compute_factored_gamer_ordering returns: the order of each leaf. */
  function Factored(succ: seq<seq<int>>, belongs: seq<BelongsTo>, leaves: seq<seq<int>>, rng: nat -> nat): (r: seq<seq<int>>)
    requires |belongs| == |succ| && SuccessorsIn(succ, |succ|) && LeavesOrderable(leaves, |succ|)
    ensures |r| == |leaves|
  {
    seq(|leaves|, f requires 0 <= f < |leaves| => LeafOrder(succ, belongs, leaves[f], f, rng))
  }

  /** The order of leaf f holds exactly the variables of f, and it is at least
      as good as the leaf's own order on the graph of f. */
  lemma {:induction false} FactoredLeaf(succ: seq<seq<int>>, belongs: seq<BelongsTo>, leaves: seq<seq<int>>, rng: nat -> nat, f: int)
    requires |belongs| == |succ| && SuccessorsIn(succ, |succ|) && LeavesOrderable(leaves, |succ|) && 0 <= f < |leaves|
    ensures multiset(Factored(succ, belongs, leaves, rng)[f]) == multiset(leaves[f])
    ensures Cost(LeafGraph(succ, belongs, leaves[f], f), Factored(succ, belongs, leaves, rng)[f]) <= Cost(LeafGraph(succ, belongs, leaves[f], f), leaves[f])
  {
    LeafOrderPermutes(succ, belongs, leaves[f], f, rng);
  }

  /** compute_factored_gamer_ordering: the leaves of the factoring, each
      reordered by get_ordering on the graph of its own variables. */
  method ComputeFactoredGamerOrdering(leaves: seq<seq<int>>, belongs: seq<BelongsTo>, succ: seq<seq<int>>, rng: nat -> nat)
    returns (res: seq<seq<int>>)
    requires |belongs| == |succ| && SuccessorsIn(succ, |succ|) && LeavesOrderable(leaves, |succ|)
    ensures res == Factored(succ, belongs, leaves, rng)
  {
    ghost var orders := Factored(succ, belongs, leaves, rng);
    res := leaves;
    for factor := 0 to |leaves|
      invariant res == Reorder(leaves, orders, factor)
    {
      ReorderEntries(leaves, orders, factor, factor);
      var order := OrderLeaf(succ, belongs, res[factor], factor, rng);
      res := res[factor := order];
    }
    ReorderAll(leaves, orders);
  }
}
