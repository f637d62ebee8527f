/** The Gamer pattern-database heuristic: the patterns of its searches
    (sets of finite-domain variables), how a pattern grows by causally
    relevant variables, and how the perimeter and pattern-database values
    combine into a heuristic value or a dead end. */
module GamerPdbs {
  import opened Wrappers
  import PricesAdd
  import opened LookupExplicit

  /** All finite-domain variables 0 .. n-1. */
  function AllVars(n: nat): (r: set<int>)
    ensures forall x :: x in r <==> 0 <= x < n
    ensures |r| == n
  {
    if n == 0 then {} else AllVars(n - 1) + {n - 1}
  }

  /** A subset as large as its superset is the superset. */
  lemma SubsetSameSize(a: set<int>, b: set<int>)
    requires a <= b && |a| == |b|
    ensures a == b
  {
    assert |b - a| == |b| - |a|;
  }

  /** A subset is no larger than its superset. */
  lemma SubsetSize(a: set<int>, b: set<int>)
    requires a <= b
    ensures |a| <= |b|
  {
    assert |b - a| == |b| - |a|;
  }

  /** Where a pattern database searches: the original state space or its
      projection onto the pattern. */
  datatype StateSpace = OriginalSpace | Projection(pattern: set<int>)

  /** A PDBSearch: its pattern and its state space. */
  datatype PdbSearch = PdbSearch(pattern: set<int>, space: StateSpace)

  /** The perimeter PDBSearch constructor: the pattern of all variables, on
      the original state space. */
  method NewPerimeterSearch(numVars: nat) returns (pdb: PdbSearch)
    ensures pdb.pattern == AllVars(numVars) && pdb.space == OriginalSpace
  {
    var pattern: set<int> := {};
    for i := 0 to numVars
      invariant pattern == AllVars(i)
    {
      pattern := pattern + {i};
    }
    pdb := PdbSearch(pattern, OriginalSpace);
  }

  /** The pattern PDBSearch constructor: a projection unless the pattern
      has as many variables as the planning task. */
  function NewPatternSearch(pattern: set<int>, numVars: nat): (pdb: PdbSearch)
    ensures pdb.pattern == pattern
  {
    PdbSearch(pattern, if |pattern| != numVars then Projection(pattern) else OriginalSpace)
  }

  /** A pattern of task variables searches the original state space exactly
      when it holds every variable. */
  lemma PatternSearchOriginal(pattern: set<int>, numVars: nat)
    requires pattern <= AllVars(numVars)
    ensures NewPatternSearch(pattern, numVars).space == OriginalSpace <==> pattern == AllVars(numVars)
    ensures NewPatternSearch(pattern, numVars).space != OriginalSpace ==> NewPatternSearch(pattern, numVars).space == Projection(pattern)
  {
    if |pattern| == numVars {
      SubsetSameSize(pattern, AllVars(numVars));
    }
  }

  /** The initial pattern: the variables of the goal facts. */
  method GoalPattern(goals: seq<(int, int)>) returns (pattern: set<int>)
    ensures forall v :: v in pattern <==> exists k :: 0 <= k < |goals| && goals[k].0 == v
  {
    pattern := {};
    for k := 0 to |goals|
      invariant forall v :: v in pattern <==> exists k' :: 0 <= k' < k && goals[k'].0 == v
    {
      pattern := pattern + {goals[k].0};
    }
  }

  // ---------------------------------------------------------------------------
  // candidate_vars

  /** Some causal-graph successor (pre to eff) of the variable is in the
      pattern. */
  predicate InfluencesPattern(succs: seq<int>, pattern: set<int>) {
    exists k :: 0 <= k < |succs| && succs[k] in pattern
  }

  /** The candidates: variables outside the pattern that influence it. */
  function IsCandidate(pattern: set<int>, preToEff: seq<seq<int>>): nat -> bool {
    (v: nat) => v < |preToEff| && v !in pattern && InfluencesPattern(preToEff[v], pattern)
  }

  /** The inner loop of candidate_vars, left at the first successor in the
      pattern. */
  method HasSuccessorIn(succs: seq<int>, pattern: set<int>) returns (found: bool)
    ensures found <==> InfluencesPattern(succs, pattern)
  {
    var k := 0;
    while k < |succs|
      invariant k <= |succs|
      invariant forall k' :: 0 <= k' < k ==> succs[k'] !in pattern
    {
      if succs[k] in pattern {
        return true;
      }
      k := k + 1;
    }
    return false;
  }

  /** candidate_vars: the variables, in increasing order, that are not in
      the pattern and have a successor in it. preToEff is the causal graph,
      one list of successors per variable. */
  method CandidateVars(pattern: set<int>, preToEff: seq<seq<int>>) returns (candidates: seq<nat>)
    ensures candidates == PricesAdd.ReachedIds(IsCandidate(pattern, preToEff), |preToEff|)
  {
    candidates := [];
    for v := 0 to |preToEff|
      invariant candidates == PricesAdd.ReachedIds(IsCandidate(pattern, preToEff), v)
    {
      if v in pattern {
        continue;
      }
      var found := HasSuccessorIn(preToEff[v], pattern);
      if found {
        candidates := candidates + [v];
      }
    }
  }

  /** A variable is a candidate exactly when it lies outside the pattern and
      influences it; no candidate is listed twice. */
  lemma CandidatesExactly(pattern: set<int>, preToEff: seq<seq<int>>)
    ensures var c := PricesAdd.ReachedIds(IsCandidate(pattern, preToEff), |preToEff|);
      && (forall v: nat :: v in c <==> v < |preToEff| && v !in pattern && InfluencesPattern(preToEff[v], pattern))
      && (forall p, q :: 0 <= p < q < |c| ==> c[p] < c[q])
  {
    PricesAdd.ReachedIdsExactly(IsCandidate(pattern, preToEff), |preToEff|);
  }

  // ---------------------------------------------------------------------------
  // Pattern growth

  /** The child pattern: the parent with one more variable. */
  function ChildPattern(parent: set<int>, v: int): (child: set<int>)
    ensures parent <= child && v in child
  {
    parent + {v}
  }

  /** The union of the selected patterns. */
  method UnionPatterns(patterns: seq<set<int>>) returns (union: set<int>)
    ensures forall x :: x in union <==> exists i :: 0 <= i < |patterns| && x in patterns[i]
  {
    union := {};
    for i := 0 to |patterns|
      invariant forall x :: x in union <==> exists i' :: 0 <= i' < i && x in patterns[i']
    {
      union := union + patterns[i];
    }
  }

  /** The selected children are children of the best pattern by candidate
      variables. */
  predicate ChildrenOf(selected: seq<set<int>>, best: set<int>, numVars: nat, vs: seq<int>) {
    && |vs| == |selected|
    && forall i :: 0 <= i < |selected| ==> 0 <= vs[i] < numVars && vs[i] !in best && selected[i] == ChildPattern(best, vs[i])
  }

  /** The pattern after a round of growth: the union of the selected
      children when there are several, else the only one. */
  function NextPattern(selected: seq<set<int>>): set<int>
    requires |selected| > 0
  {
    if |selected| > 1 then UnionAll(selected) else selected[0]
  }

  function UnionAll(patterns: seq<set<int>>): set<int>
    decreases |patterns|
  {
    if patterns == [] then {} else UnionAll(patterns[..|patterns| - 1]) + patterns[|patterns| - 1]
  }

  /** The union holds what some pattern holds, and nothing else. */
  lemma {:induction false} UnionAllMembers(patterns: seq<set<int>>)
    ensures forall x :: x in UnionAll(patterns) <==> exists i :: 0 <= i < |patterns| && x in patterns[i]
    decreases |patterns|
  {
    if patterns != [] {
      var k := |patterns| - 1;
      UnionAllMembers(patterns[..k]);
      forall x | x in UnionAll(patterns)
        ensures exists i :: 0 <= i < |patterns| && x in patterns[i]
      {
        if x !in patterns[k] {
          assert x in UnionAll(patterns[..k]);
          var i :| 0 <= i < k && x in patterns[..k][i];
          assert x in patterns[i];
        }
      }
      forall x, i | 0 <= i < |patterns| && x in patterns[i]
        ensures x in UnionAll(patterns)
      {
        if i < k {
          assert x in patterns[..k][i];
        }
      }
    }
  }

  /** Every round grows the pattern strictly within the planning task's variables, so
      the growth loop ends after at most numVars rounds. */
  lemma PatternGrows(best: set<int>, selected: seq<set<int>>, numVars: nat, vs: seq<int>)
    requires best <= AllVars(numVars) && |selected| > 0 && ChildrenOf(selected, best, numVars, vs)
    ensures best < NextPattern(selected) <= AllVars(numVars)
    ensures |best| < |NextPattern(selected)| <= numVars
  {
    UnionAllMembers(selected);
    var next := NextPattern(selected);
    assert vs[0] in next && vs[0] !in best;
    assert best <= next;
    assert next <= AllVars(numVars);
    SubsetSize(best, next - {vs[0]});
    SubsetSize(next, AllVars(numVars));
  }

  // ---------------------------------------------------------------------------
  // compute_heuristic

  /** A heuristic value, or DEAD_END. */
  datatype HValue = DeadEnd | Estimate(h: int)

  /** A terminal compute_heuristic takes for a dead end: -1 or +infinity. */
  predicate Dead(t: Terminal) {
    t.PlusInfinity? || t.v == -1
  }

  /** With factoring: the maximum of 0 and the lookups of the perimeter and
      the pattern-database diagrams, INT_MAX after either step a dead end. */
  function FactoredHeuristic(perimeter: Option<int>, pdb: Option<int>): HValue {
    var res := if perimeter.Some? && perimeter.value > 0 then perimeter.value else 0;
    if res == IntMax then DeadEnd
    else
      var res' := if pdb.Some? && pdb.value > res then pdb.value else res;
      if res' == IntMax then DeadEnd else Estimate(res')
  }

  /** With lookups never above INT_MAX, the factored value is a dead end
      exactly when a lookup is INT_MAX, and otherwise the largest of 0 and
      the lookups, below INT_MAX. */
  lemma FactoredHeuristicIs(perimeter: Option<int>, pdb: Option<int>)
    requires perimeter.Some? ==> perimeter.value <= IntMax
    requires pdb.Some? ==> pdb.value <= IntMax
    ensures FactoredHeuristic(perimeter, pdb) == DeadEnd <==> perimeter == Some(IntMax) || pdb == Some(IntMax)
    ensures FactoredHeuristic(perimeter, pdb).Estimate? ==>
      var h := FactoredHeuristic(perimeter, pdb).h;
      && 0 <= h < IntMax
      && (perimeter.Some? ==> perimeter.value <= h)
      && (pdb.Some? ==> pdb.value <= h)
      && (h == 0 || perimeter == Some(h) || pdb == Some(h))
  {
  }

  /** Without factoring, the reference value: a dead end when a not-mutex
      diagram rules the state out or a value is -1 or +infinity; a perimeter
      value below the perimeter's maximum is the answer; otherwise the larger
      of the perimeter value (0 without perimeter) and the database value. */
  function NonFactoredHeuristic(notMutexZero: seq<bool>, perimeter: Option<Terminal>, maxPerimeter: int, pdb: Option<Terminal>): HValue {
    if exists i :: 0 <= i < |notMutexZero| && notMutexZero[i] then DeadEnd
    else if perimeter.Some? && Dead(perimeter.value) then DeadEnd
    else if perimeter.Some? && perimeter.value.v < maxPerimeter then Estimate(perimeter.value.v)
    else if pdb.Some? && Dead(pdb.value) then DeadEnd
    else
      var base := if perimeter.Some? then perimeter.value.v else 0;
      Estimate(if pdb.Some? && pdb.value.v > base then pdb.value.v else base)
  }

  /** compute_heuristic without factoring: first the not-mutex diagrams
      evaluated on the state (an evaluation to zero is recorded as true),
      then the perimeter and the pattern database evaluations. */
  method ComputeNonFactored(notMutexZero: seq<bool>, perimeter: Option<Terminal>, maxPerimeter: int, pdb: Option<Terminal>)
    returns (h: HValue)
    ensures h == NonFactoredHeuristic(notMutexZero, perimeter, maxPerimeter, pdb)
  {
    for i := 0 to |notMutexZero|
      invariant forall i' :: 0 <= i' < i ==> !notMutexZero[i']
    {
      if notMutexZero[i] {
        return DeadEnd;
      }
    }
    var res := 0;
    if perimeter.Some? {
      var evalNode := perimeter.value;
      if evalNode.PlusInfinity? || evalNode.v == -1 {
        return DeadEnd;
      }
      res := evalNode.v;
      if res < maxPerimeter {
        return Estimate(res);
      }
    }
    if pdb.Some? {
      var evalNode := pdb.value;
      if evalNode.PlusInfinity? || evalNode.v == -1 {
        return DeadEnd;
      } else if evalNode.v > res {
        res := evalNode.v;
      }
    }
    return Estimate(res);
  }

  /** A non-factored estimate past the perimeter's range is at least each
      value it combines, and is one of them or 0. */
  lemma NonFactoredDominates(notMutexZero: seq<bool>, perimeter: Option<Terminal>, maxPerimeter: int, pdb: Option<Terminal>)
    requires NonFactoredHeuristic(notMutexZero, perimeter, maxPerimeter, pdb).Estimate?
    ensures perimeter.Some? ==> perimeter.value.Value? && perimeter.value.v != -1
    ensures pdb.Some? && !(perimeter.Some? && perimeter.value.v < maxPerimeter) ==> pdb.value.Value? && pdb.value.v != -1
    ensures var h := NonFactoredHeuristic(notMutexZero, perimeter, maxPerimeter, pdb).h;
      && (perimeter.Some? ==> perimeter.value.v <= h)
      && (pdb.Some? && !(perimeter.Some? && perimeter.value.v < maxPerimeter) ==> pdb.value.v <= h)
      && (perimeter.Some? && perimeter.value.v < maxPerimeter ==> h == perimeter.value.v)
      && (h == 0 || perimeter == Some(Value(h)) || pdb == Some(Value(h)))
  {
  }
}
