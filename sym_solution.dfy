/** A solution found by the symbolic search: the forward and backward searches
    that met (represented only by whether they exist), the cost g of the
    forward part and h of the backward part, and the cut, the set of states
    where they met. Decision diagrams over states are modelled as the sets of
    states they denote: getStateBDD(s) is {s}, and += on diagrams is union.
    The searches' own plan extraction is outside this model; it enters as a
    function from a cut and the two costs to the operators it appends. */
module SymSolutions {

  type State = seq<int>

  /** An effect sets variable `variable` to `value` when all its conditions
      (pairs of variable and value) hold. */
  datatype Effect = Effect(conditions: seq<(int, int)>, variable: int, value: int)

  datatype Operator = Operator(effects: seq<Effect>, cost: int)

  /** The effects of op read and write variables of an n-variable state. */
  predicate EffectsIn(effs: seq<Effect>, n: int) {
    forall i :: 0 <= i < |effs| ==>
      0 <= effs[i].variable < n && forall j :: 0 <= j < |effs[i].conditions| ==> 0 <= effs[i].conditions[j].0 < n
  }

  predicate OperatorsIn(path: seq<Operator>, n: int) {
    forall i :: 0 <= i < |path| ==> EffectsIn(path[i].effects, n)
  }

  /** does_fire: every condition of the effect holds in s. */
  predicate Fires(eff: Effect, s: State)
    requires forall j :: 0 <= j < |eff.conditions| ==> 0 <= eff.conditions[j].0 < |s|
  {
    forall j :: 0 <= j < |eff.conditions| ==> s[eff.conditions[j].0] == eff.conditions[j].1
  }

  /** The state after the effects effs of one operator: each effect is checked
      on the state before the operator (s), and the ones that fire are
      written, in order, into a copy. */
  function Progressed(s: State, effs: seq<Effect>): (r: State)
    requires EffectsIn(effs, |s|)
    ensures |r| == |s|
    decreases |effs|
  {
    if effs == [] then s
    else
      var k := |effs| - 1;
      var r := Progressed(s, effs[..k]);
      if Fires(effs[k], s) then r[effs[k].variable := effs[k].value] else r
  }

  /** A variable that no firing effect writes keeps its value. */
  lemma {:induction false} ProgressedFrame(s: State, effs: seq<Effect>, v: int)
    requires EffectsIn(effs, |s|) && 0 <= v < |s|
    requires forall i :: 0 <= i < |effs| && effs[i].variable == v ==> !Fires(effs[i], s)
    ensures Progressed(s, effs)[v] == s[v]
    decreases |effs|
  {
    if effs != [] {
      ProgressedFrame(s, effs[..|effs| - 1], v);
    }
  }

  /** A variable written by firing effects takes the value of the last of
      them: the effects see the state before the operator, never each
      other's writes. */
  lemma {:induction false} ProgressedLastWrite(s: State, effs: seq<Effect>, i: int)
    requires EffectsIn(effs, |s|) && 0 <= i < |effs| && Fires(effs[i], s)
    requires forall j :: i < j < |effs| && effs[j].variable == effs[i].variable ==> !Fires(effs[j], s)
    ensures Progressed(s, effs)[effs[i].variable] == effs[i].value
    decreases |effs|
  {
    var k := |effs| - 1;
    if i < k {
      ProgressedLastWrite(s, effs[..k], i);
    }
  }

  /** The state after applying each operator of path in turn. */
  function Run(s: State, path: seq<Operator>): (r: State)
    requires OperatorsIn(path, |s|)
    ensures |r| == |s|
    decreases |path|
  {
    if path == [] then s
    else
      var k := |path| - 1;
      Progressed(Run(s, path[..k]), path[k].effects)
  }

  /** The progression loop over one operator's effects. */
  method ApplyOperator(s: State, op: Operator) returns (s': State)
    requires EffectsIn(op.effects, |s|)
    ensures s' == Progressed(s, op.effects)
  {
    var newS := s;
    for i := 0 to |op.effects|
      invariant newS == Progressed(s, op.effects[..i])
    {
      assert op.effects[..i + 1][..i] == op.effects[..i];
      var eff := op.effects[i];
      if Fires(eff, s) {
        newS := newS[eff.variable := eff.value];
      }
    }
    assert op.effects[..|op.effects|] == op.effects;
    s' := newS;
  }

  /** The progression loop over a path, from s. */
  method ApplyPath(s: State, path: seq<Operator>) returns (s': State)
    requires OperatorsIn(path, |s|)
    ensures s' == Run(s, path)
  {
    s' := s;
    for i := 0 to |path|
      invariant s' == Run(s, path[..i])
    {
      assert path[..i + 1][..i] == path[..i];
      s' := ApplyOperator(s', path[i]);
    }
    assert path[..|path|] == path;
  }

  datatype SymSolution = SymSolution(hasFw: bool, hasBw: bool, g: int, h: int, cut: set<State>)

  /** The default constructor: no search, g = h = -1. */
  function NoSolution(): (sol: SymSolution)
    ensures !Solved(sol) && sol.g == -1 && sol.h == -1 && !sol.hasFw && !sol.hasBw
  {
    SymSolution(false, false, -1, -1, {})
  }

  /** The forward-only constructor: h = 0, so the cost is the given cost. */
  function ForwardSolution(cost: int, cut: set<State>): (sol: SymSolution)
    ensures GetCost(sol) == cost && sol.h == 0 && sol.hasFw && !sol.hasBw && sol.cut == cut
    ensures Solved(sol) <==> cost >= 0
  {
    SymSolution(true, false, cost, 0, cut)
  }

  /** The constructor with both searches. */
  function BidirectionalSolution(g: int, h: int, cut: set<State>): (sol: SymSolution)
    ensures GetCost(sol) == g + h && sol.g == g && sol.h == h && sol.hasFw && sol.hasBw && sol.cut == cut
  {
    SymSolution(true, true, g, h, cut)
  }

  predicate Solved(sol: SymSolution) {
    sol.g + sol.h >= 0
  }

  function GetCost(sol: SymSolution): int {
    sol.g + sol.h
  }

  /** Extraction hands every search a plan made of operators of the planning task. */
  ghost predicate ExtractsIn(extract: (set<State>, int, int) -> seq<Operator>, n: int) {
    forall cut, g, h :: OperatorsIn(extract(cut, g, h), n)
  }

  /** The plan getPlan builds for an empty path: the forward search's part
      from the cut, then the backward search's part from the state the
      forward part reaches from the initial state, or from the cut itself
      when the forward part is empty. */
  function Plan(sol: SymSolution, init: State, fw: (set<State>, int, int) -> seq<Operator>, bw: (set<State>, int, int) -> seq<Operator>): (path: seq<Operator>)
    requires ExtractsIn(fw, |init|) && ExtractsIn(bw, |init|)
    ensures OperatorsIn(path, |init|)
  {
    var forward := if sol.hasFw then fw(sol.cut, sol.g, sol.h) else [];
    var newCut := if forward != [] then {Run(init, forward)} else sol.cut;
    var backward := if sol.hasBw then bw(newCut, sol.g, sol.h) else [];
    assert forall i :: 0 <= i < |forward + backward| ==>
      (forward + backward)[i] == if i < |forward| then forward[i] else backward[i - |forward|];
    forward + backward
  }

  /** getPlan: the forward part, then the progression of the initial state
      along it to find where the backward part starts. */
  method GetPlan(sol: SymSolution, init: State, fw: (set<State>, int, int) -> seq<Operator>, bw: (set<State>, int, int) -> seq<Operator>)
    returns (path: seq<Operator>)
    requires ExtractsIn(fw, |init|) && ExtractsIn(bw, |init|)
    ensures path == Plan(sol, init, fw, bw)
    ensures sol.hasFw ==> path[..|fw(sol.cut, sol.g, sol.h)|] == fw(sol.cut, sol.g, sol.h)
  {
    path := [];
    if sol.hasFw {
      path := path + fw(sol.cut, sol.g, sol.h);
    }
    assert path == if sol.hasFw then fw(sol.cut, sol.g, sol.h) else [];
    if sol.hasBw {
      var newCut;
      if path != [] {
        var s := ApplyPath(init, path);
        newCut := {s};
      } else {
        newCut := sol.cut;
      }
      path := path + bw(newCut, sol.g, sol.h);
    }
  }

  // ---------------------------------------------------------------------------
  // getADD: the states of the plan by remaining cost

  /** The sum of the costs of the operators of path. */
  function PathCost(path: seq<Operator>): int
    decreases |path|
  {
    if path == [] then 0 else PathCost(path[..|path| - 1]) + path[|path| - 1].cost
  }

  /** The value getADD records the i-th state of the plan under: g + h less
      the costs of the first i operators. */
  function KeyAt(sol: SymSolution, path: seq<Operator>, i: int): int
    requires 0 <= i <= |path|
  {
    GetCost(sol) - PathCost(path[..i])
  }

  function StateAt(init: State, path: seq<Operator>, i: int): State
    requires OperatorsIn(path, |init|) && 0 <= i <= |path|
  {
    Run(init, path[..i])
  }

  /** heuristicBDDs after the first n operators of the plan: the initial
      state under g + h, then each reached state added, by union, to the
      set under its key. */
  function Accumulated(sol: SymSolution, init: State, path: seq<Operator>, n: nat): map<int, set<State>>
    requires OperatorsIn(path, |init|) && n <= |path|
    decreases n
  {
    if n == 0 then map[GetCost(sol) := {init}]
    else
      var m := Accumulated(sol, init, path, n - 1);
      var k := KeyAt(sol, path, n);
      m[k := (if k in m then m[k] else {}) + {StateAt(init, path, n)}]
  }

  /** Every state of the plan is recorded under its key, and nothing else
      is: a key holds exactly the states reached with that many cost units
      left, so states with equal keys are gathered, never overwritten. */
  lemma {:induction false} AccumulatedStates(sol: SymSolution, init: State, path: seq<Operator>, n: nat)
    requires OperatorsIn(path, |init|) && n <= |path|
    ensures forall k :: k in Accumulated(sol, init, path, n) <==> exists i :: 0 <= i <= n && KeyAt(sol, path, i) == k
    ensures forall k :: k in Accumulated(sol, init, path, n) ==>
              Accumulated(sol, init, path, n)[k] == set i | 0 <= i <= n && KeyAt(sol, path, i) == k :: StateAt(init, path, i)
    decreases n
  {
    assert path[..0] == [];
    assert KeyAt(sol, path, 0) == GetCost(sol) && StateAt(init, path, 0) == init;
    if n > 0 {
      AccumulatedStates(sol, init, path, n - 1);
      var m := Accumulated(sol, init, path, n - 1);
      var m' := Accumulated(sol, init, path, n);
      var kn := KeyAt(sol, path, n);
      forall k | k in m'
        ensures m'[k] == set i | 0 <= i <= n && KeyAt(sol, path, i) == k :: StateAt(init, path, i)
      {
        var now := set i | 0 <= i <= n && KeyAt(sol, path, i) == k :: StateAt(init, path, i);
        var before := set i | 0 <= i <= n - 1 && KeyAt(sol, path, i) == k :: StateAt(init, path, i);
        if k == kn {
          assert now == before + {StateAt(init, path, n)};
          if k !in m {
            assert before == {};
          }
        } else {
          assert now == before;
        }
      }
    }
  }

  /** getADD: the plan of getPlan, and the map from remaining cost to the
      states reached with it, which the diagram library turns into an ADD. */
  method GetAdd(sol: SymSolution, init: State, fw: (set<State>, int, int) -> seq<Operator>, bw: (set<State>, int, int) -> seq<Operator>)
    returns (heuristicBdds: map<int, set<State>>)
    requires sol.hasFw || sol.hasBw
    requires ExtractsIn(fw, |init|) && ExtractsIn(bw, |init|)
    ensures var path := Plan(sol, init, fw, bw);
      && (forall k :: k in heuristicBdds <==> exists i :: 0 <= i <= |path| && KeyAt(sol, path, i) == k)
      && (forall k :: k in heuristicBdds ==>
            heuristicBdds[k] == set i | 0 <= i <= |path| && KeyAt(sol, path, i) == k :: StateAt(init, path, i))
  {
    var path := GetPlan(sol, init, fw, bw);
    var hVal := sol.g + sol.h;
    var s := init;
    heuristicBdds := map[hVal := {s}];
    for i := 0 to |path|
      invariant hVal == KeyAt(sol, path, i) && s == StateAt(init, path, i)
      invariant heuristicBdds == Accumulated(sol, init, path, i)
    {
      assert path[..i + 1][..i] == path[..i];
      hVal := hVal - path[i].cost;
      s := ApplyOperator(s, path[i]);
      assert hVal == KeyAt(sol, path, i + 1) && s == StateAt(init, path, i + 1);
      if hVal in heuristicBdds {
        heuristicBdds := heuristicBdds[hVal := heuristicBdds[hVal] + {s}];
      } else {
        assert {} + {s} == {s};
        heuristicBdds := heuristicBdds[hVal := {s}];
      }
    }
    AccumulatedStates(sol, init, path, |path|);
  }
}
