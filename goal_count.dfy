/** The goal-count heuristic: the number of goal facts a state violates. A
    goal fact is a pair (var, value); a state gives every variable a value. */
module GoalCount {

  /** Every goal fact names a variable of the state. */
  predicate GoalIn(goal: seq<(int, int)>, state: seq<int>) {
    forall i :: 0 <= i < |goal| ==> 0 <= goal[i].0 < |state|
  }

  /** The goal fact at position i fails in the state. */
  predicate Violated(goal: seq<(int, int)>, state: seq<int>, i: int)
    requires GoalIn(goal, state) && 0 <= i < |goal|
  {
    state[goal[i].0] != goal[i].1
  }

  /** The number of violated goal facts, counted from the last fact back. */
  function Unsatisfied(goal: seq<(int, int)>, state: seq<int>): (r: nat)
    requires GoalIn(goal, state)
    ensures r <= |goal|
    ensures r == 0 <==> forall i :: 0 <= i < |goal| ==> !Violated(goal, state, i)
    decreases |goal|
  {
    if goal == [] then 0
    else
      var k := |goal| - 1;
      assert forall i :: 0 <= i < k ==> (Violated(goal[..k], state, i) <==> Violated(goal, state, i));
      Unsatisfied(goal[..k], state) + if Violated(goal, state, k) then 1 else 0
  }

  /** The positions of the violated goal facts. */
  function ViolatedFacts(goal: seq<(int, int)>, state: seq<int>): set<int>
    requires GoalIn(goal, state)
  {
    set i | 0 <= i < |goal| && Violated(goal, state, i)
  }

  /** Each violated goal fact counts exactly once: the count is the size of
      the set of violated positions. */
  lemma {:induction false} UnsatisfiedCountsViolated(goal: seq<(int, int)>, state: seq<int>)
    requires GoalIn(goal, state)
    ensures Unsatisfied(goal, state) == |ViolatedFacts(goal, state)|
    decreases |goal|
  {
    if goal != [] {
      var k := |goal| - 1;
      UnsatisfiedCountsViolated(goal[..k], state);
      var before := ViolatedFacts(goal[..k], state);
      assert forall i :: 0 <= i < k ==> (Violated(goal[..k], state, i) <==> Violated(goal, state, i));
      if Violated(goal, state, k) {
        assert ViolatedFacts(goal, state) == before + {k};
      } else {
        assert ViolatedFacts(goal, state) == before;
      }
    }
  }

  /** compute_heuristic: one pass over the goal facts, counting the ones the
      state violates. The state is only read. */
  method ComputeHeuristic(goal: seq<(int, int)>, state: seq<int>) returns (h: int)
    requires GoalIn(goal, state)
    ensures h == Unsatisfied(goal, state)
    ensures 0 <= h <= |goal|
    ensures h == 0 <==> forall i :: 0 <= i < |goal| ==> state[goal[i].0] == goal[i].1
  {
    h := 0;
    for i := 0 to |goal|
      invariant h == Unsatisfied(goal[..i], state)
    {
      assert goal[..i + 1][..i] == goal[..i];
      var fact := goal[i];
      if state[fact.0] != fact.1 {
        h := h + 1;
      }
    }
    assert goal[..|goal|] == goal;
    assert forall i :: 0 <= i < |goal| ==> (Violated(goal, state, i) <==> state[goal[i].0] != goal[i].1);
  }
}
