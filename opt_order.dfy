/** The influence graph the symbolic planner uses to choose a BDD variable
    ordering: a square matrix of influence values between variables (or
    factors), kept symmetric by set_influence, together with the random number
    generator the optimiser draws from. The generator is modelled as the stream
    rng of raw draws and the count `drawn` of draws consumed so far; random(n)
    returns the next raw draw reduced modulo n (OptOrderSearch.Draw). */
module OptOrder {
  import opened Sums
  import opened OptOrderCost
  import opened OptOrderSearch

  /** The objective as a function of the ordering, for a fixed influence matrix. */
  function CostOf(m: seq<seq<int>>): seq<int> -> int {
    o => Cost(m, o)
  }

  /** cost agrees with the objective of m wherever that objective is mentioned. */
  ghost predicate IsObjective(cost: seq<int> -> int, m: seq<seq<int>>) {
    forall o {:trigger Cost(m, o)} :: cost(o) == Cost(m, o)
  }

  /** A restart under the objective of m: the ordering c climbed from the
      shuffled copy sh (drawn from d on, climbing from ds on) replaces o
      exactly when its objective is strictly smaller. */
  lemma RestartByObjective(m: seq<seq<int>>, cost: seq<int> -> int, o: seq<int>, rng: nat -> nat, d: nat, iters: nat, sh: seq<int>, ds: nat, c: seq<int>)
    requires IsObjective(cost, m) && |o| > 0
    requires sh == Shuffle(o, rng, d) && ds == d + |o| && c == Climb(cost, sh, rng, ds, iters)
    ensures Restart(cost, o, rng, d, iters) == if Cost(m, c) < Cost(m, o) then c else o
  {
  }

  /** get_ordering never ends worse than it started, stated for the objective of m. */
  lemma GetOrderingNeverWorseByObjective(m: seq<seq<int>>, cost: seq<int> -> int, o: seq<int>, rng: nat -> nat, d: nat, iters: nat, restarts: nat)
    requires IsObjective(cost, m) && |o| > 0
    ensures Cost(m, GetOrderingResult(cost, o, rng, d, iters, restarts)) <= Cost(m, o)
  {
    GetOrderingNeverWorse(cost, o, rng, d, iters, restarts);
  }

  /** An num x num matrix of zeros. */
  function Zeros(num: nat): (m: seq<seq<int>>)
    ensures |m| == num && Symmetric(m)
    ensures forall a, b :: 0 <= a < num && 0 <= b < num ==> m[a][b] == 0
  {
    seq(num, _ => seq(num, _ => 0))
  }

  /** The matrix with cells (v1, v2) and (v2, v1) set to val, as set_influence leaves it. */
  function SetCells(m: seq<seq<int>>, v1: int, v2: int, val: int): (r: seq<seq<int>>)
    requires IsSquareMatrix(m) && 0 <= v1 < |m| && 0 <= v2 < |m|
    ensures |r| == |m| && IsSquareMatrix(r)
    ensures forall a, b :: 0 <= a < |m| && 0 <= b < |m| ==>
      r[a][b] == if (a == v1 && b == v2) || (a == v2 && b == v1) then val else m[a][b]
  {
    var m1 := m[v1 := m[v1][v2 := val]];
    m1[v2 := m1[v2][v1 := val]]
  }

  /** set_influence keeps a symmetric matrix symmetric. */
  lemma SetCellsSymmetric(m: seq<seq<int>>, v1: int, v2: int, val: int)
    requires Symmetric(m) && 0 <= v1 < |m| && 0 <= v2 < |m|
    ensures Symmetric(SetCells(m, v1, v2, val))
  {
  }

  /** Whether x occurs in s: the linear scan randomize performs over the
      ordering built so far, stopping at the first match. */
  method Contains(s: seq<int>, x: int) returns (found: bool)
    ensures found <==> x in s
  {
    found := false;
    var j := 0;
    while j < |s|
      invariant 0 <= j <= |s|
      invariant x !in s[..j]
    {
      if s[j] == x {
        found := true;
        return;
      }
      j := j + 1;
    }
    assert s[..j] == s;
  }

  /** The position in `ordering` of its rndPos-th entry (from 0) that does not
      occur in `used`: the scan randomize performs, skipping over used entries
      before each unused one it counts. */
  method NthUnused(ordering: seq<int>, used: seq<int>, rndPos: int) returns (pos: int)
    requires 0 <= rndPos < |Unused(ordering, used)|
    ensures 0 <= pos < |ordering| && ordering[pos] == Unused(ordering, used)[rndPos]
  {
    ghost var u := Unused(ordering, used);
    assert ordering[0..] == ordering;
    pos := -1;
    var r := rndPos;
    var more := true;
    while more
      invariant -1 <= pos < |ordering|
      invariant more ==> 0 <= r <= rndPos && Unused(ordering[pos + 1..], used) == u[rndPos - r..]
      invariant !more ==> 0 <= pos && ordering[pos] == u[rndPos]
      decreases |ordering| - pos, more
    {
      pos := pos + 1;
      ghost var k := rndPos - r;
      var found := true;
      while found
        invariant 0 <= pos <= |ordering|
        invariant Unused(ordering[pos..], used) == u[k..]
        invariant !found ==> pos < |ordering| && ordering[pos] !in used
        decreases |ordering| - pos, found
      {
        found := Contains(used, ordering[pos]);
        UnusedStep(ordering, used, pos);
        if found {
          pos := pos + 1;
        }
      }
      UnusedStep(ordering, used, pos);
      more := r > 0;
      r := r - 1;
    }
  }

  /** dst takes over the contents src, as `ordering.swap(new_order)` does for
      the ordering when the exchanged-out copy is discarded afterwards. */
  method CopyInto(dst: array<int>, src: seq<int>)
    modifies dst
    requires dst.Length == |src|
    ensures dst[..] == src
  {
    forall k | 0 <= k < dst.Length {
      dst[k] := src[k];
    }
  }

  class InfluenceGraph {
    /** The number of rows and columns of the matrix. */
    const n: nat
    /** The raw draws of the generator, seeded once when the graph is built. */
    const rng: nat -> nat
    /** How many draws the generator has delivered. */
    var drawn: nat
    var influenceGraph: seq<seq<int>>

    /** The matrix has the size it was built with and is symmetric. */
    predicate Valid()
      reads this`influenceGraph
    {
      |influenceGraph| == n && Symmetric(influenceGraph)
    }

    /** Builds an num x num matrix of zeros and a generator that has not drawn yet. */
    constructor(num: nat, rng: nat -> nat)
      ensures Valid() && this.rng == rng && drawn == 0 && n == num
      ensures influenceGraph == Zeros(num)
    {
      n := num;
      this.rng := rng;
      drawn := 0;
      influenceGraph := Zeros(num);
    }

    /** The influence value of v1 on v2, the same as that of v2 on v1. */
    function Influence(v1: int, v2: int): (r: int)
      reads this`influenceGraph
      requires Valid() && 0 <= v1 < n && 0 <= v2 < n
      ensures r == influenceGraph[v2][v1]
    {
      influenceGraph[v1][v2]
    }

    /** Sets the influence between v1 and v2 in both directions. */
    method SetInfluence(v1: int, v2: int, val: int := 1)
      modifies this`influenceGraph
      requires Valid() && 0 <= v1 < n && 0 <= v2 < n
      ensures Valid()
      ensures influenceGraph == SetCells(old(influenceGraph), v1, v2, val)
    {
      SetCellsSymmetric(influenceGraph, v1, v2, val);
      var m1 := influenceGraph[v1 := influenceGraph[v1][v2 := val]];
      influenceGraph := m1[v2 := m1[v2][v1 := val]];
    }

    /** A value in [0, bound): the next draw of the generator. */
    method Random(bound: int) returns (r: int)
      modifies this`drawn
      requires bound > 0
      ensures r == Draw(rng, old(drawn), bound) && drawn == old(drawn) + 1
    {
      r := Draw(rng, drawn, bound);
      drawn := drawn + 1;
    }

    /** The objective of an ordering: the sum of (i - j)^2 over the pairs of
        positions i < j whose variables influence each other. */
    method ComputeFunction(order: seq<int>) returns (total: int)
      requires Valid() && InRange(order, n)
      ensures total == Cost(influenceGraph, order)
    {
      total := 0;
      var i := 0;
      while i < |order| - 1
        invariant 0 <= i && (i == 0 || i <= |order| - 1)
        invariant total == RowsCost(influenceGraph, order, i)
      {
        var j := i + 1;
        while j < |order|
          invariant i + 1 <= j <= |order|
          invariant total == RowsCost(influenceGraph, order, i) + RowCost(influenceGraph, order, i, j)
        {
          if Influence(order[i], order[j]) != 0 {
            total := total + (i - j) * (i - j);
          }
          j := j + 1;
        }
        i := i + 1;
      }
    }

    /** The change of the objective the optimiser accumulates for swapping
        positions a and b, one position i of the ordering at a time. */
    method SwapDelta(order: array<int>, a: int, b: int) returns (delta: int)
      requires Valid() && InRange(order[..], n)
      requires 0 <= a < order.Length && 0 <= b < order.Length
      ensures delta == Delta(influenceGraph, order[..], a, b)
    {
      ghost var o := order[..];
      delta := 0;
      var i := 0;
      while i < order.Length
        invariant 0 <= i <= order.Length
        invariant delta == Sum(0, i, DeltaTerms(influenceGraph, o, a, b))
      {
        if i != a && i != b {
          if Influence(order[i], order[a]) != 0 {
            delta := delta + (-(i - a) * (i - a) + (i - b) * (i - b));
          }
          if Influence(order[i], order[b]) != 0 {
            delta := delta + (-(i - b) * (i - b) + (i - a) * (i - a));
          }
        }
        i := i + 1;
      }
    }

    /** One evaluated swap of positions a != b: the change of the objective is
        accumulated onto `total`, the objective of the current ordering, and
        the swap is applied only if the result is strictly smaller. Returns the
        objective of the ordering left behind. */
    method TrySwap(order: array<int>, a: int, b: int, total: int, ghost cost: seq<int> -> int) returns (newTotal: int)
      modifies order
      requires Valid() && InRange(order[..], n)
      requires IsObjective(cost, influenceGraph)
      requires 0 <= a < order.Length && 0 <= b < order.Length && a != b
      requires total == Cost(influenceGraph, order[..])
      ensures order[..] == ClimbStep(cost, old(order[..]), a, b)
      ensures newTotal == Cost(influenceGraph, order[..]) && InRange(order[..], n)
    {
      ghost var o := order[..];
      var delta := SwapDelta(order, a, b);
      SwapCost(influenceGraph, o, a, b);
      newTotal := total + delta;
      if newTotal < total {
        order[a], order[b] := order[b], order[a];
        assert order[..] == Swap(o, a, b);
      } else {
        newTotal := total;
      }
    }

    /** One iteration of the climber on the whole ordering: draw two
        positions and try their swap. For the ghost count `left` of
        iterations still to run, the rest of the climb continues from the
        ordering and the draws it leaves behind. */
    method ClimbIteration(order: array<int>, total: int, ghost cost: seq<int> -> int, ghost left: nat) returns (newTotal: int)
      modifies order, this`drawn
      requires Valid() && IsObjective(cost, influenceGraph) && order.Length > 0 && InRange(order[..], n)
      requires total == Cost(influenceGraph, order[..]) && left > 0
      ensures order[..] == ClimbStep(cost, old(order[..]), Draw(rng, old(drawn), order.Length), Draw(rng, old(drawn) + 1, order.Length))
      ensures Climb(cost, order[..], rng, drawn, left - 1) == Climb(cost, old(order[..]), rng, old(drawn), left)
      ensures drawn == old(drawn) + 2
      ensures newTotal == Cost(influenceGraph, order[..]) && InRange(order[..], n)
    {
      ghost var o, d := order[..], drawn;
      newTotal := total;
      var swapIndex1 := Random(order.Length);
      var swapIndex2 := Random(order.Length);
      if swapIndex1 != swapIndex2 {
        newTotal := TrySwap(order, swapIndex1, swapIndex2, total, cost);
      }
      ClimbUnfold(cost, o, order[..], rng, d, left);
    }

    /** Hill climbing on the whole ordering for `iterations` iterations: each
        draws two positions and keeps their swap only if it strictly lowers the
        objective, which is tracked incrementally. Returns the objective of the
        final ordering. */
    method OptimizeVariableOrderingGamer(order: array<int>, iterations: int, ghost cost: seq<int> -> int) returns (total: int)
      modifies order, this`drawn
      requires Valid() && order.Length > 0 && InRange(order[..], n)
      requires IsObjective(cost, influenceGraph)
      ensures order[..] == Climb(cost, old(order[..]), rng, old(drawn), NonNegative(iterations))
      ensures drawn == old(drawn) + 2 * NonNegative(iterations)
      ensures total == Cost(influenceGraph, order[..])
      ensures total <= Cost(influenceGraph, old(order[..]))
      ensures multiset(order[..]) == multiset(old(order[..]))
    {
      ghost var o0, d0 := order[..], drawn;
      var iters := NonNegative(iterations);
      ghost var goal := Climb(cost, o0, rng, d0, iters);
      ghost var left: nat := iters;
      total := ComputeFunction(order[..]);
      var counter := 0;
      while counter < iters
        invariant 0 <= counter <= iters && left == iters - counter && drawn == d0 + 2 * counter
        invariant InRange(order[..], n) && order.Length == |o0|
        invariant Climb(cost, order[..], rng, drawn, left) == goal
        invariant total == Cost(influenceGraph, order[..])
        decreases left
      {
        total := ClimbIteration(order, total, cost, left);
        assert Climb(cost, order[..], rng, drawn, left - 1) == goal;
        assert drawn == d0 + 2 * (counter + 1);
        counter := counter + 1;
        left := left - 1;
      }
      ClimbNeverWorse(cost, o0, rng, d0, iters);
      ClimbPermutes(cost, o0, rng, d0, iters);
    }

    /** One iteration of the partition-restricted climber: draw a partition
        and, if it holds more than one position, two positions inside it. */
    method PartitionIteration(order: array<int>, begin: seq<int>, sizes: seq<int>, total: int, ghost cost: seq<int> -> int) returns (newTotal: int)
      modifies order, this`drawn
      requires Valid() && InRange(order[..], n) && PartitionsFit(begin, sizes, order.Length)
      requires IsObjective(cost, influenceGraph)
      requires total == Cost(influenceGraph, order[..])
      ensures order[..] == PStep(cost, old(order[..]), begin, sizes, rng, old(drawn)).0
      ensures drawn == PStep(cost, old(order[..]), begin, sizes, rng, old(drawn)).1
      ensures newTotal == Cost(influenceGraph, order[..]) && InRange(order[..], n)
    {
      ghost var o, d := order[..], drawn;
      PStepCases(cost, o, begin, sizes, rng, d);
      newTotal := total;
      var partition := Random(|begin|);
      if sizes[partition] > 1 {
        var r1 := Random(sizes[partition]);
        var swapIndex1 := begin[partition] + r1;
        var r2 := Random(sizes[partition]);
        var swapIndex2 := begin[partition] + r2;
        ghost var next := ClimbStep(cost, o, swapIndex1, swapIndex2);
        assert PStep(cost, o, begin, sizes, rng, d) == (next, drawn);
        if swapIndex1 != swapIndex2 {
          newTotal := TrySwap(order, swapIndex1, swapIndex2, total, cost);
        }
        assert order[..] == next;
      } else {
        assert order[..] == o;
      }
    }

    /** Hill climbing restricted to partitions for `iterations` iterations:
        each draws a partition and, if it holds more than one position, two
        positions inside it, keeping their swap only if it strictly lowers the
        objective. */
    method OptimizeVariableOrderingGamerInPartitions(order: array<int>, begin: seq<int>, sizes: seq<int>, iterations: int, ghost cost: seq<int> -> int)
      modifies order, this`drawn
      requires Valid() && InRange(order[..], n) && PartitionsFit(begin, sizes, order.Length)
      requires IsObjective(cost, influenceGraph)
      ensures (order[..], drawn) == PClimb(cost, old(order[..]), begin, sizes, rng, old(drawn), NonNegative(iterations))
      ensures Cost(influenceGraph, order[..]) <= Cost(influenceGraph, old(order[..]))
      ensures multiset(order[..]) == multiset(old(order[..]))
      ensures forall k :: 0 <= k < order.Length && Outside(begin, sizes, k) ==> order[k] == old(order[k])
    {
      ghost var o0, d0 := order[..], drawn;
      var iters := NonNegative(iterations);
      ghost var goal := PClimb(cost, o0, begin, sizes, rng, d0, iters);
      ghost var left: nat := iters;
      var total := ComputeFunction(order[..]);
      var counter := 0;
      while counter < iters
        invariant 0 <= counter <= iters && left == iters - counter
        invariant InRange(order[..], n) && |order[..]| == |o0|
        invariant PClimb(cost, order[..], begin, sizes, rng, drawn, left) == goal
        invariant total == Cost(influenceGraph, order[..])
        decreases left
      {
        PClimbUnfold(cost, order[..], begin, sizes, rng, drawn, left);
        total := PartitionIteration(order, begin, sizes, total, cost);
        counter := counter + 1;
        left := left - 1;
      }
      PClimbNeverWorse(cost, o0, begin, sizes, rng, d0, iters);
      PClimbPermutes(cost, o0, begin, sizes, rng, d0, iters);
      PClimbKeepsOutside(cost, o0, begin, sizes, rng, d0, iters);
    }

    /** One pass of randomize's outer loop: draw rnd_pos = random(|ordering| - i)
        and append the rnd_pos-th entry of the ordering not yet copied. */
    method ShuffleIteration(ordering: seq<int>, newOrder: seq<int>, i: int, ghost left: nat) returns (next: seq<int>)
      modifies this`drawn
      requires Distinct(ordering) && multiset(newOrder) <= multiset(ordering)
      requires i == |newOrder| && left == |ordering| - i && left > 0
      ensures |next| == i + 1 && drawn == old(drawn) + 1 && multiset(next) <= multiset(ordering)
      ensures ShuffleFrom(ordering, next, rng, drawn, left - 1) == ShuffleFrom(ordering, newOrder, rng, old(drawn), left)
    {
      ghost var d := drawn;
      ShuffleFromStep(ordering, newOrder, rng, d, left);
      var rndPos := Random(|ordering| - i);
      var pos := NthUnused(ordering, newOrder, rndPos);
      next := newOrder + [ordering[pos]];
    }

    /** A random permutation of a duplicate-free ordering: position i of the
        copy is the rnd_pos-th entry of the ordering not yet copied, for
        rnd_pos = random(|ordering| - i). */
    method Randomize(ordering: seq<int>) returns (newOrder: seq<int>)
      modifies this`drawn
      requires Distinct(ordering)
      ensures newOrder == Shuffle(ordering, rng, old(drawn))
      ensures drawn == old(drawn) + |ordering|
      ensures multiset(newOrder) == multiset(ordering)
    {
      ghost var d0 := drawn;
      ghost var goal := Shuffle(ordering, rng, d0);
      ghost var left: nat := |ordering|;
      newOrder := [];
      var i := 0;
      while i < |ordering|
        invariant 0 <= i <= |ordering| && |newOrder| == i && drawn == d0 + i && left == |ordering| - i
        invariant multiset(newOrder) <= multiset(ordering)
        invariant ShuffleFrom(ordering, newOrder, rng, drawn, left) == goal
        decreases left
      {
        newOrder := ShuffleIteration(ordering, newOrder, i, left);
        i := i + 1;
        left := left - 1;
      }
      ShuffleIsPermutation(ordering, rng, d0);
    }

    /** One restart of the ordering search: climb from a random permutation
        of `ordering`, whose objective is `value`, and take the result over
        when it is strictly better. Returns the objective of the ordering kept. */
    method RestartIteration(ordering: array<int>, value: int, ghost cost: seq<int> -> int) returns (newValue: int)
      modifies ordering, this`drawn
      requires Valid() && ordering.Length > 0 && InRange(ordering[..], n) && Distinct(ordering[..])
      requires IsObjective(cost, influenceGraph)
      requires value == Cost(influenceGraph, ordering[..])
      ensures ordering[..] == Restart(cost, old(ordering[..]), rng, old(drawn), ClimbIterations)
      ensures drawn == old(drawn) + RestartDraws(ordering.Length, ClimbIterations)
      ensures newValue == Cost(influenceGraph, ordering[..])
      ensures InRange(ordering[..], n) && Distinct(ordering[..]) && multiset(ordering[..]) == multiset(old(ordering[..]))
    {
      ghost var o, d, m := ordering[..], drawn, influenceGraph;
      var shuffled := Randomize(ordering[..]);
      ghost var ds := drawn;
      var newOrder := new int[|shuffled|](k requires 0 <= k < |shuffled| => shuffled[k]);
      ghost var sh := newOrder[..];
      assert sh == shuffled;
      InRangeByMultiset(o, sh, n);
      assert NonNegative(ClimbIterations) == ClimbIterations;
      var newValueCandidate := OptimizeVariableOrderingGamer(newOrder, 50000, cost);
      assert influenceGraph == m;
      ghost var c := newOrder[..];
      RestartByObjective(m, cost, o, rng, d, ClimbIterations, sh, ds, c);
      newValue := value;
      if newValueCandidate < value {
        newValue := newValueCandidate;
        CopyInto(ordering, newOrder[..]);
      }
      RestartPermutes(cost, o, rng, d, ClimbIterations);
      DistinctByMultiset(o, ordering[..]);
      InRangeByMultiset(o, ordering[..], n);
    }

    /** The ordering search: one hill-climbing run of 50000 iterations, then 20
        restarts, each climbing from a random permutation of the best ordering
        so far and replacing it when strictly better. */
    method GetOrdering(ordering: array<int>, ghost cost: seq<int> -> int)
      modifies ordering, this`drawn
      requires Valid() && ordering.Length > 0 && InRange(ordering[..], n) && Distinct(ordering[..])
      requires IsObjective(cost, influenceGraph)
      ensures ordering[..] == GetOrderingResult(cost, old(ordering[..]), rng, old(drawn), ClimbIterations, RestartCount)
      ensures drawn == old(drawn) + 2 * ClimbIterations + RestartCount * RestartDraws(ordering.Length, ClimbIterations)
      ensures multiset(ordering[..]) == multiset(old(ordering[..]))
      ensures Cost(influenceGraph, ordering[..]) <= Cost(influenceGraph, old(ordering[..]))
    {
      ghost var o0, d0, m := ordering[..], drawn, influenceGraph;
      ghost var step := RestartDraws(ordering.Length, ClimbIterations);
      assert NonNegative(ClimbIterations) == ClimbIterations;
      var value := OptimizeVariableOrderingGamer(ordering, 50000, cost);
      DistinctByMultiset(o0, ordering[..]);
      InRangeByMultiset(o0, ordering[..], n);
      ghost var c, d1 := ordering[..], drawn;
      ghost var goal := GetOrderingResult(cost, o0, rng, d0, ClimbIterations, RestartCount);
      GetOrderingUnfold(cost, o0, rng, d0, ClimbIterations, RestartCount, c, d1);
      ghost var left: nat := RestartCount;
      var counter := 0;
      while counter < 20
        invariant 0 <= counter <= RestartCount && left == RestartCount - counter
        invariant drawn == d1 + counter * step
        invariant InRange(ordering[..], n) && Distinct(ordering[..]) && multiset(ordering[..]) == multiset(o0)
        invariant influenceGraph == m && value == Cost(m, ordering[..])
        invariant Restarts(cost, ordering[..], rng, drawn, ClimbIterations, left) == goal
        decreases left
      {
        ghost var o, d, k, c0 := ordering[..], drawn, left, counter;
        value := RestartIteration(ordering, value, cost);
        counter := counter + 1;
        left := left - 1;
        RestartsStep(cost, o, ordering[..], rng, d, drawn, ClimbIterations, k, left);
        NextMultiple(c0, counter, step);
      }
      GetOrderingNeverWorseByObjective(m, cost, o0, rng, d0, ClimbIterations, RestartCount);
    }
  }

  /** One more round adds one more step: (c + 1) * step == c * step + step. */
  lemma NextMultiple(c: int, c': int, step: int)
    requires c' == c + 1
    ensures c' * step == c * step + step
  {
  }

  /** The number of times a loop `for (counter = 0; counter < iterations; counter++)` runs. */
  function NonNegative(iterations: int): (r: nat)
    ensures r == 0 || r == iterations
  {
    if iterations < 0 then 0 else iterations
  }
}
