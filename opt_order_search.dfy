/** Reference definitions of what the ordering optimiser computes, stated on
    sequences and on the stream of raw random draws: the hill climber (both
    the whole-ordering and the partition-restricted variant), the random
    shuffle used for restarts, and the restart loop of get_ordering, together
    with the properties promised about them. The objective is a parameter
    `cost`; the optimiser instantiates it with OptOrderCost.Cost. A draw
    cursor d names the next unused value rng(d) of the random stream. */
module OptOrderSearch {
  import opened OptOrderCost

  /** No value occurs twice. */
  ghost predicate Distinct(s: seq<int>) {
    forall x :: multiset(s)[x] <= 1
  }

  lemma DistinctTail(s: seq<int>)
    requires |s| > 0 && Distinct(s)
    ensures Distinct(s[1..]) && s[0] !in s[1..]
  {
    assert s == [s[0]] + s[1..];
    assert multiset(s) == multiset{s[0]} + multiset(s[1..]);
    forall x ensures multiset(s[1..])[x] <= 1 {
      assert multiset(s[1..])[x] <= multiset(s)[x];
    }
    var x := s[0];
    assert multiset(s)[x] <= 1;
    assert multiset(s[1..])[x] == 0;
  }

  lemma DistinctByMultiset(a: seq<int>, b: seq<int>)
    requires Distinct(a) && multiset(a) == multiset(b)
    ensures Distinct(b)
  {
  }

  /** A rearrangement keeps every entry inside the matrix. */
  lemma InRangeByMultiset(a: seq<int>, b: seq<int>, n: int)
    requires InRange(a, n) && multiset(a) == multiset(b)
    ensures InRange(b, n)
  {
    forall i | 0 <= i < |b| ensures 0 <= b[i] < n {
      assert b[i] in multiset(b);
      assert b[i] in a;
    }
  }

  /** The draw at cursor d of the stream rng reduced to the range [0, n), as
      the optimiser's random(n) returns it. */
  function Draw(rng: nat -> nat, d: nat, n: int): (r: int)
    requires n > 0
    ensures 0 <= r < n
  {
    rng(d) % n
  }

  // ---------------------------------------------------------------------------
  // Hill climbing

  /** One iteration of the hill climber on positions a and b: equal positions
      change nothing; otherwise the swap is kept only if it strictly lowers the
      objective. */
  function ClimbStep(cost: seq<int> -> int, o: seq<int>, a: int, b: int): (r: seq<int>)
    requires 0 <= a < |o| && 0 <= b < |o|
    ensures |r| == |o|
    ensures a == b ==> r == o
  {
    if a == b then o
    else if cost(Swap(o, a, b)) < cost(o) then Swap(o, a, b)
    else o
  }

  /** One iteration never makes the objective worse. */
  lemma ClimbStepNeverWorse(cost: seq<int> -> int, o: seq<int>, a: int, b: int)
    requires 0 <= a < |o| && 0 <= b < |o|
    ensures cost(ClimbStep(cost, o, a, b)) <= cost(o)
  {
  }

  lemma ClimbStepSwapsOrKeeps(cost: seq<int> -> int, o: seq<int>, a: int, b: int)
    requires 0 <= a < |o| && 0 <= b < |o|
    ensures ClimbStep(cost, o, a, b) == o || ClimbStep(cost, o, a, b) == Swap(o, a, b)
  {
  }

  lemma ClimbStepPermutes(cost: seq<int> -> int, o: seq<int>, a: int, b: int)
    requires 0 <= a < |o| && 0 <= b < |o|
    ensures multiset(ClimbStep(cost, o, a, b)) == multiset(o)
  {
    SwapPermutes(o, a, b);
  }

  /** The ordering after `iters` iterations of the whole-ordering climber whose
      first iteration draws rng(d) and rng(d + 1), each reduced modulo |o|. */
  function Climb(cost: seq<int> -> int, o: seq<int>, rng: nat -> nat, d: nat, iters: nat): (r: seq<int>)
    requires |o| > 0
    ensures |r| == |o|
    decreases iters
  {
    if iters == 0 then o
    else Climb(cost, ClimbStep(cost, o, Draw(rng, d, |o|), Draw(rng, d + 1, |o|)), rng, d + 2, iters - 1)
  }

  /** The climber runs its first iteration, then the remaining ones from where it left the ordering and the draws. */
  lemma ClimbUnfold(cost: seq<int> -> int, o: seq<int>, o': seq<int>, rng: nat -> nat, d: nat, iters: nat)
    requires |o| > 0 && iters > 0
    requires o' == ClimbStep(cost, o, Draw(rng, d, |o|), Draw(rng, d + 1, |o|))
    ensures Climb(cost, o', rng, d + 2, iters - 1) == Climb(cost, o, rng, d, iters)
  {
  }

  /** Hill climbing only rearranges the ordering. */
  lemma {:induction false} ClimbPermutes(cost: seq<int> -> int, o: seq<int>, rng: nat -> nat, d: nat, iters: nat)
    requires |o| > 0
    ensures multiset(Climb(cost, o, rng, d, iters)) == multiset(o)
    decreases iters
  {
    if iters > 0 {
      var a, b := Draw(rng, d, |o|), Draw(rng, d + 1, |o|);
      ClimbStepPermutes(cost, o, a, b);
      ClimbPermutes(cost, ClimbStep(cost, o, a, b), rng, d + 2, iters - 1);
    }
  }

  /** Hill climbing never makes the objective worse. */
  lemma {:induction false} ClimbNeverWorse(cost: seq<int> -> int, o: seq<int>, rng: nat -> nat, d: nat, iters: nat)
    requires |o| > 0
    ensures cost(Climb(cost, o, rng, d, iters)) <= cost(o)
    decreases iters
  {
    if iters > 0 {
      var a, b := Draw(rng, d, |o|), Draw(rng, d + 1, |o|);
      ClimbStepNeverWorse(cost, o, a, b);
      ClimbNeverWorse(cost, ClimbStep(cost, o, a, b), rng, d + 2, iters - 1);
    }
  }

  // ---------------------------------------------------------------------------
  // Partition-restricted hill climbing

  /** The partition layout the partition-restricted climber accepts: at least one
      partition, a size for each, and every partition of size above one lies
      inside the ordering. */
  predicate PartitionsFit(begin: seq<int>, sizes: seq<int>, len: int) {
    && 0 < |begin| <= |sizes|
    && forall p :: 0 <= p < |begin| && sizes[p] > 1 ==> 0 <= begin[p] && begin[p] + sizes[p] <= len
  }

  /** Position k lies in partition p (of size above one). */
  predicate InPartition(begin: seq<int>, sizes: seq<int>, p: int, k: int)
    requires 0 <= p < |begin| <= |sizes|
  {
    sizes[p] > 1 && begin[p] <= k < begin[p] + sizes[p]
  }

  /** Position k lies in no partition of size above one. */
  predicate Outside(begin: seq<int>, sizes: seq<int>, k: int)
    requires |begin| <= |sizes|
  {
    forall p :: 0 <= p < |begin| ==> !InPartition(begin, sizes, p, k)
  }

  /** Any two partitions of size above one occupy disjoint position ranges. */
  predicate PairwiseDisjoint(begin: seq<int>, sizes: seq<int>)
    requires |begin| <= |sizes|
  {
    forall p, q :: 0 <= p < q < |begin| && sizes[p] > 1 && sizes[q] > 1 ==>
      begin[p] + sizes[p] <= begin[q] || begin[q] + sizes[q] <= begin[p]
  }

  /** One iteration of the partition-restricted climber starting at draw c:
      it draws a partition; a partition of size at most one ends the iteration
      after that single draw, otherwise two positions are drawn inside it. The
      second component is the next unused draw. */
  function PStep(cost: seq<int> -> int, o: seq<int>, begin: seq<int>, sizes: seq<int>, rng: nat -> nat, c: nat): (r: (seq<int>, nat))
    requires PartitionsFit(begin, sizes, |o|)
    ensures |r.0| == |o|
  {
    var p := Draw(rng, c, |begin|);
    if sizes[p] <= 1 then (o, c + 1)
    else
      var a := begin[p] + Draw(rng, c + 1, sizes[p]);
      var b := begin[p] + Draw(rng, c + 2, sizes[p]);
      (ClimbStep(cost, o, a, b), c + 3)
  }

  /** The ordering and the next unused draw after `iters` iterations of the
      partition-restricted climber starting at draw c. */
  function PClimb(cost: seq<int> -> int, o: seq<int>, begin: seq<int>, sizes: seq<int>, rng: nat -> nat, c: nat, iters: nat): (r: (seq<int>, nat))
    requires PartitionsFit(begin, sizes, |o|)
    ensures |r.0| == |o|
    decreases iters
  {
    if iters == 0 then (o, c)
    else
      var s := PStep(cost, o, begin, sizes, rng, c);
      PClimb(cost, s.0, begin, sizes, rng, s.1, iters - 1)
  }

  /** The draws one iteration consumes and the ordering it leaves, case by case. */
  lemma PStepCases(cost: seq<int> -> int, o: seq<int>, begin: seq<int>, sizes: seq<int>, rng: nat -> nat, c: nat)
    requires PartitionsFit(begin, sizes, |o|)
    ensures var p := Draw(rng, c, |begin|);
      sizes[p] <= 1 ==> PStep(cost, o, begin, sizes, rng, c) == (o, c + 1)
    ensures var p := Draw(rng, c, |begin|);
      sizes[p] > 1 ==>
        var a, b := begin[p] + Draw(rng, c + 1, sizes[p]), begin[p] + Draw(rng, c + 2, sizes[p]);
        PStep(cost, o, begin, sizes, rng, c) == (ClimbStep(cost, o, a, b), c + 3)
  {
  }

  /** The climber runs its first iteration, then the remaining ones from where it left the ordering and the draws. */
  lemma PClimbUnfold(cost: seq<int> -> int, o: seq<int>, begin: seq<int>, sizes: seq<int>, rng: nat -> nat, c: nat, iters: nat)
    requires PartitionsFit(begin, sizes, |o|) && iters > 0
    ensures var s := PStep(cost, o, begin, sizes, rng, c);
            PClimb(cost, o, begin, sizes, rng, c, iters) == PClimb(cost, s.0, begin, sizes, rng, s.1, iters - 1)
  {
  }

  /** The position pair one iteration may swap always lies inside a single partition. */
  lemma PStepSwapsInsidePartition(cost: seq<int> -> int, o: seq<int>, begin: seq<int>, sizes: seq<int>, rng: nat -> nat, c: nat)
    requires PartitionsFit(begin, sizes, |o|)
    ensures var r := PStep(cost, o, begin, sizes, rng, c).0;
            r == o || exists p, a, b :: 0 <= p < |begin| && InPartition(begin, sizes, p, a)
                                      && InPartition(begin, sizes, p, b) && r == Swap(o, a, b)
  {
    var p := Draw(rng, c, |begin|);
    if sizes[p] > 1 {
      var a := begin[p] + Draw(rng, c + 1, sizes[p]);
      var b := begin[p] + Draw(rng, c + 2, sizes[p]);
      assert InPartition(begin, sizes, p, a) && InPartition(begin, sizes, p, b);
      ClimbStepSwapsOrKeeps(cost, o, a, b);
    }
  }

  lemma PStepNeverWorse(cost: seq<int> -> int, o: seq<int>, begin: seq<int>, sizes: seq<int>, rng: nat -> nat, c: nat)
    requires PartitionsFit(begin, sizes, |o|)
    ensures cost(PStep(cost, o, begin, sizes, rng, c).0) <= cost(o)
  {
    var p := Draw(rng, c, |begin|);
    if sizes[p] > 1 {
      ClimbStepNeverWorse(cost, o, begin[p] + Draw(rng, c + 1, sizes[p]), begin[p] + Draw(rng, c + 2, sizes[p]));
    }
  }

  lemma PStepPermutes(cost: seq<int> -> int, o: seq<int>, begin: seq<int>, sizes: seq<int>, rng: nat -> nat, c: nat)
    requires PartitionsFit(begin, sizes, |o|)
    ensures multiset(PStep(cost, o, begin, sizes, rng, c).0) == multiset(o)
  {
    var p := Draw(rng, c, |begin|);
    if sizes[p] > 1 {
      ClimbStepPermutes(cost, o, begin[p] + Draw(rng, c + 1, sizes[p]), begin[p] + Draw(rng, c + 2, sizes[p]));
    }
  }

  /** The partition-restricted climber only rearranges the ordering. */
  lemma {:induction false} PClimbPermutes(cost: seq<int> -> int, o: seq<int>, begin: seq<int>, sizes: seq<int>, rng: nat -> nat, c: nat, iters: nat)
    requires PartitionsFit(begin, sizes, |o|)
    ensures multiset(PClimb(cost, o, begin, sizes, rng, c, iters).0) == multiset(o)
    decreases iters
  {
    if iters > 0 {
      var s := PStep(cost, o, begin, sizes, rng, c);
      PStepPermutes(cost, o, begin, sizes, rng, c);
      PClimbPermutes(cost, s.0, begin, sizes, rng, s.1, iters - 1);
    }
  }

  lemma {:induction false} PClimbNeverWorse(cost: seq<int> -> int, o: seq<int>, begin: seq<int>, sizes: seq<int>, rng: nat -> nat, c: nat, iters: nat)
    requires PartitionsFit(begin, sizes, |o|)
    ensures cost(PClimb(cost, o, begin, sizes, rng, c, iters).0) <= cost(o)
    decreases iters
  {
    if iters > 0 {
      var s := PStep(cost, o, begin, sizes, rng, c);
      PStepNeverWorse(cost, o, begin, sizes, rng, c);
      PClimbNeverWorse(cost, s.0, begin, sizes, rng, s.1, iters - 1);
    }
  }

  /** Positions outside every partition of size above one are never moved. */
  lemma {:induction false} PClimbKeepsOutside(cost: seq<int> -> int, o: seq<int>, begin: seq<int>, sizes: seq<int>, rng: nat -> nat, c: nat, iters: nat)
    requires PartitionsFit(begin, sizes, |o|)
    ensures forall k :: 0 <= k < |o| && Outside(begin, sizes, k) ==> PClimb(cost, o, begin, sizes, rng, c, iters).0[k] == o[k]
    decreases iters
  {
    if iters > 0 {
      var s := PStep(cost, o, begin, sizes, rng, c);
      PStepSwapsInsidePartition(cost, o, begin, sizes, rng, c);
      PClimbKeepsOutside(cost, s.0, begin, sizes, rng, s.1, iters - 1);
    }
  }

  /** A swap of two positions inside [lo, hi) keeps the multiset of that window;
      a swap of two positions outside it keeps the window itself. */
  lemma SwapWindow(o: seq<int>, a: int, b: int, lo: int, hi: int)
    requires 0 <= a < |o| && 0 <= b < |o| && 0 <= lo <= hi <= |o|
    ensures lo <= a < hi && lo <= b < hi ==> multiset(Swap(o, a, b)[lo..hi]) == multiset(o[lo..hi])
    ensures !(lo <= a < hi) && !(lo <= b < hi) ==> Swap(o, a, b)[lo..hi] == o[lo..hi]
  {
    if lo <= a < hi && lo <= b < hi {
      assert Swap(o, a, b)[lo..hi] == Swap(o[lo..hi], a - lo, b - lo);
      SwapPermutes(o[lo..hi], a - lo, b - lo);
    }
  }

  /** Every partition of size above one lies either inside the window [lo, hi) or entirely outside it. */
  predicate Closed(begin: seq<int>, sizes: seq<int>, lo: int, hi: int)
    requires |begin| <= |sizes|
  {
    forall q :: 0 <= q < |begin| && sizes[q] > 1 ==>
      (lo <= begin[q] && begin[q] + sizes[q] <= hi) || begin[q] + sizes[q] <= lo || hi <= begin[q]
  }

  /** The multiset of the values at positions lo to hi - 1 of x, built one position at a time. */
  function Window(x: seq<int>, lo: int, hi: int): multiset<int>
    requires 0 <= lo <= hi <= |x|
    decreases hi - lo
  {
    if hi == lo then multiset{} else Window(x, lo, hi - 1) + multiset{x[hi - 1]}
  }

  /** Window is the multiset of the slice x[lo..hi]. */
  lemma {:induction false} WindowIsSlice(x: seq<int>, lo: int, hi: int)
    requires 0 <= lo <= hi <= |x|
    ensures Window(x, lo, hi) == multiset(x[lo..hi])
    decreases hi - lo
  {
    if hi > lo {
      WindowIsSlice(x, lo, hi - 1);
      assert x[lo..hi] == x[lo..hi - 1] + [x[hi - 1]];
    }
  }

  /** Two sequences agree on the window exactly when their slices have the same multiset. */
  lemma SameWindow(x: seq<int>, y: seq<int>, lo: int, hi: int)
    requires 0 <= lo <= hi <= |x| && hi <= |y|
    ensures Window(x, lo, hi) == Window(y, lo, hi) <==> multiset(x[lo..hi]) == multiset(y[lo..hi])
  {
    WindowIsSlice(x, lo, hi);
    WindowIsSlice(y, lo, hi);
  }

  /** One iteration keeps the multiset of values in a window closed under the partitions. */
  lemma PStepKeepsWindow(cost: seq<int> -> int, o: seq<int>, begin: seq<int>, sizes: seq<int>, rng: nat -> nat, c: nat, lo: int, hi: int)
    requires PartitionsFit(begin, sizes, |o|) && 0 <= lo <= hi <= |o| && Closed(begin, sizes, lo, hi)
    ensures multiset(PStep(cost, o, begin, sizes, rng, c).0[lo..hi]) == multiset(o[lo..hi])
  {
    var q := Draw(rng, c, |begin|);
    if sizes[q] > 1 {
      var a := begin[q] + Draw(rng, c + 1, sizes[q]);
      var b := begin[q] + Draw(rng, c + 2, sizes[q]);
      var r := ClimbStep(cost, o, a, b);
      assert PStep(cost, o, begin, sizes, rng, c).0 == r;
      ClimbStepSwapsOrKeeps(cost, o, a, b);
      SwapWindow(o, a, b, lo, hi);
    } else {
      assert PStep(cost, o, begin, sizes, rng, c).0 == o;
    }
  }

  /** The climber keeps the multiset of values in a window closed under the partitions. */
  lemma {:induction false} PClimbKeepsWindow(cost: seq<int> -> int, o: seq<int>, begin: seq<int>, sizes: seq<int>, rng: nat -> nat, c: nat, iters: nat, lo: int, hi: int)
    requires PartitionsFit(begin, sizes, |o|) && 0 <= lo <= hi <= |o| && Closed(begin, sizes, lo, hi)
    ensures Window(PClimb(cost, o, begin, sizes, rng, c, iters).0, lo, hi) == Window(o, lo, hi)
    decreases iters
  {
    if iters > 0 {
      var s := PStep(cost, o, begin, sizes, rng, c);
      PStepKeepsWindow(cost, o, begin, sizes, rng, c, lo, hi);
      SameWindow(s.0, o, lo, hi);
      PClimbKeepsWindow(cost, s.0, begin, sizes, rng, s.1, iters - 1, lo, hi);
    }
  }

  /** With pairwise disjoint partitions, each partition's range is closed under the partitions. */
  lemma DisjointClosed(begin: seq<int>, sizes: seq<int>, p: int)
    requires |begin| <= |sizes| && PairwiseDisjoint(begin, sizes)
    requires 0 <= p < |begin| && sizes[p] > 1
    ensures Closed(begin, sizes, begin[p], begin[p] + sizes[p])
  {
  }

  /** With pairwise disjoint partitions, the climber only rearranges values inside each partition. */
  lemma PClimbKeepsBlock(cost: seq<int> -> int, o: seq<int>, begin: seq<int>, sizes: seq<int>, rng: nat -> nat, c: nat, iters: nat, p: int)
    requires PartitionsFit(begin, sizes, |o|) && PairwiseDisjoint(begin, sizes)
    requires 0 <= p < |begin| && sizes[p] > 1
    ensures Window(PClimb(cost, o, begin, sizes, rng, c, iters).0, begin[p], begin[p] + sizes[p])
            == Window(o, begin[p], begin[p] + sizes[p])
  {
    DisjointClosed(begin, sizes, p);
    PClimbKeepsWindow(cost, o, begin, sizes, rng, c, iters, begin[p], begin[p] + sizes[p]);
  }

  // ---------------------------------------------------------------------------
  // Random restarts

  /** The entries of s that do not occur in `used`, in their order in s. */
  function Unused(s: seq<int>, used: seq<int>): (r: seq<int>)
    ensures |r| <= |s|
  {
    if s == [] then []
    else (if s[0] in used then [] else [s[0]]) + Unused(s[1..], used)
  }

  /** In a sequence without repetitions, each unused value is left exactly once. */
  lemma {:induction false} UnusedCount(s: seq<int>, used: seq<int>, x: int)
    requires Distinct(s)
    ensures multiset(Unused(s, used))[x] == if x in s && x !in used then 1 else 0
  {
    if s != [] {
      DistinctTail(s);
      UnusedCount(s[1..], used, x);
      assert s == [s[0]] + s[1..];
    }
  }

  /** If `used` is drawn from s without repetition, exactly |s| - |used| values are unused. */
  lemma UnusedSize(s: seq<int>, used: seq<int>)
    requires Distinct(s) && multiset(used) <= multiset(s)
    ensures multiset(Unused(s, used)) == multiset(s) - multiset(used)
    ensures |Unused(s, used)| == |s| - |used|
  {
    forall x ensures multiset(Unused(s, used))[x] == (multiset(s) - multiset(used))[x] {
      UnusedCount(s, used, x);
      assert x in used <==> x in multiset(used);
    }
    assert multiset(Unused(s, used)) == multiset(s) - multiset(used);
    assert multiset(s) == (multiset(s) - multiset(used)) + multiset(used);
  }

  /** Skipping a used entry, or consuming an unused one, moves through the unused list. */
  lemma UnusedStep(s: seq<int>, used: seq<int>, pos: int)
    requires 0 <= pos < |s|
    ensures s[pos] in used ==> Unused(s[pos..], used) == Unused(s[pos + 1..], used)
    ensures s[pos] !in used ==> Unused(s[pos..], used) == [s[pos]] + Unused(s[pos + 1..], used)
  {
    assert s[pos..][1..] == s[pos + 1..];
  }

  /** `used` extended by the remaining k = |s| - |used| entries of the shuffled
      copy of s, the next one drawn at d: each new entry is the (rng(d) mod k)-th still unused
      entry of s. For s without repetitions that entry always exists (UnusedSize);
      the fallback s[0] only makes the function total. */
  function ShuffleFrom(s: seq<int>, used: seq<int>, rng: nat -> nat, d: nat, k: nat): (r: seq<int>)
    requires |used| + k == |s|
    ensures |r| == |s|
    decreases k
  {
    if k == 0 then used
    else
      var u := Unused(s, used);
      var j := Draw(rng, d, k);
      ShuffleFrom(s, used + [if j < |u| then u[j] else s[0]], rng, d + 1, k - 1)
  }

  /** The shuffled copy randomize builds from s, drawing from d on. */
  function Shuffle(s: seq<int>, rng: nat -> nat, d: nat): (r: seq<int>)
    ensures |r| == |s|
  {
    ShuffleFrom(s, [], rng, d, |s|)
  }

  /** For s without repetitions the pick is always an unused entry, so one step appends exactly it. */
  lemma ShuffleFromStep(s: seq<int>, used: seq<int>, rng: nat -> nat, d: nat, k: nat)
    requires Distinct(s) && multiset(used) <= multiset(s) && |used| + k == |s| && k > 0
    ensures var u := Unused(s, used);
            var j := Draw(rng, d, k);
            && j < |u|
            && multiset(used + [u[j]]) <= multiset(s)
            && ShuffleFrom(s, used, rng, d, k) == ShuffleFrom(s, used + [u[j]], rng, d + 1, k - 1)
  {
    UnusedSize(s, used);
    var u := Unused(s, used);
    var j := Draw(rng, d, k);
    assert u[j] in multiset(u);
  }

  /** For s without repetitions, every entry is drawn from s without repetition. */
  lemma {:induction false} ShuffleFromDrawsFromInput(s: seq<int>, used: seq<int>, rng: nat -> nat, d: nat, k: nat)
    requires Distinct(s) && multiset(used) <= multiset(s) && |used| + k == |s|
    ensures multiset(ShuffleFrom(s, used, rng, d, k)) <= multiset(s)
    decreases k
  {
    if k > 0 {
      ShuffleFromStep(s, used, rng, d, k);
      var u := Unused(s, used);
      var j := Draw(rng, d, k);
      ShuffleFromDrawsFromInput(s, used + [u[j]], rng, d + 1, k - 1);
    }
  }

  /** The shuffled copy randomize builds is a permutation of its input. */
  lemma ShuffleIsPermutation(s: seq<int>, rng: nat -> nat, d: nat)
    requires Distinct(s)
    ensures multiset(Shuffle(s, rng, d)) == multiset(s)
  {
    var r := Shuffle(s, rng, d);
    ShuffleFromDrawsFromInput(s, [], rng, d, |s|);
    assert multiset(s) == (multiset(s) - multiset(r)) + multiset(r);
    assert |multiset(s) - multiset(r)| == 0;
  }

  // ---------------------------------------------------------------------------
  // get_ordering

  /** Iterations per hill-climbing run and number of random restarts in get_ordering. */
  const ClimbIterations: nat := 50000
  const RestartCount: nat := 20

  /** Draws one restart consumes: the shuffle, then a hill-climbing run of `iters` iterations. */
  function RestartDraws(len: nat, iters: nat): nat {
    len + 2 * iters
  }

  /** One restart from the current best ordering o, starting at draw d: shuffle o,
      climb for `iters` iterations from the shuffled copy, and keep the result
      only if it is strictly better than o. */
  function Restart(cost: seq<int> -> int, o: seq<int>, rng: nat -> nat, d: nat, iters: nat): (r: seq<int>)
    requires |o| > 0
    ensures |r| == |o|
  {
    var cand := Climb(cost, Shuffle(o, rng, d), rng, d + |o|, iters);
    if cost(cand) < cost(o) then cand else o
  }

  /** A restart either keeps the current ordering or replaces it by a strictly better climbed shuffle. */
  lemma RestartStrictlyBetter(cost: seq<int> -> int, o: seq<int>, rng: nat -> nat, d: nat, iters: nat)
    requires |o| > 0
    ensures var r := Restart(cost, o, rng, d, iters);
            r == o || (cost(r) < cost(o) && r == Climb(cost, Shuffle(o, rng, d), rng, d + |o|, iters))
  {
  }

  lemma RestartPermutes(cost: seq<int> -> int, o: seq<int>, rng: nat -> nat, d: nat, iters: nat)
    requires |o| > 0 && Distinct(o)
    ensures multiset(Restart(cost, o, rng, d, iters)) == multiset(o)
  {
    ShuffleIsPermutation(o, rng, d);
    ClimbPermutes(cost, Shuffle(o, rng, d), rng, d + |o|, iters);
  }

  /** The best ordering after k further restarts from o, the next one starting at draw d. */
  function Restarts(cost: seq<int> -> int, o: seq<int>, rng: nat -> nat, d: nat, iters: nat, k: nat): (r: seq<int>)
    requires |o| > 0
    ensures |r| == |o|
    decreases k
  {
    if k == 0 then o
    else Restarts(cost, Restart(cost, o, rng, d, iters), rng, d + RestartDraws(|o|, iters), iters, k - 1)
  }

  /** After the first of k = k' + 1 restarts, leaving o' at draw next, the
      remaining k' restarts reach the same ordering as all k from o. */
  lemma RestartsStep(cost: seq<int> -> int, o: seq<int>, o': seq<int>, rng: nat -> nat, d: nat, next: nat, iters: nat, k: nat, k': nat)
    requires |o| > 0 && k == k' + 1
    requires o' == Restart(cost, o, rng, d, iters) && next == d + RestartDraws(|o|, iters)
    ensures Restarts(cost, o, rng, d, iters, k) == Restarts(cost, o', rng, next, iters, k')
  {
    assert k - 1 == k';
  }

  lemma {:induction false} RestartsNeverWorse(cost: seq<int> -> int, o: seq<int>, rng: nat -> nat, d: nat, iters: nat, k: nat)
    requires |o| > 0
    ensures cost(Restarts(cost, o, rng, d, iters, k)) <= cost(o)
    decreases k
  {
    if k > 0 {
      RestartStrictlyBetter(cost, o, rng, d, iters);
      RestartsNeverWorse(cost, Restart(cost, o, rng, d, iters), rng, d + RestartDraws(|o|, iters), iters, k - 1);
    }
  }

  lemma {:induction false} RestartsPermute(cost: seq<int> -> int, o: seq<int>, rng: nat -> nat, d: nat, iters: nat, k: nat)
    requires |o| > 0 && Distinct(o)
    ensures multiset(Restarts(cost, o, rng, d, iters, k)) == multiset(o)
    decreases k
  {
    if k > 0 {
      var p := Restart(cost, o, rng, d, iters);
      RestartPermutes(cost, o, rng, d, iters);
      DistinctByMultiset(o, p);
      RestartsPermute(cost, p, rng, d + RestartDraws(|o|, iters), iters, k - 1);
    }
  }

  /** The ordering get_ordering leaves behind when its first draw is d: one climb of
      `iters` iterations, then `restarts` restarts. */
  function GetOrderingResult(cost: seq<int> -> int, o: seq<int>, rng: nat -> nat, d: nat, iters: nat, restarts: nat): (r: seq<int>)
    requires |o| > 0
    ensures |r| == |o|
  {
    Restarts(cost, Climb(cost, o, rng, d, iters), rng, d + 2 * iters, iters, restarts)
  }

  /** get_ordering's first climb, then its restarts from the next draw on. */
  lemma GetOrderingUnfold(cost: seq<int> -> int, o: seq<int>, rng: nat -> nat, d: nat, iters: nat, restarts: nat, c: seq<int>, next: nat)
    requires |o| > 0 && c == Climb(cost, o, rng, d, iters) && next == d + 2 * iters
    ensures GetOrderingResult(cost, o, rng, d, iters, restarts) == Restarts(cost, c, rng, next, iters, restarts)
  {
  }

  /** get_ordering never ends with an ordering worse than its input. */
  lemma GetOrderingNeverWorse(cost: seq<int> -> int, o: seq<int>, rng: nat -> nat, d: nat, iters: nat, restarts: nat)
    requires |o| > 0
    ensures cost(GetOrderingResult(cost, o, rng, d, iters, restarts)) <= cost(o)
  {
    ClimbNeverWorse(cost, o, rng, d, iters);
    RestartsNeverWorse(cost, Climb(cost, o, rng, d, iters), rng, d + 2 * iters, iters, restarts);
  }

  /** For an ordering without repeated variables, get_ordering returns a permutation of it. */
  lemma GetOrderingPermutes(cost: seq<int> -> int, o: seq<int>, rng: nat -> nat, d: nat, iters: nat, restarts: nat)
    requires |o| > 0 && Distinct(o)
    ensures multiset(GetOrderingResult(cost, o, rng, d, iters, restarts)) == multiset(o)
  {
    var first := Climb(cost, o, rng, d, iters);
    ClimbPermutes(cost, o, rng, d, iters);
    DistinctByMultiset(o, first);
    RestartsPermute(cost, first, rng, d + 2 * iters, iters, restarts);
  }
}
