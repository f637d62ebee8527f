/** mergeAux of the symbolic search utilities: a list of decision diagrams
    (or transition relations) is merged pairwise, round after round, until at
    most one element is left. A merge may fail (the diagram library throws
    BDDError when the result would exceed maxSize); a failed pair sets its
    larger element aside and carries the smaller one on. The element type,
    the merge and the node count are parameters: the merge answers None where
    the library throws. Only the behaviour without a time limit is modelled,
    which is what the three-argument merge asks for. */
module SymUtil {
  import opened Wrappers

  /** The odd-length fix of a round: the last two elements are merged into
      the place of the second-to-last one, or, when that fails, the last
      element is set aside. Either way one element fewer remains. */
  function EvenUp<T>(elems: seq<T>, f: (T, T, int) -> Option<T>, maxSize: int): (r: (seq<T>, seq<T>))
    requires |elems| >= 2
    ensures |r.0| == |elems| - 1
  {
    var last := |elems| - 1;
    match f(elems[last - 1], elems[last], maxSize)
    case Some(res) => (elems[..last - 1] + [res], [])
    case None => (elems[..last], [elems[last]])
  }

  /** The first k pairs (elems[2i], elems[2i+1]) of a round: what aux holds
      after them and what was set aside. A merged pair contributes its merge
      to aux; a failed one sends its element with the larger node count (the
      second on a tie) aside and keeps the other in aux. */
  function PairUp<T>(elems: seq<T>, f: (T, T, int) -> Option<T>, nodeCount: T -> int, maxSize: int, k: nat): (r: (seq<T>, seq<T>))
    requires 2 * k <= |elems|
    ensures |r.0| == k
    decreases k
  {
    if k == 0 then ([], [])
    else
      var (aux, aside) := PairUp(elems, f, nodeCount, maxSize, k - 1);
      var a, b := elems[2 * k - 2], elems[2 * k - 1];
      match f(a, b, maxSize)
      case Some(res) => (aux + [res], aside)
      case None =>
        if nodeCount(b) < nodeCount(a) then (aux + [b], aside + [a]) else (aux + [a], aside + [b])
  }

  /** One round: even up the length, then merge the pairs. The elements that
      go on are half as many as before (rounded down). */
  function Round<T>(elems: seq<T>, f: (T, T, int) -> Option<T>, nodeCount: T -> int, maxSize: int): (r: (seq<T>, seq<T>))
    requires |elems| > 1
    ensures |r.0| == |elems| / 2
  {
    var (even, aside) := if |elems| % 2 == 1 then EvenUp(elems, f, maxSize) else (elems, []);
    var (aux, aside') := PairUp(even, f, nodeCount, maxSize, |even| / 2);
    (aux, aside + aside')
  }

  /** Rounds until at most one element is left; the answer is everything set
      aside, in the order it was set aside, followed by what is left. */
  function Rounds<T>(elems: seq<T>, result: seq<T>, f: (T, T, int) -> Option<T>, nodeCount: T -> int, maxSize: int): seq<T>
    decreases |elems|
  {
    if |elems| <= 1 then result + elems
    else
      var (aux, aside) := Round(elems, f, nodeCount, maxSize);
      Rounds(aux, result + aside, f, nodeCount, maxSize)
  }

  /** What merge(elems, f, maxSize) leaves in elems. */
  function Merged<T>(elems: seq<T>, f: (T, T, int) -> Option<T>, nodeCount: T -> int, maxSize: int): seq<T> {
    if maxSize <= 1 || |elems| <= 1 then elems else Rounds(elems, [], f, nodeCount, maxSize)
  }

  /** mergeAux with no time limit (the three-argument merge): the while loop
      of rounds, each evening up the length and then merging pairs into aux,
      which is swapped into elems and emptied; aux is therefore empty when
      the loop ends and the final append of its elements adds nothing. */
  method Merge<T>(elems: seq<T>, f: (T, T, int) -> Option<T>, nodeCount: T -> int, maxSize: int) returns (out: seq<T>)
    ensures out == Merged(elems, f, nodeCount, maxSize)
    ensures maxSize <= 1 || |elems| <= 1 ==> out == elems
  {
    if maxSize <= 1 || |elems| <= 1 {
      return elems;
    }
    var result: seq<T> := [];
    var cur := elems;
    var aux: seq<T> := [];
    while |cur| > 1
      invariant aux == []
      invariant Rounds(cur, result, f, nodeCount, maxSize) == Rounds(elems, [], f, nodeCount, maxSize)
      decreases |cur|
    {
      ghost var before, resultBefore := cur, result;
      var aside: seq<T> := [];
      if |cur| % 2 == 1 {
        var last := |cur| - 1;
        var res := f(cur[last - 1], cur[last], maxSize);
        if res.Some? {
          cur := cur[..last - 1] + [res.value];
        } else {
          aside := [cur[last]];
          cur := cur[..last];
        }
      }
      assert (cur, aside) == if |before| % 2 == 1 then EvenUp(before, f, maxSize) else (before, []);
      cur, aux, aside := MergePairs(cur, f, nodeCount, maxSize, aside);
      result := result + aside;
      assert (cur, result) == (Round(before, f, nodeCount, maxSize).0, resultBefore + Round(before, f, nodeCount, maxSize).1);
    }
    out := result + cur;
    if aux != [] {
      out := out + aux;
    }
  }

  /** The pair loop of a round (i = 1, 3, 5, ...), starting from what the
      odd-length fix set aside; aux takes the place of elems and is emptied. */
  method MergePairs<T>(elems: seq<T>, f: (T, T, int) -> Option<T>, nodeCount: T -> int, maxSize: int, aside0: seq<T>)
    returns (next: seq<T>, aux: seq<T>, aside: seq<T>)
    requires |elems| % 2 == 0
    ensures next == PairUp(elems, f, nodeCount, maxSize, |elems| / 2).0 && aux == []
    ensures aside == aside0 + PairUp(elems, f, nodeCount, maxSize, |elems| / 2).1
  {
    aux, aside := [], aside0;
    var i := 1;
    while i < |elems|
      invariant 1 <= i <= |elems| + 1 && i % 2 == 1
      invariant aux == PairUp(elems, f, nodeCount, maxSize, (i - 1) / 2).0
      invariant aside == aside0 + PairUp(elems, f, nodeCount, maxSize, (i - 1) / 2).1
      decreases |elems| - i
    {
      var res := f(elems[i - 1], elems[i], maxSize);
      if res.Some? {
        aux := aux + [res.value];
      } else if nodeCount(elems[i]) < nodeCount(elems[i - 1]) {
        aside := aside + [elems[i - 1]];
        aux := aux + [elems[i]];
      } else {
        aside := aside + [elems[i]];
        aux := aux + [elems[i - 1]];
      }
      i := i + 2;
    }
    next, aux := aux, [];
  }

  // ---------------------------------------------------------------------------
  // What the merge promises

  /** The union of the contents of a list of elements. */
  ghost function UnionOf<T, A>(atoms: T -> set<A>, s: seq<T>): set<A>
    decreases |s|
  {
    if s == [] then {} else UnionOf(atoms, s[..|s| - 1]) + atoms(s[|s| - 1])
  }

  lemma {:induction false} UnionOfAppend<T, A>(atoms: T -> set<A>, s: seq<T>, t: seq<T>)
    ensures UnionOf(atoms, s + t) == UnionOf(atoms, s) + UnionOf(atoms, t)
    decreases |t|
  {
    if t != [] {
      var k := |t| - 1;
      assert (s + t)[..|s + t| - 1] == s + t[..k];
      assert (s + t)[|s + t| - 1] == t[k];
      UnionOfAppend(atoms, s, t[..k]);
      assert UnionOf(atoms, s + t) == UnionOf(atoms, s + t[..k]) + atoms(t[k]);
    } else {
      assert s + t == s;
    }
  }

  /** A successful merge holds exactly the contents of the two merged
      elements (a disjunction of state sets, a conjunction of relations...). */
  ghost predicate MergeUnites<T(!new), A>(f: (T, T, int) -> Option<T>, maxSize: int, atoms: T -> set<A>) {
    forall a, b :: f(a, b, maxSize).Some? ==> atoms(f(a, b, maxSize).value) == atoms(a) + atoms(b)
  }

  lemma {:induction false} EvenUpKeepsContents<T(!new), A>(elems: seq<T>, f: (T, T, int) -> Option<T>, maxSize: int, atoms: T -> set<A>)
    requires |elems| >= 2 && MergeUnites(f, maxSize, atoms)
    ensures var (even, aside) := EvenUp(elems, f, maxSize);
            UnionOf(atoms, even) + UnionOf(atoms, aside) == UnionOf(atoms, elems)
  {
    var last := |elems| - 1;
    var init := elems[..last - 1];
    assert elems == init + [elems[last - 1], elems[last]];
    UnionOfAppend(atoms, init, [elems[last - 1], elems[last]]);
    UnionOfAppend(atoms, init, [elems[last - 1]]);
    assert UnionOf(atoms, [elems[last - 1], elems[last]]) == atoms(elems[last - 1]) + atoms(elems[last]) by {
      assert [elems[last - 1], elems[last]][..1] == [elems[last - 1]];
    }
    assert elems[..last] == init + [elems[last - 1]];
    assert UnionOf(atoms, [elems[last]]) == atoms(elems[last]) by {
      assert [elems[last]][..0] == [];
    }
  }

  lemma {:induction false} PairUpKeepsContents<T(!new), A>(elems: seq<T>, f: (T, T, int) -> Option<T>, nodeCount: T -> int, maxSize: int, atoms: T -> set<A>, k: nat)
    requires 2 * k <= |elems| && MergeUnites(f, maxSize, atoms)
    ensures var (aux, aside) := PairUp(elems, f, nodeCount, maxSize, k);
            UnionOf(atoms, aux) + UnionOf(atoms, aside) == UnionOf(atoms, elems[..2 * k])
    decreases k
  {
    if k > 0 {
      PairUpKeepsContents(elems, f, nodeCount, maxSize, atoms, k - 1);
      PairPrefix(atoms, elems, k);
      PairStep(elems, f, nodeCount, maxSize, atoms, k);
    }
  }

  lemma PairPrefix<T, A>(atoms: T -> set<A>, elems: seq<T>, k: nat)
    requires 1 <= k && 2 * k <= |elems|
    ensures UnionOf(atoms, elems[..2 * k]) == UnionOf(atoms, elems[..2 * k - 2]) + atoms(elems[2 * k - 2]) + atoms(elems[2 * k - 1])
  {
    assert elems[..2 * k] == elems[..2 * k - 1] + [elems[2 * k - 1]];
    assert elems[..2 * k - 1] == elems[..2 * k - 2] + [elems[2 * k - 2]];
    UnionOfSnoc(atoms, elems[..2 * k - 1], elems[2 * k - 1]);
    UnionOfSnoc(atoms, elems[..2 * k - 2], elems[2 * k - 2]);
  }

  lemma PairStep<T(!new), A>(elems: seq<T>, f: (T, T, int) -> Option<T>, nodeCount: T -> int, maxSize: int, atoms: T -> set<A>, k: nat)
    requires 1 <= k && 2 * k <= |elems| && MergeUnites(f, maxSize, atoms)
    ensures var (aux, aside) := PairUp(elems, f, nodeCount, maxSize, k - 1);
            var (aux', aside') := PairUp(elems, f, nodeCount, maxSize, k);
            UnionOf(atoms, aux') + UnionOf(atoms, aside') == UnionOf(atoms, aux) + UnionOf(atoms, aside) + atoms(elems[2 * k - 2]) + atoms(elems[2 * k - 1])
  {
    var (aux, aside) := PairUp(elems, f, nodeCount, maxSize, k - 1);
    var a, b := elems[2 * k - 2], elems[2 * k - 1];
    match f(a, b, maxSize)
    case Some(res) =>
      UnionOfSnoc(atoms, aux, res);
    case None =>
      UnionOfSnoc(atoms, aux, a);
      UnionOfSnoc(atoms, aux, b);
      UnionOfSnoc(atoms, aside, a);
      UnionOfSnoc(atoms, aside, b);
  }

  lemma {:induction false} UnionOfSnoc<T, A>(atoms: T -> set<A>, s: seq<T>, x: T)
    ensures UnionOf(atoms, s + [x]) == UnionOf(atoms, s) + atoms(x)
  {
    assert (s + [x])[..|s|] == s;
  }

  lemma {:induction false} RoundKeepsContents<T(!new), A>(elems: seq<T>, f: (T, T, int) -> Option<T>, nodeCount: T -> int, maxSize: int, atoms: T -> set<A>)
    requires |elems| > 1 && MergeUnites(f, maxSize, atoms)
    ensures var (aux, aside) := Round(elems, f, nodeCount, maxSize);
            UnionOf(atoms, aux) + UnionOf(atoms, aside) == UnionOf(atoms, elems)
  {
    var (even, aside) := if |elems| % 2 == 1 then EvenUp(elems, f, maxSize) else (elems, []);
    if |elems| % 2 == 1 {
      EvenUpKeepsContents(elems, f, maxSize, atoms);
    } else {
      assert UnionOf(atoms, aside) == {};
    }
    PairUpKeepsContents(even, f, nodeCount, maxSize, atoms, |even| / 2);
    assert even[..2 * (|even| / 2)] == even;
    var (aux, aside') := PairUp(even, f, nodeCount, maxSize, |even| / 2);
    UnionOfAppend(atoms, aside, aside');
  }

  lemma {:induction false} RoundsKeepContents<T(!new), A>(elems: seq<T>, result: seq<T>, f: (T, T, int) -> Option<T>, nodeCount: T -> int, maxSize: int, atoms: T -> set<A>)
    requires MergeUnites(f, maxSize, atoms)
    ensures UnionOf(atoms, Rounds(elems, result, f, nodeCount, maxSize)) == UnionOf(atoms, result) + UnionOf(atoms, elems)
    decreases |elems|
  {
    if |elems| <= 1 {
      UnionOfAppend(atoms, result, elems);
    } else {
      var (aux, aside) := Round(elems, f, nodeCount, maxSize);
      RoundKeepsContents(elems, f, nodeCount, maxSize, atoms);
      RoundsKeepContents(aux, result + aside, f, nodeCount, maxSize, atoms);
      UnionOfAppend(atoms, result, aside);
    }
  }

  /** Merging loses and invents nothing: the elements after the merge hold
      together exactly what the elements before it held. */
  lemma {:induction false} MergeKeepsContents<T(!new), A>(elems: seq<T>, f: (T, T, int) -> Option<T>, nodeCount: T -> int, maxSize: int, atoms: T -> set<A>)
    requires MergeUnites(f, maxSize, atoms)
    ensures UnionOf(atoms, Merged(elems, f, nodeCount, maxSize)) == UnionOf(atoms, elems)
  {
    if !(maxSize <= 1 || |elems| <= 1) {
      RoundsKeepContents(elems, [], f, nodeCount, maxSize, atoms);
      assert UnionOf(atoms, []) == {};
    }
  }

  /** The rounds never add elements, and a nonempty list stays nonempty. */
  lemma {:induction false} RoundsLength<T>(elems: seq<T>, result: seq<T>, f: (T, T, int) -> Option<T>, nodeCount: T -> int, maxSize: int)
    ensures |result| + (if elems == [] then 0 else 1) <= |Rounds(elems, result, f, nodeCount, maxSize)| <= |result| + |elems|
    decreases |elems|
  {
    if |elems| > 1 {
      var (aux, aside) := Round(elems, f, nodeCount, maxSize);
      RoundLength(elems, f, nodeCount, maxSize);
      RoundsLength(aux, result + aside, f, nodeCount, maxSize);
    }
  }

  /** A round keeps every element it does not merge: what goes on and what
      is set aside are at least half the elements, and at most all of them
      less one merge per pair that succeeded. */
  lemma {:induction false} RoundLength<T>(elems: seq<T>, f: (T, T, int) -> Option<T>, nodeCount: T -> int, maxSize: int)
    requires |elems| > 1
    ensures var (aux, aside) := Round(elems, f, nodeCount, maxSize);
            |aux| + |aside| <= |elems|
  {
    var (even, aside) := if |elems| % 2 == 1 then EvenUp(elems, f, maxSize) else (elems, []);
    assert |even| + |aside| <= |elems|;
    PairUpLength(even, f, nodeCount, maxSize, |even| / 2);
  }

  lemma {:induction false} PairUpLength<T>(elems: seq<T>, f: (T, T, int) -> Option<T>, nodeCount: T -> int, maxSize: int, k: nat)
    requires 2 * k <= |elems|
    ensures |PairUp(elems, f, nodeCount, maxSize, k).1| <= k
    decreases k
  {
    if k > 0 {
      PairUpLength(elems, f, nodeCount, maxSize, k - 1);
    }
  }

  /** The merge always succeeds at this size. */
  ghost predicate NeverFails<T(!new)>(f: (T, T, int) -> Option<T>, maxSize: int) {
    forall a, b :: f(a, b, maxSize).Some?
  }

  lemma {:induction false} PairUpNoAside<T(!new)>(elems: seq<T>, f: (T, T, int) -> Option<T>, nodeCount: T -> int, maxSize: int, k: nat)
    requires 2 * k <= |elems| && NeverFails(f, maxSize)
    ensures PairUp(elems, f, nodeCount, maxSize, k).1 == []
    decreases k
  {
    if k > 0 {
      PairUpNoAside(elems, f, nodeCount, maxSize, k - 1);
      assert f(elems[2 * k - 2], elems[2 * k - 1], maxSize).Some?;
    }
  }

  lemma {:induction false} RoundsNoAside<T(!new)>(elems: seq<T>, result: seq<T>, f: (T, T, int) -> Option<T>, nodeCount: T -> int, maxSize: int)
    requires |elems| > 0 && NeverFails(f, maxSize)
    ensures var r := Rounds(elems, result, f, nodeCount, maxSize); |r| == |result| + 1 && r[..|result|] == result
    decreases |elems|
  {
    if |elems| > 1 {
      var even := if |elems| % 2 == 1 then EvenUp(elems, f, maxSize).0 else elems;
      if |elems| % 2 == 1 {
        var last := |elems| - 1;
        assert f(elems[last - 1], elems[last], maxSize).Some?;
      }
      PairUpNoAside(even, f, nodeCount, maxSize, |even| / 2);
      var (aux, aside) := Round(elems, f, nodeCount, maxSize);
      assert aside == [];
      assert result + aside == result;
      RoundsNoAside(aux, result, f, nodeCount, maxSize);
    }
  }

  /** When no merge fails, a nonempty list is merged into exactly one
      element. */
  lemma {:induction false} MergeAllSucceed<T(!new)>(elems: seq<T>, f: (T, T, int) -> Option<T>, nodeCount: T -> int, maxSize: int)
    requires |elems| > 0 && maxSize > 1 && NeverFails(f, maxSize)
    ensures |Merged(elems, f, nodeCount, maxSize)| == 1
  {
    if |elems| > 1 {
      RoundsNoAside(elems, [], f, nodeCount, maxSize);
    }
  }

  /** Merging shortens the list or leaves its length, and never empties a
      nonempty one. */
  lemma {:induction false} MergeLength<T>(elems: seq<T>, f: (T, T, int) -> Option<T>, nodeCount: T -> int, maxSize: int)
    ensures |Merged(elems, f, nodeCount, maxSize)| <= |elems|
    ensures elems != [] ==> Merged(elems, f, nodeCount, maxSize) != []
  {
    if !(maxSize <= 1 || |elems| <= 1) {
      RoundsLength(elems, [], f, nodeCount, maxSize);
    }
  }
}
