/** The state registry: it stores the packed data of every registered state
    in a pool whose index is the state's id, and a hash set of ids under
    semantic equality (two ids are equal when the first state_size bins of
    their records are), so that no state content is registered twice. A
    decoupled task has, besides, one pool and one such set per leaf factor,
    compared on that factor's number of bins. The bit packing that produces
    a record from variable values is outside this model: records arrive
    packed. The hash function's state (utils::HashState) is abstract: an
    initial value, a feed step per bin and the final get_hash32. */
module StateRegistries {
  import opened StateIds
  import opened Wrappers

  /** PackedStateBin: an unsigned int. */
  newtype Bin = x: int | 0 <= x < 0x1_0000_0000

  /** Identifier of a leaf state: the factor it belongs to and its index in
      that factor's pool. */
  datatype LeafStateId = LeafStateId(factor: nat, value: nat)

  /** The hash utils::HashState has after being fed the first size bins of
      data, from h0 on. */
  function Fed(h0: nat, feed: (nat, Bin) -> nat, data: seq<Bin>, size: nat): nat
    requires size <= |data|
    decreases size
  {
    if size == 0 then h0 else feed(Fed(h0, feed, data, size - 1), data[size - 1])
  }

  /** The hash depends on the first size bins only: records that agree on
      them hash alike, whatever follows. */
  lemma {:induction false} FedPrefix(h0: nat, feed: (nat, Bin) -> nat, a: seq<Bin>, b: seq<Bin>, size: nat)
    requires size <= |a| && size <= |b| && a[..size] == b[..size]
    ensures Fed(h0, feed, a, size) == Fed(h0, feed, b, size)
    decreases size
  {
    if size > 0 {
      assert a[..size - 1] == a[..size][..size - 1] && b[..size - 1] == b[..size][..size - 1];
      assert a[size - 1] == a[..size][size - 1] && b[size - 1] == b[..size][size - 1];
      FedPrefix(h0, feed, a, b, size - 1);
    }
  }

  /** The loop of the semantic hash functors: feed the first size bins, in
      order, then take get_hash32. */
  method HashBins(data: seq<Bin>, size: int, h0: nat, feed: (nat, Bin) -> nat, hash32: nat -> nat) returns (h: nat)
    requires 0 <= size <= |data|
    ensures h == hash32(Fed(h0, feed, data, size))
  {
    var hashState := h0;
    for i := 0 to size
      invariant hashState == Fed(h0, feed, data, i)
    {
      hashState := feed(hashState, data[i]);
    }
    h := hash32(hashState);
  }

  /** The first size bins of a and b agree. */
  predicate SameBins(a: seq<Bin>, b: seq<Bin>, size: nat)
    requires size <= |a| && size <= |b|
  {
    a[..size] == b[..size]
  }

  /** The pool and id set of one kind of registered state: the first n
      records are registered, each id being the index of its record, no two
      registered records agree on their first size bins, and every record
      is long enough to compare. */
  ghost predicate Indexed(pool: seq<seq<Bin>>, ids: set<nat>, size: nat, n: nat) {
    && n <= |pool|
    && (forall i :: 0 <= i < |pool| ==> size <= |pool[i]|)
    && (forall id :: id in ids ==> id < n)
    && (forall i :: 0 <= i < n ==> i in ids)
    && |ids| == n
    && (forall a, b :: a in ids && b in ids && a != b ==> !SameBins(pool[a], pool[b], size))
  }

  /** insert_id_or_pop_state, for a pool whose last record is the candidate
      just pushed: if a registered record has the candidate's content, the
      candidate is popped and that record's id is the answer; otherwise the
      candidate's index is registered and is the answer. The answer is the
      one registered id with the candidate's content. */
  method InsertOrPop(pool: seq<seq<Bin>>, ids: set<nat>, size: nat) returns (pool': seq<seq<Bin>>, ids': set<nat>, id: nat)
    requires |pool| > 0 && Indexed(pool, ids, size, |pool| - 1)
    ensures Indexed(pool', ids', size, |pool'|)
    ensures id in ids' && id < |pool'| && SameBins(pool'[id], pool[|pool| - 1], size)
    ensures forall e :: e in ids' && SameBins(pool'[e], pool[|pool| - 1], size) ==> e == id
    ensures (exists e :: e in ids && SameBins(pool[e], pool[|pool| - 1], size)) ==>
              pool' == pool[..|pool| - 1] && ids' == ids && id in ids
    ensures !(exists e :: e in ids && SameBins(pool[e], pool[|pool| - 1], size)) ==>
              pool' == pool && ids' == ids + {|pool| - 1} && id == |pool| - 1
  {
    var candidate := |pool| - 1;
    if e :| e in ids && SameBins(pool[e], pool[candidate], size) {
      pool', ids', id := pool[..candidate], ids, e;
    } else {
      assert candidate !in ids;
      pool', ids', id := pool, ids + {candidate}, candidate;
    }
  }

  class StateRegistry {
    /** The packed records of the registered states; index = state id. */
    var statePool: seq<seq<Bin>>
    /** The number of bins the semantic functors compare (state_size). */
    const stateSize: nat
    /** registered_states, by id value. */
    var registered: set<nat>
    /** One pool per leaf factor. */
    var leafPools: seq<seq<seq<Bin>>>
    /** state_sizes of the leaf functors: the bins of each leaf's packer when
        there is a factoring, and nothing otherwise. */
    const leafSizes: seq<nat>
    /** registered_leaf_states: one id set per leaf factor. */
    var registeredLeaves: seq<set<nat>>
    /** cached_initial_state, by id; None until the first request. */
    var cachedInitial: Option<StateId>

    ghost predicate LeavesValid()
      reads this
    {
      && |registeredLeaves| == |leafPools|
      && (leafSizes == [] || |leafSizes| == |leafPools|)
      && (forall f :: 0 <= f < |leafSizes| ==> Indexed(leafPools[f], registeredLeaves[f], leafSizes[f], |leafPools[f]|))
      && (forall f :: |leafSizes| <= f < |leafPools| ==> leafPools[f] == [] && registeredLeaves[f] == {})
    }

    ghost predicate Valid()
      reads this
    {
      && |statePool| <= SizeTLimit
      && Indexed(statePool, registered, stateSize, |statePool|)
      && LeavesValid()
      && (cachedInitial.Some? ==> cachedInitial.value.value as int in registered)
    }

    /** An empty registry for packed states of stateSize bins, with one empty
        pool and id set per leaf factor; the leaf functors know the leaves'
        sizes only when there is a factoring. */
    constructor (stateSize: nat, leafBins: seq<nat>, factoring: bool)
      ensures Valid()
      ensures this.stateSize == stateSize && statePool == [] && registered == {}
      ensures |leafPools| == |leafBins| && forall f :: 0 <= f < |leafBins| ==> leafPools[f] == []
      ensures |registeredLeaves| == |leafBins| && forall f :: 0 <= f < |leafBins| ==> registeredLeaves[f] == {}
      ensures leafSizes == if factoring then leafBins else []
      ensures cachedInitial == None
    {
      this.stateSize := stateSize;
      statePool := [];
      registered := {};
      leafPools := seq(|leafBins|, f => []);
      leafSizes := if factoring then leafBins else [];
      registeredLeaves := seq(|leafBins|, f => {});
      cachedInitial := None;
    }

    /** The record registered under an id (lookup_state without unpacking). */
    function LookupState(id: StateId): (record: seq<Bin>)
      reads this
      requires Valid() && id.value as int in registered
      ensures record == statePool[id.value] && stateSize <= |record|
    {
      statePool[id.value]
    }

    /** StateIDSemanticEqual: the first state_size bins of both records agree. */
    function SemanticEqual(lhs: StateId, rhs: StateId): (eq: bool)
      reads this
      requires Valid() && lhs.value as int in registered && rhs.value as int in registered
      ensures eq <==> forall i :: 0 <= i < stateSize ==> statePool[lhs.value][i] == statePool[rhs.value][i]
      ensures eq <==> lhs == rhs
    {
      assert lhs != rhs ==> lhs.value != rhs.value;
      var a, b := statePool[lhs.value], statePool[rhs.value];
      assert (forall i :: 0 <= i < stateSize ==> a[i] == b[i]) ==> a[..stateSize] == b[..stateSize];
      SameBins(a, b, stateSize)
    }

    /** StateIDSemanticHash: the hash of the first state_size bins. */
    method SemanticHash(id: StateId, h0: nat, feed: (nat, Bin) -> nat, hash32: nat -> nat) returns (h: nat)
      requires Valid() && id.value as int < |statePool|
      ensures h == hash32(Fed(h0, feed, statePool[id.value], stateSize))
    {
      h := HashBins(statePool[id.value], stateSize, h0, feed, hash32);
    }

    /** Semantically equal records hash equally, which is what lets the hash
        set find a registered state from its content. */
    lemma SemanticHashRespectsEqual(a: seq<Bin>, b: seq<Bin>, h0: nat, feed: (nat, Bin) -> nat)
      requires stateSize <= |a| && stateSize <= |b| && SameBins(a, b, stateSize)
      ensures Fed(h0, feed, a, stateSize) == Fed(h0, feed, b, stateSize)
    {
      FedPrefix(h0, feed, a, b, stateSize);
    }

    /** LeafStateIDSemanticEqual: both ids are of one factor, and their
        records in that factor's pool agree on the factor's number of bins. */
    function LeafSemanticEqual(lhs: LeafStateId, rhs: LeafStateId): (eq: bool)
      reads this
      requires Valid() && lhs.factor == rhs.factor && lhs.factor < |leafSizes|
      requires lhs.value in registeredLeaves[lhs.factor] && rhs.value in registeredLeaves[rhs.factor]
      ensures eq <==> forall i :: 0 <= i < leafSizes[lhs.factor] ==>
                        leafPools[lhs.factor][lhs.value][i] == leafPools[lhs.factor][rhs.value][i]
      ensures eq <==> lhs == rhs
    {
      var f := lhs.factor;
      assert Indexed(leafPools[f], registeredLeaves[f], leafSizes[f], |leafPools[f]|);
      var a, b := leafPools[f][lhs.value], leafPools[f][rhs.value];
      assert (forall i :: 0 <= i < leafSizes[f] ==> a[i] == b[i]) ==> a[..leafSizes[f]] == b[..leafSizes[f]];
      SameBins(a, b, leafSizes[f])
    }

    /** LeafStateIDSemanticHash: the hash of the factor's number of bins of
        the record in that factor's pool. */
    method LeafSemanticHash(id: LeafStateId, h0: nat, feed: (nat, Bin) -> nat, hash32: nat -> nat) returns (h: nat)
      requires Valid() && id.factor < |leafSizes| && id.value < |leafPools[id.factor]|
      ensures h == hash32(Fed(h0, feed, leafPools[id.factor][id.value], leafSizes[id.factor]))
    {
      assert Indexed(leafPools[id.factor], registeredLeaves[id.factor], leafSizes[id.factor], |leafPools[id.factor]|);
      h := HashBins(leafPools[id.factor][id.value], leafSizes[id.factor], h0, feed, hash32);
    }

    /** size(): the number of registered states, which is the number of
        records in the pool. */
    function Size(): (n: nat)
      reads this
      requires Valid()
      ensures n == |statePool|
    {
      |registered|
    }

    /** size(factor): the number of states registered for that leaf factor.
        Without a factoring the leaf functors have no sizes, no leaf state
        can be registered, and every leaf factor counts 0. */
    function LeafSize(factor: nat): (n: nat)
      reads this
      requires Valid() && factor < |registeredLeaves|
      ensures n == |leafPools[factor]|
      ensures factor >= |leafSizes| ==> n == 0
    {
      assert factor < |leafSizes| ==> Indexed(leafPools[factor], registeredLeaves[factor], leafSizes[factor], |leafPools[factor]|);
      |registeredLeaves[factor]|
    }

    /** Registering a packed state: the record is pushed onto the pool and
        insert_id_or_pop_state keeps it only if its content is new. The
        answer is the id of the registered state with that content. */
    method Register(record: seq<Bin>) returns (id: StateId)
      modifies this`statePool, this`registered
      requires Valid() && stateSize <= |record| && |statePool| < SizeTLimit
      ensures Valid()
      ensures id.value as int in registered && SameBins(statePool[id.value], record, stateSize)
      ensures forall e :: e in registered && SameBins(statePool[e], record, stateSize) ==> e == id.value as int
      ensures (exists e :: e in old(registered) && SameBins(old(statePool)[e], record, stateSize)) ==>
                statePool == old(statePool) && registered == old(registered)
      ensures !(exists e :: e in old(registered) && SameBins(old(statePool)[e], record, stateSize)) ==>
                statePool == old(statePool) + [record] && registered == old(registered) + {|old(statePool)|}
                && id.value as int == |old(statePool)|
    {
      var pushed := statePool + [record];
      assert pushed[..|statePool|] == statePool;
      var n;
      statePool, registered, n := InsertOrPop(pushed, registered, stateSize);
      id := StateId(n as SizeT);
    }

    /** Registering a packed leaf state of a factor, with
        insert_id_or_pop_leaf_state on that factor's pool: the other
        factors and the non-leaf states are untouched. */
    method RegisterLeaf(factor: nat, record: seq<Bin>) returns (id: LeafStateId)
      modifies this`leafPools, this`registeredLeaves
      requires Valid() && factor < |leafSizes| && leafSizes[factor] <= |record|
      ensures Valid()
      ensures |leafPools| == |old(leafPools)| && |registeredLeaves| == |old(registeredLeaves)|
      ensures forall f :: 0 <= f < |leafPools| && f != factor ==>
                leafPools[f] == old(leafPools[f]) && registeredLeaves[f] == old(registeredLeaves[f])
      ensures id.factor == factor && id.value in registeredLeaves[factor]
      ensures SameBins(leafPools[factor][id.value], record, leafSizes[factor])
      ensures forall e :: e in registeredLeaves[factor] && SameBins(leafPools[factor][e], record, leafSizes[factor]) ==> e == id.value
      ensures (exists e :: e in old(registeredLeaves[factor]) && SameBins(old(leafPools[factor])[e], record, leafSizes[factor])) ==>
                leafPools[factor] == old(leafPools[factor]) && registeredLeaves[factor] == old(registeredLeaves[factor])
      ensures !(exists e :: e in old(registeredLeaves[factor]) && SameBins(old(leafPools[factor])[e], record, leafSizes[factor])) ==>
                leafPools[factor] == old(leafPools[factor]) + [record]
                && registeredLeaves[factor] == old(registeredLeaves[factor]) + {|old(leafPools[factor])|}
                && id.value == |old(leafPools[factor])|
      ensures |registeredLeaves[factor]| <= |old(registeredLeaves[factor])| + 1
    {
      var pool, ids := leafPools[factor], registeredLeaves[factor];
      assert Indexed(pool, ids, leafSizes[factor], |pool|);
      var pushed := pool + [record];
      assert pushed[..|pool|] == pool;
      var pool', ids', n := InsertOrPop(pushed, ids, leafSizes[factor]);
      leafPools := leafPools[factor := pool'];
      registeredLeaves := registeredLeaves[factor := ids'];
      id := LeafStateId(factor, n);
    }

    /** get_initial_state: the first call registers the packed initial state
        and caches its id; every later call returns the cached id and
        registers nothing. */
    method GetInitialState(packedInitial: seq<Bin>) returns (id: StateId)
      modifies this`statePool, this`registered, this`cachedInitial
      requires Valid() && stateSize <= |packedInitial| && |statePool| < SizeTLimit
      ensures Valid() && cachedInitial == Some(id) && id.value as int in registered
      ensures old(cachedInitial).Some? ==>
                id == old(cachedInitial).value && statePool == old(statePool) && registered == old(registered)
      ensures old(cachedInitial).None? ==> SameBins(statePool[id.value], packedInitial, stateSize)
      ensures old(cachedInitial).None? ==>
                forall e :: e in registered && SameBins(statePool[e], packedInitial, stateSize) ==> e == id.value as int
      ensures old(cachedInitial).None? && (exists e :: e in old(registered) && SameBins(old(statePool)[e], packedInitial, stateSize)) ==>
                statePool == old(statePool) && registered == old(registered)
      ensures old(cachedInitial).None? && !(exists e :: e in old(registered) && SameBins(old(statePool)[e], packedInitial, stateSize)) ==>
                statePool == old(statePool) + [packedInitial] && registered == old(registered) + {|old(statePool)|}
                && id.value as int == |old(statePool)|
      ensures |registered| <= |old(registered)| + 1
    {
      if cachedInitial.None? {
        id := Register(packedInitial);
        cachedInitial := Some(id);
      }
      id := cachedInitial.value;
    }
  }
}
