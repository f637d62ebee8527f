/** Identifiers of registered states: a plain size_t index into the state
    registry's data pool. Equality and hashing look at the index only. */
module StateIds {

  const SizeTLimit: int := 0x1_0000_0000_0000_0000

  /** std::size_t on the 64-bit platforms the planner is built for. */
  newtype SizeT = x: int | 0 <= x < SizeTLimit

  /** A StateID is made only from an explicit value: the datatype has no
      default constructor of its own. */
  datatype StateId = StateId(value: SizeT)

  /** The sentinel for "no state". Its definition lives in state_id.cc,
      which is not part of this model; the model takes the size_t that
      StateID(-1) converts to, the largest one. */
  const NoState: StateId := StateId((SizeTLimit - 1) as SizeT)

  /** operator==: the ids hold the same value. */
  predicate Equal(a: StateId, b: StateId) {
    a.value == b.value
  }

  /** operator!=: the negation of operator==. */
  predicate NotEqual(a: StateId, b: StateId) {
    !Equal(a, b)
  }

  /** hash(): the value itself. */
  function Hash(id: StateId): SizeT {
    id.value
  }

  /** operator== is identity of ids, so it is an equivalence, and != holds
      exactly when the ids differ. */
  lemma EqualIsIdentity(a: StateId, b: StateId)
    ensures Equal(a, b) <==> a == b
    ensures NotEqual(a, b) <==> a != b
  {
  }

  /** Equal ids hash equally and, the hash being the value, ids with equal
      hashes are equal: no two distinct ids collide. */
  lemma HashAgreesWithEqual(a: StateId, b: StateId)
    ensures Equal(a, b) <==> Hash(a) == Hash(b)
  {
  }

  /** The sentinel equals no state id other than itself. */
  lemma NoStateDistinct(id: StateId)
    ensures Equal(id, NoState) <==> id.value == (SizeTLimit - 1) as SizeT
  {
  }
}
