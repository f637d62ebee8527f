/** The binary encoding of finite-domain values into the entries of a
    diagram-variable assignment (set_binary_encoding and its center and
    leaf variants). An assignment holds one entry per diagram variable:
    0 or 1 when the variable is fixed, -1 when it is free. The diagram
    variables that encode a finite-domain variable are listed, lowest bit
    first, by varBits (vars_index_pre). */
module LookupEncoding {

  /** C++ `value >> pos` on an int: an arithmetic shift, that is division
      by 2^pos rounded down (Dafny's division by 2 rounds down). */
  function Shr(value: int, pos: nat): int
    decreases pos
  {
    if pos == 0 then value else Shr(value, pos - 1) / 2
  }

  /** C++ `x % 2` on an int: the remainder takes the sign of x. */
  function Rem2(x: int): int {
    if x >= 0 then x % 2 else -((-x) % 2)
  }

  /** The entry set_binary_encoding writes for the pos-th diagram variable
      of a value: `(value >> pos) % 2`. */
  function Bit(value: int, pos: nat): int {
    Rem2(Shr(value, pos))
  }

  /** 2 to the power n. */
  function Pow2(n: nat): (r: nat)
    ensures r > 0
  {
    if n == 0 then 1 else 2 * Pow2(n - 1)
  }

  /** A value of a natural is always a proper bit; a negative value would
      write -1, the mark of a free variable, or 0. */
  lemma {:induction false} BitRange(value: int, pos: nat)
    ensures value >= 0 ==> Bit(value, pos) == 0 || Bit(value, pos) == 1
    ensures value >= 0 ==> Shr(value, pos) >= 0
    ensures value < 0 ==> Bit(value, pos) == 0 || Bit(value, pos) == -1
    ensures value < 0 ==> Shr(value, pos) < 0
    decreases pos
  {
    if pos > 0 {
      BitRange(value, pos - 1);
    }
  }

  /** Shifting by one more is shifting the halved value. */
  lemma {:induction false} ShrHalf(value: int, pos: nat)
    ensures Shr(value / 2, pos) == Shr(value, pos + 1)
    decreases pos
  {
    if pos > 0 {
      ShrHalf(value, pos - 1);
    }
  }

  /** The first n bits of a value, lowest first. */
  function Bits(value: int, n: nat): (r: seq<int>)
    ensures |r| == n
    decreases n
  {
    if n == 0 then [] else [Rem2(value)] + Bits(value / 2, n - 1)
  }

  /** Bits lists, position by position, the entries set_binary_encoding
      writes. */
  lemma {:induction false} BitsAt(value: int, n: nat)
    ensures forall pos :: 0 <= pos < n ==> Bits(value, n)[pos] == Bit(value, pos)
    decreases n
  {
    if n > 0 {
      BitsAt(value / 2, n - 1);
      forall pos | 0 < pos < n
        ensures Bits(value, n)[pos] == Bit(value, pos)
      {
        ShrHalf(value, pos - 1);
      }
    }
  }

  /** The number a little-endian sequence of bits stands for. */
  function Decode(bits: seq<int>): int
    decreases |bits|
  {
    if bits == [] then 0 else bits[0] + 2 * Decode(bits[1..])
  }

  /** The bits of a natural below 2^n decode to that natural. */
  lemma {:induction false} DecodeBits(value: int, n: nat)
    requires 0 <= value < Pow2(n)
    ensures Decode(Bits(value, n)) == value
    decreases n
  {
    if n > 0 {
      DecodeBits(value / 2, n - 1);
      assert Bits(value, n)[1..] == Bits(value / 2, n - 1);
    }
  }

  /** The diagram variables lie inside an assignment of the given size. */
  predicate BitsIn(bits: seq<nat>, size: nat) {
    forall pos :: 0 <= pos < |bits| ==> bits[pos] < size
  }

  /** No diagram variable is listed twice. */
  predicate DistinctBits(bits: seq<nat>) {
    forall p, q :: 0 <= p < q < |bits| ==> bits[p] != bits[q]
  }

  /** The assignment after writing the bits of value, in order, into the
      listed diagram variables. */
  function Encode(a: seq<int>, bits: seq<nat>, value: int): (r: seq<int>)
    requires BitsIn(bits, |a|)
    ensures |r| == |a|
    decreases |bits|
  {
    if bits == [] then a
    else
      var k := |bits| - 1;
      Encode(a, bits[..k], value)[bits[k] := Bit(value, k)]
  }

  /** Writing a value touches only its own diagram variables. */
  lemma {:induction false} EncodeFrame(a: seq<int>, bits: seq<nat>, value: int)
    requires BitsIn(bits, |a|)
    ensures forall j :: 0 <= j < |a| && j !in bits ==> Encode(a, bits, value)[j] == a[j]
    decreases |bits|
  {
    if bits != [] {
      var k := |bits| - 1;
      EncodeFrame(a, bits[..k], value);
      forall j | 0 <= j < |a| && j !in bits
        ensures Encode(a, bits, value)[j] == a[j]
      {
        assert j !in bits[..k];
      }
    }
  }

  /** With distinct diagram variables, the pos-th one holds bit pos. */
  lemma {:induction false} EncodeSets(a: seq<int>, bits: seq<nat>, value: int)
    requires BitsIn(bits, |a|) && DistinctBits(bits)
    ensures forall pos :: 0 <= pos < |bits| ==> Encode(a, bits, value)[bits[pos]] == Bit(value, pos)
    decreases |bits|
  {
    if bits != [] {
      var k := |bits| - 1;
      EncodeSets(a, bits[..k], value);
    }
  }

  /** The entries of the listed diagram variables, in order. */
  function ReadBits(a: seq<int>, bits: seq<nat>): (r: seq<int>)
    requires BitsIn(bits, |a|)
    ensures |r| == |bits|
  {
    seq(|bits|, pos requires 0 <= pos < |bits| => a[bits[pos]])
  }

  /** Round trip: reading back the diagram variables of a value below
      2^|bits| and decoding them gives the value. */
  lemma EncodeRoundTrip(a: seq<int>, bits: seq<nat>, value: int)
    requires BitsIn(bits, |a|) && DistinctBits(bits)
    requires 0 <= value < Pow2(|bits|)
    ensures Decode(ReadBits(Encode(a, bits, value), bits)) == value
  {
    EncodeSets(a, bits, value);
    BitsAt(value, |bits|);
    assert ReadBits(Encode(a, bits, value), bits) == Bits(value, |bits|);
    DecodeBits(value, |bits|);
  }

  /** set_binary_encoding: writes the bits of the value into the diagram
      variables of the finite-domain variable, lowest bit first. */
  method SetBinaryEncoding(assignment: array<int>, varBits: seq<seq<nat>>, fdVar: nat, value: int)
    modifies assignment
    requires fdVar < |varBits| && BitsIn(varBits[fdVar], assignment.Length)
    ensures assignment[..] == Encode(old(assignment[..]), varBits[fdVar], value)
  {
    var bits := varBits[fdVar];
    for pos := 0 to |bits|
      invariant assignment[..] == Encode(old(assignment[..]), bits[..pos], value)
    {
      assert bits[..pos + 1][..pos] == bits[..pos];
      assignment[bits[pos]] := Rem2(Shr(value, pos));
    }
    assert bits[..|bits|] == bits;
  }

  /** The variables are finite-domain variables with a value each. */
  predicate VarsWithin(vars: seq<int>, numVars: nat, values: seq<int>) {
    forall k :: 0 <= k < |vars| ==> 0 <= vars[k] < numVars && vars[k] < |values|
  }

  /** The bits of every finite-domain variable fit the assignment. */
  predicate AllBitsIn(varBits: seq<seq<nat>>, size: nat) {
    forall v :: 0 <= v < |varBits| ==> BitsIn(varBits[v], size)
  }

  /** All diagram variables of all finite-domain variables lie inside an
      assignment of the given size, and no two bits share one. */
  ghost predicate Layout(varBits: seq<seq<nat>>, size: nat) {
    && AllBitsIn(varBits, size)
    && (forall v, p, w, q ::
          (0 <= v < |varBits| && 0 <= p < |varBits[v]| && 0 <= w < |varBits| && 0 <= q < |varBits[w]| && (v != w || p != q))
          ==> varBits[v][p] != varBits[w][q])
  }

  /** The assignment after encoding, one variable after the other, each
      listed variable with its value. */
  function EncodeVars(a: seq<int>, varBits: seq<seq<nat>>, vars: seq<int>, values: seq<int>): (r: seq<int>)
    requires AllBitsIn(varBits, |a|) && VarsWithin(vars, |varBits|, values)
    ensures |r| == |a|
    decreases |vars|
  {
    if vars == [] then a
    else
      var k := |vars| - 1;
      Encode(EncodeVars(a, varBits, vars[..k], values), varBits[vars[k]], values[vars[k]])
  }

  /** The diagram variable belongs to one of the listed variables. */
  predicate BitOf(varBits: seq<seq<nat>>, vars: seq<int>, j: nat)
    requires forall k :: 0 <= k < |vars| ==> 0 <= vars[k] < |varBits|
  {
    exists k :: 0 <= k < |vars| && j in varBits[vars[k]]
  }

  /** Encoding the listed variables touches only their diagram variables;
      set_binary_encoding_center leaves every leaf bit as it was. */
  lemma {:induction false} EncodeVarsFrame(a: seq<int>, varBits: seq<seq<nat>>, vars: seq<int>, values: seq<int>)
    requires AllBitsIn(varBits, |a|) && VarsWithin(vars, |varBits|, values)
    ensures forall j: nat :: j < |a| && !BitOf(varBits, vars, j) ==> EncodeVars(a, varBits, vars, values)[j] == a[j]
    decreases |vars|
  {
    if vars != [] {
      var k := |vars| - 1;
      var before := EncodeVars(a, varBits, vars[..k], values);
      EncodeVarsFrame(a, varBits, vars[..k], values);
      EncodeFrame(before, varBits[vars[k]], values[vars[k]]);
      forall j: nat | j < |a| && !BitOf(varBits, vars, j)
        ensures EncodeVars(a, varBits, vars, values)[j] == a[j]
      {
        assert j !in varBits[vars[k]];
      }
    }
  }

  /** With a proper layout, every listed variable's diagram variables hold
      the bits of its value. */
  lemma {:induction false} EncodeVarsSets(a: seq<int>, varBits: seq<seq<nat>>, vars: seq<int>, values: seq<int>)
    requires Layout(varBits, |a|) && VarsWithin(vars, |varBits|, values)
    ensures forall k, pos :: 0 <= k < |vars| && 0 <= pos < |varBits[vars[k]]| ==>
              EncodeVars(a, varBits, vars, values)[varBits[vars[k]][pos]] == Bit(values[vars[k]], pos)
    decreases |vars|
  {
    if vars != [] {
      var n := |vars| - 1;
      var w := vars[n];
      var before := EncodeVars(a, varBits, vars[..n], values);
      var after := EncodeVars(a, varBits, vars, values);
      EncodeVarsSets(a, varBits, vars[..n], values);
      EncodeFrame(before, varBits[w], values[w]);
      EncodeSets(before, varBits[w], values[w]);
      forall k, pos | 0 <= k < |vars| && 0 <= pos < |varBits[vars[k]]|
        ensures after[varBits[vars[k]][pos]] == Bit(values[vars[k]], pos)
      {
        if vars[k] != w {
          assert varBits[vars[k]][pos] !in varBits[w];
          assert vars[..n][k] == vars[k];
        }
      }
    }
  }

  /** set_binary_encoding_center: encodes every center variable with its
      value in the state. */
  method SetBinaryEncodingCenter(assignment: array<int>, varBits: seq<seq<nat>>, center: seq<int>, state: seq<int>)
    modifies assignment
    requires AllBitsIn(varBits, assignment.Length) && VarsWithin(center, |varBits|, state)
    ensures assignment[..] == EncodeVars(old(assignment[..]), varBits, center, state)
  {
    for k := 0 to |center|
      invariant assignment[..] == EncodeVars(old(assignment[..]), varBits, center[..k], state)
    {
      assert center[..k + 1][..k] == center[..k];
      SetBinaryEncoding(assignment, varBits, center[k], state[center[k]]);
    }
    assert center[..|center|] == center;
  }

  /** set_binary_encoding_leaf: encodes every variable of the leaf with its
      value in the leaf state. */
  method SetBinaryEncodingLeaf(assignment: array<int>, varBits: seq<seq<nat>>, leafVars: seq<int>, leafState: seq<int>)
    modifies assignment
    requires AllBitsIn(varBits, assignment.Length) && VarsWithin(leafVars, |varBits|, leafState)
    ensures assignment[..] == EncodeVars(old(assignment[..]), varBits, leafVars, leafState)
  {
    for k := 0 to |leafVars|
      invariant assignment[..] == EncodeVars(old(assignment[..]), varBits, leafVars[..k], leafState)
    {
      assert leafVars[..k + 1][..k] == leafVars[..k];
      SetBinaryEncoding(assignment, varBits, leafVars[k], leafState[leafVars[k]]);
    }
    assert leafVars[..|leafVars|] == leafVars;
  }
}
