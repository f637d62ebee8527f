/** The objective that the variable-ordering optimiser minimises: for an
    ordering of variables and an influence matrix, the sum of squared position
    distances over all pairs of positions whose variables influence each other.
    The main result, SwapCost, is the identity the hill climber relies on to
    update that sum incrementally when it swaps two positions. */
module OptOrderCost {
  import opened Sums

  /** Every row of the matrix is as long as the matrix has rows. */
  predicate IsSquareMatrix(m: seq<seq<int>>) {
    forall r :: 0 <= r < |m| ==> |m[r]| == |m|
  }

  /** The influence matrix is square and symmetric. */
  predicate Symmetric(m: seq<seq<int>>) {
    && IsSquareMatrix(m)
    && forall a, b :: 0 <= a < |m| && 0 <= b < |m| ==> m[a][b] == m[b][a]
  }

  /** Every entry of the ordering names a row of an n x n matrix. */
  predicate InRange(o: seq<int>, n: int) {
    forall i :: 0 <= i < |o| ==> 0 <= o[i] < n
  }

  /** The variables at positions i and j of o influence each other (a nonzero matrix entry). */
  predicate Linked(m: seq<seq<int>>, o: seq<int>, i: int, j: int) {
    && 0 <= i < |o| && 0 <= j < |o|
    && 0 <= o[i] < |m| && 0 <= o[j] < |m[o[i]]|
    && m[o[i]][o[j]] != 0
  }

  function Sq(x: int): int {
    x * x
  }

  /** The contribution of the position pair (i, j). */
  function Term(m: seq<seq<int>>, o: seq<int>, i: int, j: int): int {
    if Linked(m, o, i, j) then Sq(i - j) else 0
  }

  function Terms(m: seq<seq<int>>, o: seq<int>): (int, int) -> int {
    (i, j) => Term(m, o, i, j)
  }

  /** The contributions of the pairs (i, k) for i < k < j. */
  function RowCost(m: seq<seq<int>>, o: seq<int>, i: int, j: int): int
    decreases j - i
  {
    if j <= i + 1 then 0 else RowCost(m, o, i, j - 1) + Term(m, o, i, j - 1)
  }

  /** The contributions of the pairs (i, j) for 0 <= i < k and i < j < |o|. */
  function RowsCost(m: seq<seq<int>>, o: seq<int>, k: int): int
    decreases k
  {
    if k <= 0 then 0 else RowsCost(m, o, k - 1) + RowCost(m, o, k - 1, |o|)
  }

  /** The value compute_function returns: the sum over 0 <= i < |o| - 1 and
      i < j < |o| of (i - j)^2 for every linked pair. */
  function Cost(m: seq<seq<int>>, o: seq<int>): int {
    RowsCost(m, o, |o| - 1)
  }

  lemma {:induction false} RowCostIsSum(m: seq<seq<int>>, o: seq<int>, i: int, j: int)
    ensures RowCost(m, o, i, j) == Sum(i + 1, j, Row(Terms(m, o), i))
    decreases j - i
  {
    if j > i + 1 {
      RowCostIsSum(m, o, i, j - 1);
    }
  }

  lemma {:induction false} RowsCostIsSum(m: seq<seq<int>>, o: seq<int>, k: int)
    ensures RowsCost(m, o, k) == Sum(0, k, UpperRows(Terms(m, o), |o|))
    decreases k
  {
    if k > 0 {
      RowsCostIsSum(m, o, k - 1);
      RowCostIsSum(m, o, k - 1, |o|);
    }
  }

  /** The objective is the upper-triangle sum of the pair contributions. */
  lemma CostIsUpper(m: seq<seq<int>>, o: seq<int>)
    ensures Cost(m, o) == Sum(0, |o| - 1, UpperRows(Terms(m, o), |o|))
  {
    RowsCostIsSum(m, o, |o| - 1);
  }

  /** The ordering with the entries at positions a and b exchanged. */
  function Swap(o: seq<int>, a: int, b: int): (r: seq<int>)
    requires 0 <= a < |o| && 0 <= b < |o|
    ensures |r| == |o| && r[a] == o[b] && r[b] == o[a]
    ensures forall k :: 0 <= k < |o| && k != a && k != b ==> r[k] == o[k]
  {
    o[a := o[b]][b := o[a]]
  }

  /** A swap only rearranges the ordering. */
  lemma SwapPermutes(o: seq<int>, a: int, b: int)
    requires 0 <= a < |o| && 0 <= b < |o|
    ensures multiset(Swap(o, a, b)) == multiset(o)
  {
  }

  /** What the hill climber adds for position i when it evaluates the swap of
      positions a and b: a linked partner of the entry at a moves from
      distance |i - a| to |i - b|, and symmetrically for b. */
  function DeltaTerm(m: seq<seq<int>>, o: seq<int>, a: int, b: int, i: int): int {
    if i == a || i == b then 0
    else
      (if Linked(m, o, i, a) then Sq(i - b) - Sq(i - a) else 0)
      + (if Linked(m, o, i, b) then Sq(i - a) - Sq(i - b) else 0)
  }

  function DeltaTerms(m: seq<seq<int>>, o: seq<int>, a: int, b: int): int -> int {
    i => DeltaTerm(m, o, a, b, i)
  }

  /** The total change the hill climber computes for swapping positions a and b. */
  function Delta(m: seq<seq<int>>, o: seq<int>, a: int, b: int): int {
    Sum(0, |o|, DeltaTerms(m, o, a, b))
  }

  /** With a symmetric matrix, being linked does not depend on the order of the two positions. */
  lemma LinkedSymmetric(m: seq<seq<int>>, o: seq<int>, i: int, j: int)
    requires Symmetric(m) && InRange(o, |m|)
    ensures Linked(m, o, i, j) == Linked(m, o, j, i)
  {
  }

  lemma TermsSymmetric(m: seq<seq<int>>, o: seq<int>)
    requires Symmetric(m) && InRange(o, |m|)
    ensures forall i, j :: Terms(m, o)(i, j) == Terms(m, o)(j, i)
    ensures forall i :: Terms(m, o)(i, i) == 0
  {
    forall i, j ensures Terms(m, o)(i, j) == Terms(m, o)(j, i) {
      LinkedSymmetric(m, o, i, j);
      assert Sq(i - j) == Sq(j - i);
    }
  }

  /** The square sum of all position pairs is twice the objective. */
  lemma SquareIsTwiceCost(m: seq<seq<int>>, o: seq<int>)
    requires Symmetric(m) && InRange(o, |m|)
    ensures Square(Terms(m, o), |o|) == 2 * Cost(m, o)
  {
    TermsSymmetric(m, o);
    CostIsUpper(m, o);
    SquareIsTwiceUpper(Terms(m, o), |o|);
    if |o| > 0 {
      assert UpperRows(Terms(m, o), |o|)(|o| - 1) == 0;
    }
  }

  /** For a row k other than a and b, swapping a and b changes row k by DeltaTerm at k. */
  lemma SwapOtherRow(m: seq<seq<int>>, o: seq<int>, a: int, b: int, k: int)
    requires 0 <= a < |o| && 0 <= b < |o| && a != b
    requires 0 <= k < |o| && k != a && k != b
    ensures SquareRows(Terms(m, Swap(o, a, b)), |o|)(k)
         == SquareRows(Terms(m, o), |o|)(k) + DeltaTerm(m, o, a, b, k)
  {
    var o' := Swap(o, a, b);
    var t, t' := Terms(m, o), Terms(m, o');
    forall j | 0 <= j < |o| && j != a && j != b
      ensures Row(t, k)(j) == Row(t', k)(j)
    {
      assert Linked(m, o, k, j) == Linked(m, o', k, j);
    }
    SumTwoPoints(0, |o|, Row(t, k), Row(t', k), a, b);
    assert Linked(m, o', k, a) == Linked(m, o, k, b);
    assert Linked(m, o', k, b) == Linked(m, o, k, a);
  }

  /** At column j, rows a and b after the swap, against rows b and a before it, differ by DeltaTerm at j. */
  lemma SwapOwnRowsAt(m: seq<seq<int>>, o: seq<int>, a: int, b: int, j: int)
    requires Symmetric(m) && InRange(o, |m|)
    requires 0 <= a < |o| && 0 <= b < |o| && a != b && 0 <= j < |o|
    ensures DeltaTerm(m, o, a, b, j)
         == (Term(m, Swap(o, a, b), a, j) - Term(m, o, b, j)) + (Term(m, Swap(o, a, b), b, j) - Term(m, o, a, j))
  {
    var o' := Swap(o, a, b);
    LinkedSymmetric(m, o, j, a);
    LinkedSymmetric(m, o, j, b);
    LinkedSymmetric(m, o, a, b);
    if j != a && j != b {
      assert Linked(m, o', a, j) == Linked(m, o, b, j);
      assert Linked(m, o', b, j) == Linked(m, o, a, j);
    } else {
      assert Linked(m, o', a, b) == Linked(m, o, b, a);
      assert Linked(m, o', b, a) == Linked(m, o, a, b);
      assert Sq(a - b) == Sq(b - a);
    }
  }

  /** Rows a and b after the swap, against rows b and a before it, together differ by Delta. */
  lemma SwapOwnRows(m: seq<seq<int>>, o: seq<int>, a: int, b: int)
    requires Symmetric(m) && InRange(o, |m|)
    requires 0 <= a < |o| && 0 <= b < |o| && a != b
    ensures SquareRows(Terms(m, Swap(o, a, b)), |o|)(a) + SquareRows(Terms(m, Swap(o, a, b)), |o|)(b)
         == SquareRows(Terms(m, o), |o|)(a) + SquareRows(Terms(m, o), |o|)(b) + Delta(m, o, a, b)
  {
    var n := |o|;
    var o' := Swap(o, a, b);
    var t, t' := Terms(m, o), Terms(m, o');
    var ea := j => t'(a, j) - t(b, j);
    var eb := j => t'(b, j) - t(a, j);
    SumLinear(0, n, Row(t, b), ea, Row(t', a));
    SumLinear(0, n, Row(t, a), eb, Row(t', b));
    forall j | 0 <= j < n
      ensures DeltaTerms(m, o, a, b)(j) == ea(j) + eb(j)
    {
      SwapOwnRowsAt(m, o, a, b, j);
    }
    SumLinear(0, n, ea, eb, DeltaTerms(m, o, a, b));
  }

  /** The incremental update is exact: swapping positions a and b changes the
      objective by exactly the Delta the hill climber accumulates. */
  lemma SwapCost(m: seq<seq<int>>, o: seq<int>, a: int, b: int)
    requires Symmetric(m) && InRange(o, |m|)
    requires 0 <= a < |o| && 0 <= b < |o| && a != b
    ensures Cost(m, Swap(o, a, b)) == Cost(m, o) + Delta(m, o, a, b)
  {
    var n := |o|;
    var o' := Swap(o, a, b);
    var r, r' := SquareRows(Terms(m, o), n), SquareRows(Terms(m, o'), n);
    var q := k => r(k) + DeltaTerms(m, o, a, b)(k);
    forall k | 0 <= k < n && k != a && k != b
      ensures q(k) == r'(k)
    {
      SwapOtherRow(m, o, a, b, k);
    }
    SumTwoPoints(0, n, q, r', a, b);
    SumLinear(0, n, r, DeltaTerms(m, o, a, b), q);
    SwapOwnRows(m, o, a, b);
    SquareIsTwiceCost(m, o);
    SquareIsTwiceCost(m, o');
  }
}
