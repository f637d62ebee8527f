/** Finite sums of integer-valued functions over half-open integer ranges,
    and the identity between the full square sum and the upper triangle of a
    symmetric pair function with a zero diagonal. */
module Sums {

  /** The sum of f(k) for lo <= k < hi (zero when the range is empty). */
  function Sum(lo: int, hi: int, f: int -> int): int
    decreases hi - lo
  {
    if hi <= lo then 0 else Sum(lo, hi - 1, f) + f(hi - 1)
  }

  /** Sums over a range only depend on the values inside that range. */
  lemma {:induction false} SumExt(lo: int, hi: int, f: int -> int, g: int -> int)
    requires forall k :: lo <= k < hi ==> f(k) == g(k)
    ensures Sum(lo, hi, f) == Sum(lo, hi, g)
    decreases hi - lo
  {
    if lo < hi {
      SumExt(lo, hi - 1, f, g);
    }
  }

  /** A pointwise sum of functions sums to the sum of the sums. */
  lemma {:induction false} SumLinear(lo: int, hi: int, f: int -> int, g: int -> int, h: int -> int)
    requires forall k :: lo <= k < hi ==> h(k) == f(k) + g(k)
    ensures Sum(lo, hi, h) == Sum(lo, hi, f) + Sum(lo, hi, g)
    decreases hi - lo
  {
    if lo < hi {
      SumLinear(lo, hi - 1, f, g, h);
    }
  }

  /** Changing a function at one point of the range changes the sum by the difference there. */
  lemma {:induction false} SumOnePoint(lo: int, hi: int, f: int -> int, g: int -> int, a: int)
    requires lo <= a < hi
    requires forall k :: lo <= k < hi && k != a ==> f(k) == g(k)
    ensures Sum(lo, hi, g) == Sum(lo, hi, f) + (g(a) - f(a))
    decreases hi - lo
  {
    if hi - 1 == a {
      SumExt(lo, hi - 1, f, g);
    } else {
      SumOnePoint(lo, hi - 1, f, g, a);
    }
  }

  /** Changing a function at two distinct points of the range changes the sum by both differences. */
  lemma SumTwoPoints(lo: int, hi: int, f: int -> int, g: int -> int, a: int, b: int)
    requires lo <= a < hi && lo <= b < hi && a != b
    requires forall k :: lo <= k < hi && k != a && k != b ==> f(k) == g(k)
    ensures Sum(lo, hi, g) == Sum(lo, hi, f) + (g(a) - f(a)) + (g(b) - f(b))
  {
    var mid := k => if k == a then g(a) else f(k);
    SumOnePoint(lo, hi, f, mid, a);
    SumOnePoint(lo, hi, mid, g, b);
  }

  /** Row i of a pair function. */
  function Row(t: (int, int) -> int, i: int): int -> int {
    j => t(i, j)
  }

  /** Column j of a pair function. */
  function Col(t: (int, int) -> int, j: int): int -> int {
    i => t(i, j)
  }

  /** Row sums over the whole n x n square. */
  function SquareRows(t: (int, int) -> int, n: int): int -> int {
    i => Sum(0, n, Row(t, i))
  }

  /** Row sums strictly right of the diagonal, inside the n x n square. */
  function UpperRows(t: (int, int) -> int, n: int): int -> int {
    i => Sum(i + 1, n, Row(t, i))
  }

  /** The sum of t(i, j) over all 0 <= i, j < n. */
  function Square(t: (int, int) -> int, n: int): int {
    Sum(0, n, SquareRows(t, n))
  }

  /** The sum of t(i, j) over all 0 <= i < j < n. */
  function Upper(t: (int, int) -> int, n: int): int {
    Sum(0, n, UpperRows(t, n))
  }

  /** For a symmetric pair function with a zero diagonal, the square sum
      counts every pair above the diagonal exactly twice. */
  lemma {:induction false} SquareIsTwiceUpper(t: (int, int) -> int, n: nat)
    requires forall i, j :: t(i, j) == t(j, i)
    requires forall i :: t(i, i) == 0
    ensures Square(t, n) == 2 * Upper(t, n)
  {
    if n > 0 {
      var m := n - 1;
      SquareIsTwiceUpper(t, m);
      forall k | 0 <= k < m
        ensures SquareRows(t, n)(k) == SquareRows(t, m)(k) + Col(t, m)(k)
        ensures UpperRows(t, n)(k) == UpperRows(t, m)(k) + Col(t, m)(k)
      {
      }
      SumLinear(0, m, SquareRows(t, m), Col(t, m), SquareRows(t, n));
      SumLinear(0, m, UpperRows(t, m), Col(t, m), UpperRows(t, n));
      SumExt(0, m, Row(t, m), Col(t, m));
      assert SquareRows(t, n)(m) == Sum(0, m, Row(t, m)) + t(m, m);
      assert UpperRows(t, n)(m) == 0;
    }
  }
}
