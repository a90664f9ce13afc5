/** Finite sums of an integer field over a rectangle of cells, row by row. */
module Sums {

  /** The sum of f(a, b) for 0 <= b < n, within row a. */
  function RowSum(f: (int, int) -> int, a: int, n: nat): int
  {
    if n == 0 then 0 else RowSum(f, a, n - 1) + f(a, n - 1)
  }

  /** The sum of f(a, b) over the rectangle [0, m) x [0, n). */
  function RectSum(f: (int, int) -> int, m: nat, n: nat): int
  {
    if m == 0 then 0 else RectSum(f, m - 1, n) + RowSum(f, m - 1, n)
  }

  lemma {:induction false} RowSumAdd(f: (int, int) -> int, g: (int, int) -> int, h: (int, int) -> int, a: int, n: nat)
    requires forall b :: h(a, b) == f(a, b) + g(a, b)
    ensures RowSum(h, a, n) == RowSum(f, a, n) + RowSum(g, a, n)
  {
    if n > 0 {
      RowSumAdd(f, g, h, a, n - 1);
    }
  }

  /** Summing is linear: the sum of a pointwise sum is the sum of the sums. */
  lemma {:induction false} RectSumAdd(f: (int, int) -> int, g: (int, int) -> int, h: (int, int) -> int, m: nat, n: nat)
    requires forall a, b :: h(a, b) == f(a, b) + g(a, b)
    ensures RectSum(h, m, n) == RectSum(f, m, n) + RectSum(g, m, n)
  {
    if m > 0 {
      RectSumAdd(f, g, h, m - 1, n);
      RowSumAdd(f, g, h, m - 1, n);
    }
  }

  lemma {:induction false} RowSumPoint(f: (int, int) -> int, x: int, y: int, k: int, a: int, n: nat)
    requires forall b :: f(a, b) == if a == x && b == y then k else 0
    ensures RowSum(f, a, n) == if a == x && 0 <= y < n then k else 0
  {
    if n > 0 {
      RowSumPoint(f, x, y, k, a, n - 1);
    }
  }

  /** A field that is k at the single cell (x, y) and 0 elsewhere sums to k
      when that cell lies in the rectangle, and to 0 otherwise. */
  lemma {:induction false} RectSumPoint(f: (int, int) -> int, x: int, y: int, k: int, m: nat, n: nat)
    requires forall a, b :: f(a, b) == if a == x && b == y then k else 0
    ensures RectSum(f, m, n) == if 0 <= x < m && 0 <= y < n then k else 0
  {
    if m > 0 {
      RectSumPoint(f, x, y, k, m - 1, n);
      RowSumPoint(f, x, y, k, m - 1, n);
    }
  }
}
