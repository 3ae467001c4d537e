/**
  Two-dimensional sample planes and plain sums over them. A plane is a buffer
  read through a base offset and a row stride, as the C code reads a
  `uint8_t *` or `uint16_t *` with a stride; the reference sums here are the
  one-pixel-at-a-time, one-row-at-a-time totals the optimised loops are
  compared against.
 */
module Sums {

  /** A sample buffer, the index of sample (0, 0) in it, and the row stride. */
  datatype Plane = Plane(buf: seq<int>, origin: int, stride: int)

  /** Buffer index of the sample at row r, column c. */
  function Index(p: Plane, r: int, c: int): int {
    p.origin + r * p.stride + c
  }

  /**
    The sample at row r, column c. A read outside the buffer (undefined in C)
    gives 0 here, so that the kernels are total.
   */
  function At(p: Plane, r: int, c: int): int {
    var x := Index(p, r, c);
    if 0 <= x < |p.buf| then p.buf[x] else 0
  }

  /** Every sample of the buffer lies in [0, max]. */
  predicate SamplesIn(p: Plane, max: int) {
    forall x | 0 <= x < |p.buf| :: 0 <= p.buf[x] <= max
  }

  lemma AtBounds(p: Plane, max: int, r: int, c: int)
    requires SamplesIn(p, max) && max >= 0
    ensures 0 <= At(p, r, c) <= max
  {
  }

  /** The rectangle of pixels [hStart, hEnd) x [vStart, vEnd): columns then rows, as the source names them. */
  datatype Rect = Rect(hStart: int, hEnd: int, vStart: int, vEnd: int)

  /** Number of integers in [a, b). */
  function Len(a: int, b: int): nat {
    if a <= b then b - a else 0
  }

  /** Sum of g(j) for j in [a, b), one term at a time. */
  function ColSum(g: int -> int, a: int, b: int): int
    decreases b - a
  {
    if a >= b then 0 else g(a) + ColSum(g, a + 1, b)
  }

  /** Peeling the last term instead of the first. */
  lemma {:induction false} ColSumLast(g: int -> int, a: int, b: int)
    requires a <= b
    ensures ColSum(g, a, b + 1) == ColSum(g, a, b) + g(b)
    decreases b - a
  {
    if a < b {
      ColSumLast(g, a + 1, b);
    }
  }

  /** Sums of pointwise-equal functions are equal. */
  lemma {:induction false} ColSumCongruent(f: int -> int, g: int -> int, a: int, b: int)
    requires forall j | a <= j < b :: f(j) == g(j)
    ensures ColSum(f, a, b) == ColSum(g, a, b)
    decreases b - a
  {
    if a < b {
      ColSumCongruent(f, g, a + 1, b);
    }
  }

  /** A sum of terms in [lo, hi] lies in [lo * n, hi * n] for n terms. */
  lemma {:induction false} ColSumBounds(g: int -> int, a: int, b: int, lo: int, hi: int)
    requires forall j | a <= j < b :: lo <= g(j) <= hi
    ensures lo * Len(a, b) <= ColSum(g, a, b) <= hi * Len(a, b)
    decreases b - a
  {
    if a < b {
      ColSumBounds(g, a + 1, b, lo, hi);
      assert Len(a, b) == Len(a + 1, b) + 1;
    }
  }

  /** Row i of a two-argument term, as a function of the column. */
  function Slice(g: (int, int) -> int, i: int): int -> int {
    j => g(i, j)
  }

  /** Total of one row of the rectangle. */
  function RowTotal(g: (int, int) -> int, i: int, r: Rect): int {
    ColSum(Slice(g, i), r.hStart, r.hEnd)
  }

  /** The row totals, as a function of the row. */
  function RowTotals(g: (int, int) -> int, r: Rect): int -> int {
    i => RowTotal(g, i, r)
  }

  /** Sum of g over every pixel of the rectangle, row by row, each pixel once. */
  function RectSum(g: (int, int) -> int, r: Rect): int {
    ColSum(RowTotals(g, r), r.vStart, r.vEnd)
  }
}
