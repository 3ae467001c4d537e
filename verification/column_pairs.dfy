/**
  The column loop of the Wiener statistics kernels (test/wiener_test.cc):
  pixels are taken two at a time from h_start up to h_end & ~1, and when
  h_end is odd one more pixel is taken at the column where the pair loop
  stopped. The kernels assert that h_start is even; under that assumption
  (and h_start <= h_end) the loop visits every column of [h_start, h_end)
  exactly once, so any per-row total it builds is the plain column sum.
 */
module ColumnPairs {
  import opened Sums

  /** `h & ~1`: h rounded down to an even number (two's complement, so also for negative h). */
  function AndNot1(h: int): (r: int)
    ensures r % 2 == 0 && r <= h < r + 2
  {
    h - h % 2
  }

  /** Pairs (j, j + 1) for j = start, start + 2, ... while j < hEndEven. */
  function PairLoop(g: int -> int, j: int, hEndEven: int): int
    decreases hEndEven - j
  {
    if j >= hEndEven then 0 else g(j) + g(j + 1) + PairLoop(g, j + 2, hEndEven)
  }

  /** The value of j when the pair loop stops. */
  function PairLoopExit(j: int, hEndEven: int): (r: int)
    ensures r >= hEndEven && r >= j && (r - j) % 2 == 0
    ensures j < hEndEven ==> r < hEndEven + 2
    decreases hEndEven - j
  {
    if j >= hEndEven then j else PairLoopExit(j + 2, hEndEven)
  }

  /**
    One row as the kernel accumulates it: the pair loop, then the odd pixel
    (h_end & 1) at the column where the pair loop left j.
   */
  function RowAcc(g: int -> int, hStart: int, hEnd: int): int {
    var e := AndNot1(hEnd);
    PairLoop(g, hStart, e) + (if hEnd % 2 == 1 then g(PairLoopExit(hStart, e)) else 0)
  }

  lemma {:induction false} PairLoopIsColSum(g: int -> int, j: int, e: int)
    requires j % 2 == 0 && e % 2 == 0 && j <= e
    ensures PairLoop(g, j, e) == ColSum(g, j, e)
    decreases e - j
  {
    if j < e {
      PairLoopIsColSum(g, j + 2, e);
      assert ColSum(g, j, e) == g(j) + ColSum(g, j + 1, e);
      assert ColSum(g, j + 1, e) == g(j + 1) + ColSum(g, j + 2, e);
    }
  }

  lemma {:induction false} PairLoopExitEven(j: int, e: int)
    requires j % 2 == 0 && e % 2 == 0 && j <= e
    ensures PairLoopExit(j, e) == e
    decreases e - j
  {
    if j < e {
      PairLoopExitEven(j + 2, e);
    }
  }

  /**
    With h_start even and h_start <= h_end, the pair loop and the odd-pixel
    tail add up exactly the columns of [h_start, h_end), each once.
   */
  lemma RowAccIsColSum(g: int -> int, hStart: int, hEnd: int)
    requires hStart % 2 == 0 && hStart <= hEnd
    ensures RowAcc(g, hStart, hEnd) == ColSum(g, hStart, hEnd)
  {
    var e := AndNot1(hEnd);
    PairLoopIsColSum(g, hStart, e);
    PairLoopExitEven(hStart, e);
    if hEnd % 2 == 1 {
      ColSumLast(g, hStart, e);
    }
  }

  /** The function that is 1 at column c and 0 elsewhere. */
  function Indicator(c: int): int -> int {
    j => if j == c then 1 else 0
  }

  lemma {:induction false} ColSumIndicator(c: int, a: int, b: int)
    ensures ColSum(Indicator(c), a, b) == if a <= c < b then 1 else 0
    decreases b - a
  {
    if a < b {
      ColSumIndicator(c, a + 1, b);
    }
  }

  /** Every column of [h_start, h_end) is counted exactly once, and no other column is counted. */
  lemma RowAccCountsEachColumnOnce(hStart: int, hEnd: int, c: int)
    requires hStart % 2 == 0 && hStart <= hEnd
    ensures RowAcc(Indicator(c), hStart, hEnd) == if hStart <= c < hEnd then 1 else 0
  {
    RowAccIsColSum(Indicator(c), hStart, hEnd);
    ColSumIndicator(c, hStart, hEnd);
  }

  /** Why h_start must be even: from column 1 to 4 the loop also counts column 4. */
  lemma OddStartOvercounts()
    ensures RowAcc(Indicator(4), 1, 4) == 1
    ensures ColSum(Indicator(4), 1, 4) == 0
  {
    var g := Indicator(4);
    assert g(1) == 0 && g(2) == 0 && g(3) == 0 && g(4) == 1;
    assert 4 % 2 == 0;
    assert AndNot1(4) == 4;
    assert PairLoop(g, 5, 4) == 0;
    assert PairLoop(g, 3, 4) == g(3) + g(4) + PairLoop(g, 5, 4);
    assert PairLoop(g, 1, 4) == g(1) + g(2) + PairLoop(g, 3, 4);
    assert RowAcc(g, 1, 4) == PairLoop(g, 1, 4);
    ColSumIndicator(4, 1, 4);
  }

  /** The constant 1 per column. */
  function One(): int -> int {
    _ => 1
  }

  /** One step of the pair-loop affine induction, on plain integers. */
  lemma PairStep(f0: int, f1: int, fr: int, g0: int, g1: int, gr: int, h0: int, h1: int, hr: int, ur: int, x: int, y: int)
    requires f0 == g0 + x * h0 + y && f1 == g1 + x * h1 + y && fr == gr + x * hr + y * ur
    ensures f0 + f1 + fr == (g0 + g1 + gr) + x * (h0 + h1 + hr) + y * (1 + 1 + ur)
  {
    assert x * (h0 + h1 + hr) == x * h0 + x * h1 + x * hr;
    assert y * (1 + 1 + ur) == y + y + y * ur;
  }

  lemma {:induction false} PairLoopAffine(f: int -> int, g: int -> int, h: int -> int, x: int, y: int, j: int, e: int)
    requires forall c :: f(c) == g(c) + x * h(c) + y
    ensures PairLoop(f, j, e) == PairLoop(g, j, e) + x * PairLoop(h, j, e) + y * PairLoop(One(), j, e)
    decreases e - j
  {
    if j < e {
      PairLoopAffine(f, g, h, x, y, j + 2, e);
      PairStep(f(j), f(j + 1), PairLoop(f, j + 2, e), g(j), g(j + 1), PairLoop(g, j + 2, e),
               h(j), h(j + 1), PairLoop(h, j + 2, e), PairLoop(One(), j + 2, e), x, y);
    }
  }

  /**
    The row accumulation is affine in its term: if f = g + x*h + y pointwise,
    the row totals are related the same way, with y counted once per pixel the
    loop visits.
   */
  lemma RowAccAffine(f: int -> int, g: int -> int, h: int -> int, x: int, y: int, hStart: int, hEnd: int)
    requires forall c :: f(c) == g(c) + x * h(c) + y
    ensures RowAcc(f, hStart, hEnd) == RowAcc(g, hStart, hEnd) + x * RowAcc(h, hStart, hEnd) + y * RowAcc(One(), hStart, hEnd)
  {
    var e := AndNot1(hEnd);
    PairLoopAffine(f, g, h, x, y, hStart, e);
    var c := PairLoopExit(hStart, e);
    if hEnd % 2 == 1 {
      assert x * (PairLoop(h, hStart, e) + h(c)) == x * PairLoop(h, hStart, e) + x * h(c);
      assert y * (PairLoop(One(), hStart, e) + 1) == y * PairLoop(One(), hStart, e) + y;
    }
  }

  /** Pointwise-equal terms give equal row totals. */
  lemma RowAccCongruent(f: int -> int, g: int -> int, hStart: int, hEnd: int)
    requires forall c :: f(c) == g(c)
    ensures RowAcc(f, hStart, hEnd) == RowAcc(g, hStart, hEnd)
  {
    RowAccAffine(f, g, g, 0, 0, hStart, hEnd);
  }

  /** The loop visits h_end - h_start pixels. */
  lemma RowAccCount(hStart: int, hEnd: int)
    requires hStart % 2 == 0 && hStart <= hEnd
    ensures RowAcc(One(), hStart, hEnd) == hEnd - hStart
  {
    RowAccIsColSum(One(), hStart, hEnd);
    ColSumBounds(One(), hStart, hEnd, 1, 1);
  }

  /** Terms in [lo, hi] give a row total in [lo, hi] times the row width. */
  lemma RowAccBounds(g: int -> int, hStart: int, hEnd: int, lo: int, hi: int)
    requires hStart % 2 == 0 && hStart <= hEnd
    requires forall c | hStart <= c < hEnd :: lo <= g(c) <= hi
    ensures lo * (hEnd - hStart) <= RowAcc(g, hStart, hEnd) <= hi * (hEnd - hStart)
  {
    RowAccIsColSum(g, hStart, hEnd);
    ColSumBounds(g, hStart, hEnd, lo, hi);
  }
}
