/**
  The Wiener statistics kernels compute_stats_win_opt_c (8-bit samples) and
  compute_stats_highbd_win_opt_c (samples up to 12 bits stored as uint16),
  with their dispatchers, from test/wiener_test.cc.

  For a restoration unit [h_start, h_end) x [v_start, v_end) and a square
  window of win x win taps (win is 7 for luma, 5 for chroma), the kernels
  compare the degraded plane `dgd` with the source plane `src`:
    M[t]           is the cross-correlation of tap t with the source pixel,
    H[p*win2 + q]  is the correlation of taps p and q,
  both centred on the average of the degraded samples. Tap t stands for
  window row t % win and window column t / win.

  The kernels first accumulate raw sums (sumX, sumY, M_int, H_int), then
  apply the centring correction to the totals. The H_int rows are laid out
  with a row stride of 8, so entry (m, n) of a row is at m * 8 + n.
 */
module WienerStats {
  import opened CInt
  import opened Sums
  import opened Accumulate

  const WIENER_WIN: int := 7
  const WIENER_WIN_CHROMA: int := 5

  /** Row stride of the rows of H_int. */
  const SCRATCH_STRIDE: int := 8

  /** The window sizes the kernels handle (they assert it and return otherwise). */
  predicate ValidWin(win: int) {
    win == WIENER_WIN || win == WIENER_WIN_CHROMA
  }

  /** The degraded sample under window row k, column l, for pixel (i, j). */
  function Degraded(dgd: Plane, win: int, k: int, l: int): (int, int) -> int {
    (i, j) => At(dgd, i + k - win / 2, j + l - win / 2)
  }

  /** The degraded sample under tap t = l * win + k. */
  function Tap(dgd: Plane, win: int, t: int): (int, int) -> int
    requires win > 0
  {
    Degraded(dgd, win, t % win, t / win)
  }

  /** The source pixel. */
  function Source(src: Plane): (int, int) -> int {
    (i, j) => At(src, i, j)
  }

  function Product(f: (int, int) -> int, g: (int, int) -> int): (int, int) -> int {
    (i, j) => f(i, j) * g(i, j)
  }

  function Sum(f: (int, int) -> int, g: (int, int) -> int): (int, int) -> int {
    (i, j) => f(i, j) + g(i, j)
  }

  /** A term minus a constant (the average). */
  function Centred(f: (int, int) -> int, avg: int): (int, int) -> int {
    (i, j) => f(i, j) - avg
  }

  /** The raw totals the accumulation loops leave behind. */
  datatype Totals = Totals(sumX: int, sumY: seq<seq<int>>, mInt: seq<seq<int>>, hInt: seq<seq<int>>)

  /** The totals have the dimensions of the C arrays for this window. */
  predicate Shaped(a: Totals, win: int) {
    && |a.sumY| == win && (forall k | 0 <= k < win :: |a.sumY[k]| == win)
    && |a.mInt| == win && (forall l | 0 <= l < win :: |a.mInt[l]| == win)
    && |a.hInt| == win * win && (forall p | 0 <= p < win * win :: |a.hInt[p]| == win * SCRATCH_STRIDE)
  }

  /**
    The accumulation loops: sumX is the total of the source pixels,
    sumY[k][l] the total of window sample (k, l), M_int[l][k] the total of
    window sample (k, l) times the source pixel, and
    H_int[l * win + k][m * 8 + n] the total of window sample (k, l) times
    window sample (m, n). Scratch columns with n >= win are never written.
   */
  function Accumulated(win: int, dgd: Plane, src: Plane, r: Rect, downsample: bool): (a: Totals)
    requires ValidWin(win)
    ensures Shaped(a, win)
  {
    Totals(
      Acc(Source(src), r, downsample),
      seq(win, k => seq(win, l => Acc(Degraded(dgd, win, k, l), r, downsample))),
      seq(win, l => seq(win, k => Acc(Product(Degraded(dgd, win, k, l), Source(src)), r, downsample))),
      seq(win * win, p => seq(win * SCRATCH_STRIDE, c =>
        if c % SCRATCH_STRIDE < win
        then Acc(Product(Tap(dgd, win, p), Degraded(dgd, win, c / SCRATCH_STRIDE, c % SCRATCH_STRIDE)), r, downsample)
        else 0)))
  }

  /** Tap t splits into window row t % win and column t / win, both inside the window. */
  lemma TapIndex(t: int, win: int)
    requires ValidWin(win) && 0 <= t < win * win
    ensures 0 <= t % win < win && 0 <= t / win < win
    ensures (t / win) * win + t % win == t
  {
    if win == 5 {
      assert 0 <= t / 5 < 5;
    } else {
      assert 0 <= t / 7 < 7;
    }
  }

  /** Window row k, column l is tap l * win + k, and the tap gives them back. */
  lemma TapOf(k: int, l: int, win: int)
    requires ValidWin(win) && 0 <= k < win && 0 <= l < win
    ensures 0 <= l * win + k < win * win
    ensures (l * win + k) % win == k && (l * win + k) / win == l
  {
    if win == 5 {
      DivModUnique(l * 5 + k, 5, l, k);
    } else {
      DivModUnique(l * 7 + k, 7, l, k);
    }
  }

  /**
    The scratch index m * 8 + n of window sample (m, n) is below win * 8 and
    gives m and n back, so two different samples never share a slot.
   */
  lemma ScratchIndex(m: int, n: int, win: int)
    requires ValidWin(win) && 0 <= m < win && 0 <= n < win
    ensures 0 <= m * SCRATCH_STRIDE + n < win * SCRATCH_STRIDE
    ensures (m * SCRATCH_STRIDE + n) / SCRATCH_STRIDE == m && (m * SCRATCH_STRIDE + n) % SCRATCH_STRIDE == n
  {
    DivModUnique(m * 8 + n, 8, m, n);
  }

  lemma ScratchInjective(m: int, n: int, m2: int, n2: int, win: int)
    requires ValidWin(win) && 0 <= m < win && 0 <= n < win && 0 <= m2 < win && 0 <= n2 < win
    requires m * SCRATCH_STRIDE + n == m2 * SCRATCH_STRIDE + n2
    ensures m == m2 && n == n2
  {
    ScratchIndex(m, n, win);
    ScratchIndex(m2, n2, win);
  }

  /** The flat H index p * win2 + q splits back into p and q. */
  lemma PairIndex(p: int, q: int, win: int)
    requires ValidWin(win) && 0 <= p < win * win && 0 <= q < win * win
    ensures 0 <= p * (win * win) + q < win * win * win * win
    ensures (p * (win * win) + q) / (win * win) == p && (p * (win * win) + q) % (win * win) == q
  {
    DivModUnique(p * (win * win) + q, win * win, p, q);
    if win == 5 {
      assert p * 25 + q < 625;
    } else {
      assert p * 49 + q < 2401;
    }
  }

  /** The outputs M (win2 entries) and H (win2 * win2 entries). */
  datatype Stats = Stats(m: seq<int>, h: seq<int>)

  /** H entry for taps p and q. */
  function HAt(s: Stats, win: int, p: int, q: int): int
    requires ValidWin(win) && |s.h| == win * win * win * win
    requires 0 <= p < win * win && 0 <= q < win * win
  {
    PairIndex(p, q, win);
    s.h[p * (win * win) + q]
  }

  /** M_int[l][k] for tap t = l * win + k, plus the centring correction (before the division). */
  function MNumerator(win: int, a: Totals, avg: int, avgSquareSum: int, t: int): int
    requires ValidWin(win) && Shaped(a, win) && 0 <= t < win * win
  {
    TapIndex(t, win);
    var k, l := t % win, t / win;
    a.mInt[l][k] + (avgSquareSum - avg * (a.sumX + a.sumY[k][l]))
  }

  /**
    H_int[p] read at scratch index n * 8 + m for tap q = m * win + n, plus
    the centring correction (before the division).
   */
  function HNumerator(win: int, a: Totals, avg: int, avgSquareSum: int, p: int, q: int): int
    requires ValidWin(win) && Shaped(a, win) && 0 <= p < win * win && 0 <= q < win * win
  {
    TapIndex(p, win);
    TapIndex(q, win);
    var k, l := p % win, p / win;
    var n, m := q % win, q / win;
    ScratchIndex(n, m, win);
    a.hInt[p][n * SCRATCH_STRIDE + m] + (avgSquareSum - avg * (a.sumY[k][l] + a.sumY[n][m]))
  }

  /**
    The final loop nest: every M and H entry from the totals, the average and
    the pixel count, divided by `divider`. The 8-bit kernel uses divider 1.
   */
  function Finalize(win: int, a: Totals, avg: int, pixelCount: int, divider: int): (s: Stats)
    requires ValidWin(win) && Shaped(a, win) && divider > 0
    ensures |s.m| == win * win && |s.h| == win * win * win * win
  {
    var avgSquareSum := avg * avg * pixelCount;
    var win2 := win * win;
    Stats(
      seq(win2, t requires 0 <= t < win2 => CDiv(MNumerator(win, a, avg, avgSquareSum, t), divider)),
      seq(win2 * win2, x requires 0 <= x < win2 * win2 =>
        assert 0 <= x / win2 < win2 by {
          if win == 5 { assert 0 <= x / 25 < 25; } else { assert 0 <= x / 49 < 49; }
        }
        CDiv(HNumerator(win, a, avg, avgSquareSum, x / win2, x % win2), divider)))
  }

  /** Pointwise, (D - avg) * (X - avg) == D * X + (-avg) * (D + X) + avg * avg. */
  lemma CentringPointwise(f: (int, int) -> int, g: (int, int) -> int, avg: int)
    ensures forall i, j :: Product(Centred(f, avg), Centred(g, avg))(i, j)
                        == Product(f, g)(i, j) + (-avg) * Sum(f, g)(i, j) + avg * avg
  {
    forall i, j
      ensures Product(Centred(f, avg), Centred(g, avg))(i, j) == Product(f, g)(i, j) + (-avg) * Sum(f, g)(i, j) + avg * avg
    {
      var a, b := f(i, j), g(i, j);
      assert (a - avg) * (b - avg) == a * b - avg * a - avg * b + avg * avg;
    }
  }

  /**
    The centring identity: the raw total of f*g, plus avg^2 * pixel_count,
    minus avg * (total of f + total of g), is the total of
    (f - avg) * (g - avg), provided pixel_count is the number of weighted
    pixels the loops visit.
   */
  lemma CentringIdentity(f: (int, int) -> int, g: (int, int) -> int, avg: int, r: Rect, downsample: bool)
    requires r.hStart % 2 == 0 && r.hStart <= r.hEnd && r.vStart <= r.vEnd
    ensures Acc(Product(Centred(f, avg), Centred(g, avg)), r, downsample)
         == Acc(Product(f, g), r, downsample)
            + (avg * avg * PixelCount(r) - avg * (Acc(g, r, downsample) + Acc(f, r, downsample)))
  {
    CentringPointwise(f, g, avg);
    AccAffine(Product(Centred(f, avg), Centred(g, avg)), Product(f, g), Sum(f, g), -avg, avg * avg, r, downsample);
    AccAffine(Sum(f, g), f, g, 1, 0, r, downsample);
    AccCountsPixels(r, downsample);
    CentringArith(Acc(Product(Centred(f, avg), Centred(g, avg)), r, downsample), Acc(Product(f, g), r, downsample),
                  Acc(Sum(f, g), r, downsample), Acc(Unit(), r, downsample),
                  Acc(f, r, downsample), Acc(g, r, downsample), PixelCount(r), avg);
  }

  /** The last step of the centring identity, on plain integers. */
  lemma CentringArith(centred: int, product: int, sum: int, unit: int, f: int, g: int, count: int, avg: int)
    requires centred == product + (-avg) * sum + (avg * avg) * unit
    requires sum == f + 1 * g + 0 * unit
    requires unit == count
    ensures centred == product + (avg * avg * count - avg * (g + f))
  {
    assert (-avg) * sum == -(avg * (g + f));
  }

  /** The pixel count of the kernels. */
  function PixelCount(r: Rect): int {
    (r.hEnd - r.hStart) * (r.vEnd - r.vStart)
  }

  /** The M output at tap t is its numerator divided. */
  lemma FinalizeM(win: int, a: Totals, avg: int, pixelCount: int, divider: int, t: int)
    requires ValidWin(win) && Shaped(a, win) && divider > 0 && 0 <= t < win * win
    ensures Finalize(win, a, avg, pixelCount, divider).m[t] == CDiv(MNumerator(win, a, avg, avg * avg * pixelCount, t), divider)
  {
  }

  /** The M numerator of the accumulated totals, in terms of the accumulators of its tap and the source. */
  lemma MNumeratorOfTotals(win: int, dgd: Plane, src: Plane, r: Rect, downsample: bool, avg: int, avgSquareSum: int, t: int)
    requires ValidWin(win) && 0 <= t < win * win
    ensures MNumerator(win, Accumulated(win, dgd, src, r, downsample), avg, avgSquareSum, t)
         == Acc(Product(Tap(dgd, win, t), Source(src)), r, downsample)
            + (avgSquareSum - avg * (Acc(Source(src), r, downsample) + Acc(Tap(dgd, win, t), r, downsample)))
  {
    TapIndex(t, win);
    var a := Accumulated(win, dgd, src, r, downsample);
    var k, l := t % win, t / win;
    assert a.mInt[l][k] == Acc(Product(Tap(dgd, win, t), Source(src)), r, downsample);
    assert a.sumY[k][l] == Acc(Tap(dgd, win, t), r, downsample);
  }

  /** The M numerator of the accumulated totals is the centred total of its tap against the source. */
  lemma MNumeratorIsCentred(win: int, dgd: Plane, src: Plane, r: Rect, downsample: bool, avg: int, t: int)
    requires ValidWin(win) && 0 <= t < win * win
    requires r.hStart % 2 == 0 && r.hStart <= r.hEnd && r.vStart <= r.vEnd
    ensures MNumerator(win, Accumulated(win, dgd, src, r, downsample), avg, avg * avg * PixelCount(r), t)
         == Acc(Product(Centred(Tap(dgd, win, t), avg), Centred(Source(src), avg)), r, downsample)
  {
    MNumeratorOfTotals(win, dgd, src, r, downsample, avg, avg * avg * PixelCount(r), t);
    CentringIdentity(Tap(dgd, win, t), Source(src), avg, r, downsample);
  }

  /**
    Every M entry is the (divided) total over the visited pixels of
    (window sample of tap t - avg) * (source pixel - avg).
   */
  lemma MIsCentred(win: int, dgd: Plane, src: Plane, r: Rect, downsample: bool, avg: int, divider: int, t: int)
    requires ValidWin(win) && divider > 0 && 0 <= t < win * win
    requires r.hStart % 2 == 0 && r.hStart <= r.hEnd && r.vStart <= r.vEnd
    ensures Finalize(win, Accumulated(win, dgd, src, r, downsample), avg, PixelCount(r), divider).m[t]
         == CDiv(Acc(Product(Centred(Tap(dgd, win, t), avg), Centred(Source(src), avg)), r, downsample), divider)
  {
    FinalizeM(win, Accumulated(win, dgd, src, r, downsample), avg, PixelCount(r), divider, t);
    MNumeratorIsCentred(win, dgd, src, r, downsample, avg, t);
  }

  /** The flat index of H picks the numerator for taps p and q, divided. */
  lemma FinalizeH(win: int, a: Totals, avg: int, pixelCount: int, divider: int, p: int, q: int)
    requires ValidWin(win) && Shaped(a, win) && divider > 0 && 0 <= p < win * win && 0 <= q < win * win
    ensures 0 <= p * (win * win) + q < |Finalize(win, a, avg, pixelCount, divider).h|
    ensures Finalize(win, a, avg, pixelCount, divider).h[p * (win * win) + q]
         == CDiv(HNumerator(win, a, avg, avg * avg * pixelCount, p, q), divider)
  {
    PairIndex(p, q, win);
  }

  /** Scratch column n * 8 + m of H_int row p holds the product total of tap p and window sample (n, m). */
  lemma AccumulatedScratch(win: int, dgd: Plane, src: Plane, r: Rect, downsample: bool, p: int, n: int, m: int)
    requires ValidWin(win) && 0 <= p < win * win && 0 <= n < win && 0 <= m < win
    ensures 0 <= n * SCRATCH_STRIDE + m < win * SCRATCH_STRIDE
    ensures Accumulated(win, dgd, src, r, downsample).hInt[p][n * SCRATCH_STRIDE + m]
         == Acc(Product(Tap(dgd, win, p), Degraded(dgd, win, n, m)), r, downsample)
  {
    ScratchIndex(n, m, win);
  }

  /** sumY[k][l] is the total of window sample (k, l). */
  lemma AccumulatedSumY(win: int, dgd: Plane, src: Plane, r: Rect, downsample: bool, k: int, l: int)
    requires ValidWin(win) && 0 <= k < win && 0 <= l < win
    ensures Accumulated(win, dgd, src, r, downsample).sumY[k][l] == Acc(Degraded(dgd, win, k, l), r, downsample)
  {
  }

  /** The H numerator of taps p = l * win + k and q = m * win + n, read from the totals. */
  lemma HNumeratorEntries(win: int, a: Totals, avg: int, avgSquareSum: int, p: int, q: int, k: int, l: int, n: int, m: int)
    requires ValidWin(win) && Shaped(a, win) && 0 <= k < win && 0 <= l < win && 0 <= n < win && 0 <= m < win
    requires p == l * win + k && q == m * win + n
    ensures 0 <= p < win * win && 0 <= q < win * win && 0 <= n * SCRATCH_STRIDE + m < win * SCRATCH_STRIDE
    ensures HNumerator(win, a, avg, avgSquareSum, p, q) == a.hInt[p][n * SCRATCH_STRIDE + m] + (avgSquareSum - avg * (a.sumY[k][l] + a.sumY[n][m]))
  {
    TapOf(k, l, win);
    TapOf(n, m, win);
    ScratchIndex(n, m, win);
  }

  /** An H numerator of the accumulated totals, in terms of the accumulators of its two taps. */
  lemma HNumeratorOfTotals(win: int, dgd: Plane, src: Plane, r: Rect, downsample: bool, avg: int, avgSquareSum: int, p: int, q: int)
    requires ValidWin(win) && 0 <= p < win * win && 0 <= q < win * win
    ensures HNumerator(win, Accumulated(win, dgd, src, r, downsample), avg, avgSquareSum, p, q)
         == Acc(Product(Tap(dgd, win, p), Tap(dgd, win, q)), r, downsample)
            + (avgSquareSum - avg * (Acc(Tap(dgd, win, q), r, downsample) + Acc(Tap(dgd, win, p), r, downsample)))
  {
    TapIndex(p, win);
    TapIndex(q, win);
    var a := Accumulated(win, dgd, src, r, downsample);
    var k, l := p % win, p / win;
    var n, m := q % win, q / win;
    HNumeratorEntries(win, a, avg, avgSquareSum, p, q, k, l, n, m);
    AccumulatedScratch(win, dgd, src, r, downsample, p, n, m);
    AccumulatedSumY(win, dgd, src, r, downsample, k, l);
    AccumulatedSumY(win, dgd, src, r, downsample, n, m);
    CommuteSum(avg, a.sumY[k][l], a.sumY[n][m]);
  }

  lemma CommuteSum(avg: int, x: int, y: int)
    ensures avg * (x + y) == avg * (y + x)
  {
  }

  /** The H numerator of the accumulated totals is the centred total of its two taps. */
  lemma HNumeratorIsCentred(win: int, dgd: Plane, src: Plane, r: Rect, downsample: bool, avg: int, p: int, q: int)
    requires ValidWin(win) && 0 <= p < win * win && 0 <= q < win * win
    requires r.hStart % 2 == 0 && r.hStart <= r.hEnd && r.vStart <= r.vEnd
    ensures HNumerator(win, Accumulated(win, dgd, src, r, downsample), avg, avg * avg * PixelCount(r), p, q)
         == Acc(Product(Centred(Tap(dgd, win, p), avg), Centred(Tap(dgd, win, q), avg)), r, downsample)
  {
    HNumeratorOfTotals(win, dgd, src, r, downsample, avg, avg * avg * PixelCount(r), p, q);
    CentringIdentity(Tap(dgd, win, p), Tap(dgd, win, q), avg, r, downsample);
  }

  /**
    Every H entry (p, q) is the (divided) total over the visited pixels of
    (sample of tap p - avg) * (sample of tap q - avg).
   */
  lemma HIsCentred(win: int, dgd: Plane, src: Plane, r: Rect, downsample: bool, avg: int, divider: int, p: int, q: int)
    requires ValidWin(win) && divider > 0 && 0 <= p < win * win && 0 <= q < win * win
    requires r.hStart % 2 == 0 && r.hStart <= r.hEnd && r.vStart <= r.vEnd
    ensures Finalize(win, Accumulated(win, dgd, src, r, downsample), avg, PixelCount(r), divider).h[p * (win * win) + q]
         == CDiv(Acc(Product(Centred(Tap(dgd, win, p), avg), Centred(Tap(dgd, win, q), avg)), r, downsample), divider)
  {
    FinalizeH(win, Accumulated(win, dgd, src, r, downsample), avg, PixelCount(r), divider, p, q);
    HNumeratorIsCentred(win, dgd, src, r, downsample, avg, p, q);
  }

  /** The H numerator is the same for taps (p, q) and (q, p). */
  lemma HNumeratorSymmetric(win: int, dgd: Plane, src: Plane, r: Rect, downsample: bool, avg: int, avgSquareSum: int, p: int, q: int)
    requires ValidWin(win) && 0 <= p < win * win && 0 <= q < win * win
    ensures HNumerator(win, Accumulated(win, dgd, src, r, downsample), avg, avgSquareSum, p, q)
         == HNumerator(win, Accumulated(win, dgd, src, r, downsample), avg, avgSquareSum, q, p)
  {
    HNumeratorOfTotals(win, dgd, src, r, downsample, avg, avgSquareSum, p, q);
    HNumeratorOfTotals(win, dgd, src, r, downsample, avg, avgSquareSum, q, p);
    AccCongruent(Product(Tap(dgd, win, p), Tap(dgd, win, q)), Product(Tap(dgd, win, q), Tap(dgd, win, p)), r, downsample);
  }

  /** H is symmetric: swapping the two taps gives the same entry, for any rectangle and average. */
  lemma HSymmetric(win: int, dgd: Plane, src: Plane, r: Rect, downsample: bool, avg: int, pixelCount: int, divider: int, p: int, q: int)
    requires ValidWin(win) && divider > 0 && 0 <= p < win * win && 0 <= q < win * win
    ensures var s := Finalize(win, Accumulated(win, dgd, src, r, downsample), avg, pixelCount, divider);
      s.h[p * (win * win) + q] == s.h[q * (win * win) + p]
  {
    var a := Accumulated(win, dgd, src, r, downsample);
    FinalizeH(win, a, avg, pixelCount, divider, p, q);
    FinalizeH(win, a, avg, pixelCount, divider, q, p);
    HNumeratorSymmetric(win, dgd, src, r, downsample, avg, avg * avg * pixelCount, p, q);
  }
}
