/**
  Value ranges of the Wiener statistics accumulators (test/wiener_test.cc)
  for the largest unit the tests use, MAX_WIENER_BLOCK x MAX_WIENER_BLOCK
  (384 x 384) pixels, with samples below 2^8 (8-bit kernel) or 2^12
  (high-bit-depth kernel).

  The 8-bit kernel keeps per-row totals in int32 and sumX, sumY in int32;
  the high-bit-depth kernel keeps sumY in int32 and adds two of them in
  int32. Every term is non-negative, so each running total is bounded by the
  final total of a unit with fewer rows or columns, which the lemmas cover
  since they hold for every unit up to 384 x 384.
 */
module WienerRange {
  import opened CInt
  import opened Sums
  import opened ColumnPairs
  import opened RowSchedule
  import opened Accumulate
  import opened WienerStats
  import opened WienerKernels

  const MAX_WIENER_BLOCK: int := 384

  /** Most pixels a unit can have: 384 * 384. */
  const MAX_PIXELS: int := 147456

  /** A unit no larger than the largest the tests use, with an even h_start. */
  predicate WithinMaxUnit(r: Rect) {
    Aligned(r) && r.hEnd - r.hStart <= MAX_WIENER_BLOCK && r.vEnd - r.vStart <= MAX_WIENER_BLOCK
  }

  lemma PixelCountBound(r: Rect)
    requires WithinMaxUnit(r)
    ensures 0 <= PixelCount(r) <= MAX_PIXELS
  {
    var w, h := r.hEnd - r.hStart, r.vEnd - r.vStart;
    assert w * h <= 384 * h;
    assert 384 * h <= 384 * 384;
  }

  lemma ScaleBound(x: int, bound: int, hi: int)
    requires 0 <= x <= bound && hi >= 0
    ensures 0 <= hi * x <= hi * bound
  {
  }

  /** Any accumulator of a term in [0, hi] over a unit within the 384x384 maximum is in [0, hi * 384^2]. */
  lemma AccWithinMaxUnit(g: (int, int) -> int, r: Rect, downsample: bool, hi: int)
    requires WithinMaxUnit(r) && hi >= 0
    requires forall i, j :: 0 <= g(i, j) <= hi
    ensures 0 <= Acc(g, r, downsample) <= hi * MAX_PIXELS
  {
    AccBounds(g, r, downsample, hi);
    PixelCountBound(r);
    ScaleBound(PixelCount(r), MAX_PIXELS, hi);
  }

  lemma SamplesBounded(dgd: Plane, src: Plane, win: int, max: int)
    requires SamplesIn(dgd, max) && SamplesIn(src, max) && max >= 0 && win > 0
    ensures forall i, j :: 0 <= Source(src)(i, j) <= max
    ensures forall t, i, j :: 0 <= Tap(dgd, win, t)(i, j) <= max
  {
    forall i, j ensures 0 <= Source(src)(i, j) <= max {
      AtBounds(src, max, i, j);
    }
    forall t, i, j ensures 0 <= Tap(dgd, win, t)(i, j) <= max {
      AtBounds(dgd, max, i + t % win - win / 2, j + t / win - win / 2);
    }
  }

  lemma ProductBounded(f: (int, int) -> int, g: (int, int) -> int, max: int)
    requires forall i, j :: 0 <= f(i, j) <= max
    requires forall i, j :: 0 <= g(i, j) <= max
    ensures forall i, j :: 0 <= Product(f, g)(i, j) <= max * max
  {
    forall i, j ensures 0 <= Product(f, g)(i, j) <= max * max {
      ScaleBound(g(i, j), max, f(i, j));
      ScaleBound(f(i, j), max, max);
    }
  }

  /**
    8-bit kernel, one row: with samples below 256 every per-row int32 total
    (sumX_row, sumY_row, M_row, H_row) stays in int32, also after it is
    multiplied by a downsampling factor of at most 4. A running total within
    the row is the row total of a narrower unit, so it is covered too.
   */
  lemma LowbdRowTotalsFit(g: (int, int) -> int, r: Rect, i: int, factor: int)
    requires WithinMaxUnit(r) && 1 <= factor <= DOWNSAMPLE_FACTOR
    requires forall i', j :: 0 <= g(i', j) <= 255 * 255
    ensures IsInt32(RowAcc(Slice(g, i), r.hStart, r.hEnd))
    ensures IsInt32(factor * RowAcc(Slice(g, i), r.hStart, r.hEnd))
  {
    var w := r.hEnd - r.hStart;
    RowAccBounds(Slice(g, i), r.hStart, r.hEnd, 0, 255 * 255);
    var x := RowAcc(Slice(g, i), r.hStart, r.hEnd);
    ScaleBound(w, 384, 255 * 255);
    ScaleBound(x, 384 * 255 * 255, factor);
    ScaleBound(factor, 4, 384 * 255 * 255);
  }

  /** One pair step of the 8-bit loop, D1 * X1 + D2 * X2, is an int. */
  lemma LowbdPairProductFits(d1: int, x1: int, d2: int, x2: int)
    requires 0 <= d1 < 0x100 && 0 <= x1 < 0x100 && 0 <= d2 < 0x100 && 0 <= x2 < 0x100
    ensures IsInt32(d1 * x1 + d2 * x2)
  {
    ScaleBound(x1, 255, d1);
    ScaleBound(d1, 255, 255);
    ScaleBound(x2, 255, d2);
    ScaleBound(d2, 255, 255);
  }

  /**
    The raw totals of a unit whose samples are in [0, max]: sumX and every
    sumY[k][l] are in [0, max * 384^2], every M_int and H_int entry in
    [0, max^2 * 384^2].
   */
  predicate TotalsIn(a: Totals, win: int, max: int)
    requires Shaped(a, win)
  {
    && 0 <= a.sumX <= max * MAX_PIXELS
    && (forall k, l | 0 <= k < win && 0 <= l < win :: 0 <= a.sumY[k][l] <= max * MAX_PIXELS)
    && (forall l, k | 0 <= l < win && 0 <= k < win :: 0 <= a.mInt[l][k] <= max * max * MAX_PIXELS)
    && (forall p, c | 0 <= p < win * win && 0 <= c < win * SCRATCH_STRIDE :: 0 <= a.hInt[p][c] <= max * max * MAX_PIXELS)
  }

  lemma SumsBounded(win: int, dgd: Plane, src: Plane, r: Rect, downsample: bool, max: int)
    requires ValidWin(win) && WithinMaxUnit(r) && max >= 0
    requires SamplesIn(dgd, max) && SamplesIn(src, max)
    ensures var a := Accumulated(win, dgd, src, r, downsample);
      && 0 <= a.sumX <= max * MAX_PIXELS
      && (forall k, l | 0 <= k < win && 0 <= l < win :: 0 <= a.sumY[k][l] <= max * MAX_PIXELS)
  {
    var a := Accumulated(win, dgd, src, r, downsample);
    SamplesBounded(dgd, src, win, max);
    AccWithinMaxUnit(Source(src), r, downsample, max);
    forall k, l | 0 <= k < win && 0 <= l < win
      ensures 0 <= a.sumY[k][l] <= max * MAX_PIXELS
    {
      TapOf(k, l, win);
      assert Degraded(dgd, win, k, l) == Tap(dgd, win, l * win + k);
      AccWithinMaxUnit(Degraded(dgd, win, k, l), r, downsample, max);
    }
  }

  lemma MBounded(win: int, dgd: Plane, src: Plane, r: Rect, downsample: bool, max: int)
    requires ValidWin(win) && WithinMaxUnit(r) && max >= 0
    requires SamplesIn(dgd, max) && SamplesIn(src, max)
    ensures var a := Accumulated(win, dgd, src, r, downsample);
      forall l, k | 0 <= l < win && 0 <= k < win :: 0 <= a.mInt[l][k] <= max * max * MAX_PIXELS
  {
    var a := Accumulated(win, dgd, src, r, downsample);
    SamplesBounded(dgd, src, win, max);
    forall l, k | 0 <= l < win && 0 <= k < win
      ensures 0 <= a.mInt[l][k] <= max * max * MAX_PIXELS
    {
      TapOf(k, l, win);
      assert Degraded(dgd, win, k, l) == Tap(dgd, win, l * win + k);
      ProductBounded(Degraded(dgd, win, k, l), Source(src), max);
      AccWithinMaxUnit(Product(Degraded(dgd, win, k, l), Source(src)), r, downsample, max * max);
    }
  }

  lemma HBounded(win: int, dgd: Plane, src: Plane, r: Rect, downsample: bool, max: int)
    requires ValidWin(win) && WithinMaxUnit(r) && max >= 0
    requires SamplesIn(dgd, max) && SamplesIn(src, max)
    ensures var a := Accumulated(win, dgd, src, r, downsample);
      forall p, c | 0 <= p < win * win && 0 <= c < win * SCRATCH_STRIDE :: 0 <= a.hInt[p][c] <= max * max * MAX_PIXELS
  {
    var a := Accumulated(win, dgd, src, r, downsample);
    SamplesBounded(dgd, src, win, max);
    forall p, c | 0 <= p < win * win && 0 <= c < win * SCRATCH_STRIDE
      ensures 0 <= a.hInt[p][c] <= max * max * MAX_PIXELS
    {
      if c % SCRATCH_STRIDE < win {
        var m, n := c / SCRATCH_STRIDE, c % SCRATCH_STRIDE;
        TapOf(m, n, win);
        assert Degraded(dgd, win, m, n) == Tap(dgd, win, n * win + m);
        ProductBounded(Tap(dgd, win, p), Degraded(dgd, win, m, n), max);
        AccWithinMaxUnit(Product(Tap(dgd, win, p), Degraded(dgd, win, m, n)), r, downsample, max * max);
      } else {
        ScaleBound(max, max, max);
      }
    }
  }

  /** Samples in [0, max] keep every raw total of a unit up to 384 x 384 in its range. */
  lemma TotalsBounded(win: int, dgd: Plane, src: Plane, r: Rect, downsample: bool, max: int)
    requires ValidWin(win) && WithinMaxUnit(r) && max >= 0
    requires SamplesIn(dgd, max) && SamplesIn(src, max)
    ensures TotalsIn(Accumulated(win, dgd, src, r, downsample), win, max)
  {
    SumsBounded(win, dgd, src, r, downsample, max);
    MBounded(win, dgd, src, r, downsample, max);
    HBounded(win, dgd, src, r, downsample, max);
  }

  /**
    Every intermediate of the centring expression total + avgSq - avg * sum
    fits int64, whichever of the two additions the kernel does first.
   */
  predicate CentringFits(total: int, avgSq: int, avg: int, sum: int) {
    && IsInt64(avgSq) && IsInt64(avg * sum)
    && IsInt64(total + avgSq) && IsInt64(avgSq - avg * sum)
    && IsInt64(total + (avgSq - avg * sum))
  }

  lemma CentringArithFits(total: int, avgSq: int, avg: int, sum: int, pixels: int)
    requires 0 <= total <= 4095 * 4095 * MAX_PIXELS && 0 <= sum <= 2 * 4095 * MAX_PIXELS
    requires 0 <= avg < 0x1_0000 && 0 <= pixels <= MAX_PIXELS && avgSq == avg * avg * pixels
    ensures CentringFits(total, avgSq, avg, sum)
  {
    ScaleBound(avg, 0xFFFF, avg);
    ScaleBound(avg, 0xFFFF, 0xFFFF);
    ScaleBound(pixels, MAX_PIXELS, avg * avg);
    ScaleBound(avg * avg, 0xFFFF * 0xFFFF, MAX_PIXELS);
    ScaleBound(sum, 2 * 4095 * MAX_PIXELS, avg);
    ScaleBound(avg, 0xFFFF, 2 * 4095 * MAX_PIXELS);
  }

  /** The M entry of tap t: its correction and its finished numerator fit int64. */
  predicate MNumeratorFits(win: int, a: Totals, avg: int, avgSq: int, t: int)
    requires ValidWin(win) && Shaped(a, win) && 0 <= t < win * win
  {
    TapIndex(t, win);
    var k, l := t % win, t / win;
    CentringFits(a.mInt[l][k], avgSq, avg, a.sumX + a.sumY[k][l]) && IsInt64(MNumerator(win, a, avg, avgSq, t))
  }

  /**
    The H entry of taps p and q: the int32 sum sumY[k][l] + sumY[n][m] fits
    int32, and its correction and finished numerator fit int64.
   */
  predicate HNumeratorFits(win: int, a: Totals, avg: int, avgSq: int, p: int, q: int)
    requires ValidWin(win) && Shaped(a, win) && 0 <= p < win * win && 0 <= q < win * win
  {
    TapIndex(p, win);
    TapIndex(q, win);
    var k, l := p % win, p / win;
    var n, m := q % win, q / win;
    ScratchIndex(n, m, win);
    && IsInt32(a.sumY[k][l] + a.sumY[n][m])
    && CentringFits(a.hInt[p][n * SCRATCH_STRIDE + m], avgSq, avg, a.sumY[k][l] + a.sumY[n][m])
    && IsInt64(HNumerator(win, a, avg, avgSq, p, q))
  }

  /** Ranges for samples in [0, max] also hold for the widest samples, below 2^12. */
  lemma TotalsInWiden(a: Totals, win: int, max: int)
    requires ValidWin(win) && Shaped(a, win) && 0 <= max <= 4095 && TotalsIn(a, win, max)
    ensures TotalsIn(a, win, 4095)
  {
    ScaleBound(max, 4095, max);
    ScaleBound(max, 4095, 4095);
    ScaleBound(max * max, 4095 * 4095, MAX_PIXELS);
  }

  lemma MEntryFits(win: int, a: Totals, avg: int, pixels: int, t: int)
    requires ValidWin(win) && Shaped(a, win) && TotalsIn(a, win, 4095) && 0 <= t < win * win
    requires 0 <= avg < 0x1_0000 && 0 <= pixels <= MAX_PIXELS
    ensures MNumeratorFits(win, a, avg, avg * avg * pixels, t)
  {
    TapIndex(t, win);
    var k, l := t % win, t / win;
    CentringArithFits(a.mInt[l][k], avg * avg * pixels, avg, a.sumX + a.sumY[k][l], pixels);
  }

  lemma HEntryFits(win: int, a: Totals, avg: int, pixels: int, p: int, q: int)
    requires ValidWin(win) && Shaped(a, win) && TotalsIn(a, win, 4095) && 0 <= p < win * win && 0 <= q < win * win
    requires 0 <= avg < 0x1_0000 && 0 <= pixels <= MAX_PIXELS
    ensures HNumeratorFits(win, a, avg, avg * avg * pixels, p, q)
  {
    TapIndex(p, win);
    TapIndex(q, win);
    var k, l := p % win, p / win;
    var n, m := q % win, q / win;
    ScratchIndex(n, m, win);
    CentringArithFits(a.hInt[p][n * SCRATCH_STRIDE + m], avg * avg * pixels, avg, a.sumY[k][l] + a.sumY[n][m], pixels);
  }

  /**
    Totals of samples below 2^12, with a uint16 average, give M and H
    numerators whose every intermediate fits int64.
   */
  lemma NumeratorsFit(win: int, a: Totals, max: int, avg: int, pixels: int)
    requires ValidWin(win) && Shaped(a, win) && 0 <= max <= 4095 && TotalsIn(a, win, max)
    requires 0 <= avg < 0x1_0000 && 0 <= pixels <= MAX_PIXELS
    ensures forall t | 0 <= t < win * win :: MNumeratorFits(win, a, avg, avg * avg * pixels, t)
    ensures forall p, q | 0 <= p < win * win && 0 <= q < win * win :: HNumeratorFits(win, a, avg, avg * avg * pixels, p, q)
  {
    TotalsInWiden(a, win, max);
    forall t | 0 <= t < win * win
      ensures MNumeratorFits(win, a, avg, avg * avg * pixels, t)
    {
      MEntryFits(win, a, avg, pixels, t);
    }
    forall p, q | 0 <= p < win * win && 0 <= q < win * win
      ensures HNumeratorFits(win, a, avg, avg * avg * pixels, p, q)
    {
      HEntryFits(win, a, avg, pixels, p, q);
    }
  }

  /**
    8-bit kernel: with samples below 2^8 and a uint8 average, sumX, every
    sumY[k][l] and every int32 sum sumX + sumY[k][l] fit int32; M_int and
    H_int fit int64; and every step of the M and H numerators, including the
    int32 sum sumY[k][l] + sumY[n][m], fits its C type.
   */
  lemma LowbdTotalsFit(win: int, dgd: Plane, src: Plane, r: Rect, downsample: bool, avg: int)
    requires ValidWin(win) && WithinMaxUnit(r) && 0 <= avg < 0x100
    requires SamplesIn(dgd, 255) && SamplesIn(src, 255)
    ensures var a := Accumulated(win, dgd, src, r, downsample);
      && IsInt32(a.sumX)
      && (forall k, l | 0 <= k < win && 0 <= l < win :: IsInt32(a.sumY[k][l]) && IsInt32(a.sumX + a.sumY[k][l]))
      && (forall l, k | 0 <= l < win && 0 <= k < win :: IsInt64(a.mInt[l][k]))
      && (forall p, c | 0 <= p < win * win && 0 <= c < win * SCRATCH_STRIDE :: IsInt64(a.hInt[p][c]))
      && (forall t | 0 <= t < win * win :: MNumeratorFits(win, a, avg, avg * avg * PixelCount(r), t))
      && (forall p, q | 0 <= p < win * win && 0 <= q < win * win :: HNumeratorFits(win, a, avg, avg * avg * PixelCount(r), p, q))
  {
    var a := Accumulated(win, dgd, src, r, downsample);
    TotalsBounded(win, dgd, src, r, downsample, 255);
    PixelCountBound(r);
    NumeratorsFit(win, a, 255, avg, PixelCount(r));
  }

  /** One pair step of the high-bit-depth loop: uint16 samples promoted to int, products below 2^12 squared. */
  lemma HighbdPairProductFits(d1: int, x1: int, d2: int, x2: int)
    requires 0 <= d1 < 0x1000 && 0 <= x1 < 0x1000 && 0 <= d2 < 0x1000 && 0 <= x2 < 0x1000
    ensures IsInt32(d1 * x1 + d2 * x2)
  {
    ScaleBound(x1, 4095, d1);
    ScaleBound(d1, 4095, 4095);
    ScaleBound(x2, 4095, d2);
    ScaleBound(d2, 4095, 4095);
  }

  /**
    High-bit-depth kernel: with samples below 2^12 and a uint16 average,
    every sumY[k][l] fits int32; sumX, M_int and H_int fit int64; and every
    step of the M and H numerators, including the int32 sum
    sumY[k][l] + sumY[n][m], fits its C type.
   */
  lemma HighbdTotalsFit(win: int, dgd: Plane, src: Plane, r: Rect, avg: int)
    requires ValidWin(win) && WithinMaxUnit(r) && 0 <= avg < 0x1_0000
    requires SamplesIn(dgd, 4095) && SamplesIn(src, 4095)
    ensures var a := Accumulated(win, dgd, src, r, false);
      && IsInt64(a.sumX)
      && (forall k, l | 0 <= k < win && 0 <= l < win :: IsInt32(a.sumY[k][l]))
      && (forall l, k | 0 <= l < win && 0 <= k < win :: IsInt64(a.mInt[l][k]))
      && (forall p, c | 0 <= p < win * win && 0 <= c < win * SCRATCH_STRIDE :: IsInt64(a.hInt[p][c]))
      && (forall t | 0 <= t < win * win :: MNumeratorFits(win, a, avg, avg * avg * PixelCount(r), t))
      && (forall p, q | 0 <= p < win * win && 0 <= q < win * win :: HNumeratorFits(win, a, avg, avg * avg * PixelCount(r), p, q))
  {
    var a := Accumulated(win, dgd, src, r, false);
    TotalsBounded(win, dgd, src, r, false, 4095);
    PixelCountBound(r);
    NumeratorsFit(win, a, 4095, avg, PixelCount(r));
  }

  /** Every sample a window reads lies within 3 rows and columns of the unit. */
  predicate HaloIs(dgd: Plane, r: Rect, v: int) {
    forall i, j | r.vStart - 3 <= i < r.vEnd + 3 && r.hStart - 3 <= j < r.hEnd + 3 :: At(dgd, i, j) == v
  }

  lemma HaloSample(dgd: Plane, win: int, r: Rect, v: int, k: int, l: int, i: int, j: int)
    requires ValidWin(win) && 0 <= k < win && 0 <= l < win && HaloIs(dgd, r, v)
    requires r.vStart <= i < r.vEnd && r.hStart <= j < r.hEnd
    ensures Degraded(dgd, win, k, l)(i, j) == v
  {
    assert r.vStart - 3 <= i + k - win / 2 < r.vEnd + 3 && r.hStart - 3 <= j + l - win / 2 < r.hEnd + 3;
  }

  lemma HaloProduct(dgd: Plane, win: int, r: Rect, v: int, p: int, m: int, n: int)
    requires ValidWin(win) && 0 <= p < win * win && 0 <= m < win && 0 <= n < win && HaloIs(dgd, r, v)
    ensures forall i, j | r.vStart <= i < r.vEnd && r.hStart <= j < r.hEnd ::
      Product(Tap(dgd, win, p), Degraded(dgd, win, m, n))(i, j) == v * v
  {
    TapIndex(p, win);
    forall i, j | r.vStart <= i < r.vEnd && r.hStart <= j < r.hEnd
      ensures Product(Tap(dgd, win, p), Degraded(dgd, win, m, n))(i, j) == v * v
    {
      HaloSample(dgd, win, r, v, p % win, p / win, i, j);
      HaloSample(dgd, win, r, v, m, n, i, j);
    }
  }

  lemma SquareTotalExceedsInt32(v: int)
    requires v >= 255
    ensures !IsInt32(v * v * (368 * 368))
  {
    ScaleBound(255, v, 255);
    ScaleBound(255, v, v);
    ScaleBound(255 * 255, v * v, 368 * 368);
  }

  /** A unit whose windows read only the sample value v: each written H_int entry is v^2 * pixel_count. */
  lemma ConstantUnitHTotal(win: int, dgd: Plane, src: Plane, r: Rect, v: int, p: int, c: int)
    requires ValidWin(win) && Aligned(r) && HaloIs(dgd, r, v)
    requires 0 <= p < win * win && 0 <= c < win * SCRATCH_STRIDE && c % SCRATCH_STRIDE < win
    ensures Accumulated(win, dgd, src, r, false).hInt[p][c] == v * v * PixelCount(r)
  {
    var m, n := c / SCRATCH_STRIDE, c % SCRATCH_STRIDE;
    HaloProduct(dgd, win, r, v, p, m, n);
    AccConstant(Product(Tap(dgd, win, p), Degraded(dgd, win, m, n)), r, false, v * v);
    AccumulatedScratch(win, dgd, src, r, false, p, m, n);
    assert m * SCRATCH_STRIDE + n == c;
  }

  /**
    The geometry of the high-bit-depth overflow test's unit, rows and
    columns 16 to 384, with a hypothetical halo in which every sample the
    windows read equals v: each written H_int entry is beyond int32 for any
    v of 255 or more, so H_int needs 64 bits.
   */
  lemma OverflowUnitHTotal(win: int, dgd: Plane, src: Plane, r: Rect, v: int, p: int, c: int)
    requires ValidWin(win) && r == Rect(16, 384, 16, 384) && HaloIs(dgd, r, v) && v >= 255
    requires 0 <= p < win * win && 0 <= c < win * SCRATCH_STRIDE && c % SCRATCH_STRIDE < win
    ensures !IsInt32(Accumulated(win, dgd, src, r, false).hInt[p][c])
  {
    ConstantUnitHTotal(win, dgd, src, r, v, p, c);
    SquareTotalExceedsInt32(v);
  }

  lemma {:induction false} FactorSumPrefix(s: seq<Visit>, t: nat)
    requires t <= |s|
    requires forall u | 0 <= u < |s| :: s[u].factor >= 1
    ensures 0 <= FactorSum(s[..t]) <= FactorSum(s)
  {
    if t > 0 {
      assert s[..t][1..] == s[1..][..t - 1];
      assert forall u | 0 <= u < |s[1..]| :: s[1..][u] == s[u + 1];
      FactorSumPrefix(s[1..], t - 1);
    } else {
      FactorSumNonNegative(s);
    }
  }

  lemma {:induction false} FactorSumNonNegative(s: seq<Visit>)
    requires forall u | 0 <= u < |s| :: s[u].factor >= 1
    ensures FactorSum(s) >= 0
  {
    if s != [] {
      assert forall u | 0 <= u < |s[1..]| :: s[1..][u] == s[u + 1];
      FactorSumNonNegative(s[1..]);
    }
  }

  /**
    Running totals across rows: after any number of visits of the row loop,
    an accumulator of a term in [0, hi] is in [0, hi * 384^2].
   */
  lemma RunningTotalWithinMaxUnit(g: (int, int) -> int, r: Rect, downsample: bool, hi: int, t: nat)
    requires WithinMaxUnit(r) && hi >= 0
    requires forall i, j :: 0 <= g(i, j) <= hi
    requires t <= |Rows(r.vStart, r.vEnd, downsample)|
    ensures 0 <= Weighted(g, Rows(r.vStart, r.vEnd, downsample)[..t], r.hStart, r.hEnd) <= hi * MAX_PIXELS
  {
    var s := Rows(r.vStart, r.vEnd, downsample);
    RowsTile(r.vStart, r.vEnd, downsample);
    FactorSumPrefix(s, t);
    assert forall u | 0 <= u < |s[..t]| :: s[..t][u] == s[u];
    WeightedBounds(g, s[..t], r, 0, hi);
    var w := r.hEnd - r.hStart;
    ScaleBound(w, 384, hi);
    ScaleBound(FactorSum(s[..t]), r.vEnd - r.vStart, hi * w);
    ScaleBound(r.vEnd - r.vStart, 384, hi * w);
    ScaleBound(hi * w, hi * 384, 384);
  }
}
