/**
  The entry points of the Wiener statistics kernels in test/wiener_test.cc:
  compute_stats_win_opt_c and compute_stats_highbd_win_opt_c, and the
  dispatchers compute_stats_opt_c and compute_stats_highbd_opt_c, which use
  the optimised kernel for 7- and 5-tap windows and the general reference
  routine for any other window.

  find_average / find_average_highbd and the reference routines
  av1_compute_stats_c / av1_compute_stats_highbd_c are not part of this model;
  they are function parameters.
 */
module WienerKernels {
  import opened CInt
  import opened Sums
  import opened Accumulate
  import opened WienerStats

  datatype Option<T> = None | Some(value: T)

  /** The pieces of the unit the centred statistics are taken over. */
  predicate Aligned(r: Rect) {
    r.hStart % 2 == 0 && r.hStart <= r.hEnd && r.vStart <= r.vEnd
  }

  /** The total, over the visited pixels, of (sample of tap t - avg) * (source pixel - avg). */
  function CentredM(dgd: Plane, src: Plane, win: int, r: Rect, downsample: bool, avg: int, t: int): int
    requires win > 0
  {
    Acc(Product(Centred(Tap(dgd, win, t), avg), Centred(Source(src), avg)), r, downsample)
  }

  /** The total, over the visited pixels, of (sample of tap p - avg) * (sample of tap q - avg). */
  function CentredH(dgd: Plane, win: int, r: Rect, downsample: bool, avg: int, p: int, q: int): int
    requires win > 0
  {
    Acc(Product(Centred(Tap(dgd, win, p), avg), Centred(Tap(dgd, win, q), avg)), r, downsample)
  }

  lemma KernelM(win: int, dgd: Plane, src: Plane, r: Rect, downsample: bool, avg: int, divider: int)
    requires ValidWin(win) && divider > 0
    ensures var s := Finalize(win, Accumulated(win, dgd, src, r, downsample), avg, PixelCount(r), divider);
      Aligned(r) ==> forall t | 0 <= t < win * win :: s.m[t] == CDiv(CentredM(dgd, src, win, r, downsample, avg, t), divider)
  {
    if Aligned(r) {
      forall t | 0 <= t < win * win
        ensures Finalize(win, Accumulated(win, dgd, src, r, downsample), avg, PixelCount(r), divider).m[t]
             == CDiv(CentredM(dgd, src, win, r, downsample, avg, t), divider)
      {
        MIsCentred(win, dgd, src, r, downsample, avg, divider, t);
      }
    }
  }

  lemma KernelH(win: int, dgd: Plane, src: Plane, r: Rect, downsample: bool, avg: int, divider: int)
    requires ValidWin(win) && divider > 0
    ensures var s := Finalize(win, Accumulated(win, dgd, src, r, downsample), avg, PixelCount(r), divider);
      Aligned(r) ==> forall p, q | 0 <= p < win * win && 0 <= q < win * win ::
        HAt(s, win, p, q) == CDiv(CentredH(dgd, win, r, downsample, avg, p, q), divider)
  {
    var s := Finalize(win, Accumulated(win, dgd, src, r, downsample), avg, PixelCount(r), divider);
    if Aligned(r) {
      forall p, q | 0 <= p < win * win && 0 <= q < win * win
        ensures HAt(s, win, p, q) == CDiv(CentredH(dgd, win, r, downsample, avg, p, q), divider)
      {
        HIsCentred(win, dgd, src, r, downsample, avg, divider, p, q);
      }
    }
  }

  lemma KernelSymmetric(win: int, dgd: Plane, src: Plane, r: Rect, downsample: bool, avg: int, divider: int)
    requires ValidWin(win) && divider > 0
    ensures var s := Finalize(win, Accumulated(win, dgd, src, r, downsample), avg, PixelCount(r), divider);
      forall p, q | 0 <= p < win * win && 0 <= q < win * win :: HAt(s, win, p, q) == HAt(s, win, q, p)
  {
    var s := Finalize(win, Accumulated(win, dgd, src, r, downsample), avg, PixelCount(r), divider);
    forall p, q | 0 <= p < win * win && 0 <= q < win * win
      ensures HAt(s, win, p, q) == HAt(s, win, q, p)
    {
      HSymmetric(win, dgd, src, r, downsample, avg, PixelCount(r), divider, p, q);
    }
  }

  /**
    The statistics for one valid window, as both kernels finish them: every
    M and H entry is the centred total divided (truncating) by `divider`, and
    H is symmetric.
   */
  function Kernel(win: int, dgd: Plane, src: Plane, r: Rect, downsample: bool, avg: int, divider: int): (s: Stats)
    requires ValidWin(win) && divider > 0
    ensures |s.m| == win * win && |s.h| == win * win * win * win
    ensures Aligned(r) ==> forall t | 0 <= t < win * win :: s.m[t] == CDiv(CentredM(dgd, src, win, r, downsample, avg, t), divider)
    ensures Aligned(r) ==> forall p, q | 0 <= p < win * win && 0 <= q < win * win ::
      HAt(s, win, p, q) == CDiv(CentredH(dgd, win, r, downsample, avg, p, q), divider)
    ensures forall p, q | 0 <= p < win * win && 0 <= q < win * win :: HAt(s, win, p, q) == HAt(s, win, q, p)
  {
    var s := Finalize(win, Accumulated(win, dgd, src, r, downsample), avg, PixelCount(r), divider);
    KernelM(win, dgd, src, r, downsample, avg, divider);
    KernelH(win, dgd, src, r, downsample, avg, divider);
    KernelSymmetric(win, dgd, src, r, downsample, avg, divider);
    s
  }

  /**
    compute_stats_win_opt_c: no result (the kernel returns early) unless the
    window has 7 or 5 taps; otherwise H is symmetric and, for an aligned unit
    (even h_start, h_start <= h_end, v_start <= v_end), M and H are the
    centred totals over the visited rows, with the average reduced to
    uint8_t. The 8-bit kernel does not divide.
   */
  function ComputeStatsWinOpt(win: int, dgd: Plane, src: Plane, r: Rect, downsample: bool,
                              findAverage: (Plane, Rect) -> int): (res: Option<Stats>)
    ensures res.None? <==> !ValidWin(win)
    ensures res.Some? ==> |res.value.m| == win * win && |res.value.h| == win * win * win * win
    ensures res.Some? ==> forall p, q | 0 <= p < win * win && 0 <= q < win * win ::
      HAt(res.value, win, p, q) == HAt(res.value, win, q, p)
    ensures res.Some? && Aligned(r) ==>
      var avg := findAverage(dgd, r) % 0x100;
      && (forall t | 0 <= t < win * win :: res.value.m[t] == CentredM(dgd, src, win, r, downsample, avg, t))
      && (forall p, q | 0 <= p < win * win && 0 <= q < win * win ::
            HAt(res.value, win, p, q) == CentredH(dgd, win, r, downsample, avg, p, q))
  {
    if !ValidWin(win) then None
    else
      var avg := findAverage(dgd, r) % 0x100;
      var s := Kernel(win, dgd, src, r, downsample, avg, 1);
      assert forall x :: CDiv(x, 1) == x;
      Some(s)
  }

  /**
    compute_stats_opt_c: the optimised kernel for 7- and 5-tap windows, the
    reference routine (a parameter here) for any other window.
   */
  function ComputeStatsOpt(win: int, dgd: Plane, src: Plane, r: Rect, downsample: bool,
                           findAverage: (Plane, Rect) -> int,
                           fallback: (int, Plane, Plane, Rect, bool) -> Stats): (res: Stats)
    ensures ValidWin(win) ==> Some(res) == ComputeStatsWinOpt(win, dgd, src, r, downsample, findAverage)
    ensures !ValidWin(win) ==> res == fallback(win, dgd, src, r, downsample)
  {
    match ComputeStatsWinOpt(win, dgd, src, r, downsample, findAverage)
    case Some(s) => s
    case None => fallback(win, dgd, src, r, downsample)
  }

  /**
    bit_depth_divider: 16 for 12-bit, 4 for 10-bit, otherwise 1; that is,
    2^(bd - 8) for the three bit depths the codec supports.
   */
  function Divider(bitDepth: int): (d: int)
    ensures d > 0
    ensures bitDepth == 8 || bitDepth == 10 || bitDepth == 12 ==> d == Pow2(bitDepth - 8)
  {
    if bitDepth == 12 then
      assert Pow2(bitDepth - 8) == Pow2(4) == 4 * Pow2(2) == 16;
      16
    else if bitDepth == 10 then
      assert Pow2(bitDepth - 8) == Pow2(2) == 2 * Pow2(1) == 4;
      4
    else
      assert bitDepth == 8 ==> Pow2(bitDepth - 8) == Pow2(0) == 1;
      1
  }

  /**
    compute_stats_highbd_win_opt_c: never downsamples; H is symmetric and,
    for an aligned unit (even h_start, h_start <= h_end, v_start <= v_end),
    M and H are the centred sums over every pixel of the unit, each pixel
    once, divided with truncation toward zero by 1, 4 or 16; the average is
    reduced to uint16_t.
   */
  function ComputeStatsHighbdWinOpt(win: int, dgd: Plane, src: Plane, r: Rect, bitDepth: int,
                                    findAverage: (Plane, Rect) -> int): (res: Option<Stats>)
    ensures res.None? <==> !ValidWin(win)
    ensures res.Some? ==> |res.value.m| == win * win && |res.value.h| == win * win * win * win
    ensures res.Some? ==> forall p, q | 0 <= p < win * win && 0 <= q < win * win ::
      HAt(res.value, win, p, q) == HAt(res.value, win, q, p)
    ensures res.Some? && Aligned(r) ==>
      var avg := findAverage(dgd, r) % 0x1_0000;
      && (forall t | 0 <= t < win * win ::
            res.value.m[t] == CDiv(RectSum(Product(Centred(Tap(dgd, win, t), avg), Centred(Source(src), avg)), r), Divider(bitDepth)))
      && (forall p, q | 0 <= p < win * win && 0 <= q < win * win ::
            HAt(res.value, win, p, q)
            == CDiv(RectSum(Product(Centred(Tap(dgd, win, p), avg), Centred(Tap(dgd, win, q), avg)), r), Divider(bitDepth)))
  {
    if !ValidWin(win) then None
    else
      var avg := findAverage(dgd, r) % 0x1_0000;
      var s := Kernel(win, dgd, src, r, false, avg, Divider(bitDepth));
      assert Aligned(r) ==> forall t | 0 <= t < win * win ::
        s.m[t] == CDiv(RectSum(Product(Centred(Tap(dgd, win, t), avg), Centred(Source(src), avg)), r), Divider(bitDepth)) by {
        if Aligned(r) {
          forall t | 0 <= t < win * win
            ensures s.m[t] == CDiv(RectSum(Product(Centred(Tap(dgd, win, t), avg), Centred(Source(src), avg)), r), Divider(bitDepth))
          {
            AccIsRectSum(Product(Centred(Tap(dgd, win, t), avg), Centred(Source(src), avg)), r);
          }
        }
      }
      assert Aligned(r) ==> forall p, q | 0 <= p < win * win && 0 <= q < win * win ::
        HAt(s, win, p, q)
        == CDiv(RectSum(Product(Centred(Tap(dgd, win, p), avg), Centred(Tap(dgd, win, q), avg)), r), Divider(bitDepth)) by {
        if Aligned(r) {
          forall p, q | 0 <= p < win * win && 0 <= q < win * win
            ensures HAt(s, win, p, q)
                 == CDiv(RectSum(Product(Centred(Tap(dgd, win, p), avg), Centred(Tap(dgd, win, q), avg)), r), Divider(bitDepth))
          {
            AccIsRectSum(Product(Centred(Tap(dgd, win, p), avg), Centred(Tap(dgd, win, q), avg)), r);
          }
        }
      }
      Some(s)
  }

  /** compute_stats_highbd_opt_c: the same dispatch as the 8-bit one. */
  function ComputeStatsHighbdOpt(win: int, dgd: Plane, src: Plane, r: Rect, bitDepth: int,
                                 findAverage: (Plane, Rect) -> int,
                                 fallback: (int, Plane, Plane, Rect, int) -> Stats): (res: Stats)
    ensures ValidWin(win) ==> Some(res) == ComputeStatsHighbdWinOpt(win, dgd, src, r, bitDepth, findAverage)
    ensures !ValidWin(win) ==> res == fallback(win, dgd, src, r, bitDepth)
  {
    match ComputeStatsHighbdWinOpt(win, dgd, src, r, bitDepth, findAverage)
    case Some(s) => s
    case None => fallback(win, dgd, src, r, bitDepth)
  }

  /**
    Without downsampling the 8-bit kernel's M and H are the centred sums over
    every pixel of the unit, each pixel once: the values a one-pixel-at-a-time
    reference computes, which is what the tests compare the kernels with.
   */
  lemma WinOptMatchesPlainSums(win: int, dgd: Plane, src: Plane, r: Rect, findAverage: (Plane, Rect) -> int)
    requires ValidWin(win) && Aligned(r)
    ensures var res := ComputeStatsWinOpt(win, dgd, src, r, false, findAverage);
      var avg := findAverage(dgd, r) % 0x100;
      && res.Some?
      && (forall t | 0 <= t < win * win ::
            res.value.m[t] == RectSum(Product(Centred(Tap(dgd, win, t), avg), Centred(Source(src), avg)), r))
      && (forall p, q | 0 <= p < win * win && 0 <= q < win * win ::
            HAt(res.value, win, p, q) == RectSum(Product(Centred(Tap(dgd, win, p), avg), Centred(Tap(dgd, win, q), avg)), r))
  {
    var avg := findAverage(dgd, r) % 0x100;
    forall t | 0 <= t < win * win
      ensures CentredM(dgd, src, win, r, false, avg, t)
           == RectSum(Product(Centred(Tap(dgd, win, t), avg), Centred(Source(src), avg)), r)
    {
      AccIsRectSum(Product(Centred(Tap(dgd, win, t), avg), Centred(Source(src), avg)), r);
    }
    forall p, q | 0 <= p < win * win && 0 <= q < win * win
      ensures CentredH(dgd, win, r, false, avg, p, q)
           == RectSum(Product(Centred(Tap(dgd, win, p), avg), Centred(Tap(dgd, win, q), avg)), r)
    {
      AccIsRectSum(Product(Centred(Tap(dgd, win, p), avg), Centred(Tap(dgd, win, q), avg)), r);
    }
  }
}
