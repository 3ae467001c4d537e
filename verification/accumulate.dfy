/**
  One accumulator of the Wiener statistics kernels (test/wiener_test.cc).
  sumX, each sumY[k][l], each M_int[l][k] and each H_int entry is built the
  same way: a per-pixel term is added up over the paired-column loop of each
  visited row, and the row total is multiplied by that visit's factor before
  it is added to the running total. The entries do not interact, so each is
  the same function of its own term.
 */
module Accumulate {
  import opened Sums
  import opened ColumnPairs
  import opened RowSchedule

  /** Sum over the visits of factor times the row's paired-loop total. */
  function Weighted(g: (int, int) -> int, s: seq<Visit>, hStart: int, hEnd: int): int {
    if s == [] then 0
    else s[0].factor * RowAcc(Slice(g, s[0].row), hStart, hEnd) + Weighted(g, s[1..], hStart, hEnd)
  }

  /** The accumulator of term g over rectangle r, as the kernel's loops build it. */
  function Acc(g: (int, int) -> int, r: Rect, downsample: bool): int {
    Weighted(g, Rows(r.vStart, r.vEnd, downsample), r.hStart, r.hEnd)
  }

  /** The term 1 at every pixel: its accumulator counts pixels. */
  function Unit(): (int, int) -> int {
    (_, _) => 1
  }

  /** One step of the affine induction, on plain integers. */
  lemma AffineStep(a: int, rf: int, rg: int, rh: int, r1: int, wf: int, wg: int, wh: int, w1: int, x: int, y: int)
    requires rf == rg + x * rh + y * r1
    requires wf == wg + x * wh + y * w1
    ensures a * rf + wf == (a * rg + wg) + x * (a * rh + wh) + y * (a * r1 + w1)
  {
    assert a * (x * rh) == x * (a * rh);
    assert a * (y * r1) == y * (a * r1);
  }

  /** One row's total is affine in the term, with the constant counted once per pixel visited. */
  lemma RowTotalAffine(f: (int, int) -> int, g: (int, int) -> int, h: (int, int) -> int, x: int, y: int,
                       row: int, hStart: int, hEnd: int)
    requires forall i, j :: f(i, j) == g(i, j) + x * h(i, j) + y
    ensures RowAcc(Slice(f, row), hStart, hEnd)
         == RowAcc(Slice(g, row), hStart, hEnd) + x * RowAcc(Slice(h, row), hStart, hEnd) + y * RowAcc(Slice(Unit(), row), hStart, hEnd)
  {
    assert forall c :: Slice(f, row)(c) == Slice(g, row)(c) + x * Slice(h, row)(c) + y;
    RowAccAffine(Slice(f, row), Slice(g, row), Slice(h, row), x, y, hStart, hEnd);
    RowAccCongruent(Slice(Unit(), row), One(), hStart, hEnd);
  }

  /** The affine relation extends from the later visits to a list with one more visit in front. */
  lemma WeightedAffineCons(f: (int, int) -> int, g: (int, int) -> int, h: (int, int) -> int, x: int, y: int,
                           s: seq<Visit>, hStart: int, hEnd: int)
    requires s != []
    requires Weighted(f, s[1..], hStart, hEnd)
          == Weighted(g, s[1..], hStart, hEnd) + x * Weighted(h, s[1..], hStart, hEnd) + y * Weighted(Unit(), s[1..], hStart, hEnd)
    requires var row := s[0].row;
      RowAcc(Slice(f, row), hStart, hEnd)
      == RowAcc(Slice(g, row), hStart, hEnd) + x * RowAcc(Slice(h, row), hStart, hEnd) + y * RowAcc(Slice(Unit(), row), hStart, hEnd)
    ensures Weighted(f, s, hStart, hEnd)
         == Weighted(g, s, hStart, hEnd) + x * Weighted(h, s, hStart, hEnd) + y * Weighted(Unit(), s, hStart, hEnd)
  {
    var row, a := s[0].row, s[0].factor;
    var rf, rg, rh, r1 := RowAcc(Slice(f, row), hStart, hEnd), RowAcc(Slice(g, row), hStart, hEnd),
                          RowAcc(Slice(h, row), hStart, hEnd), RowAcc(Slice(Unit(), row), hStart, hEnd);
    var wf, wg, wh, w1 := Weighted(f, s[1..], hStart, hEnd), Weighted(g, s[1..], hStart, hEnd),
                          Weighted(h, s[1..], hStart, hEnd), Weighted(Unit(), s[1..], hStart, hEnd);
    assert Weighted(f, s, hStart, hEnd) == a * rf + wf;
    assert Weighted(g, s, hStart, hEnd) == a * rg + wg;
    assert Weighted(h, s, hStart, hEnd) == a * rh + wh;
    assert Weighted(Unit(), s, hStart, hEnd) == a * r1 + w1;
    AffineStep(a, rf, rg, rh, r1, wf, wg, wh, w1, x, y);
  }

  lemma {:induction false} WeightedAffine(f: (int, int) -> int, g: (int, int) -> int, h: (int, int) -> int, x: int, y: int,
                                          s: seq<Visit>, hStart: int, hEnd: int)
    requires forall i, j :: f(i, j) == g(i, j) + x * h(i, j) + y
    ensures Weighted(f, s, hStart, hEnd)
         == Weighted(g, s, hStart, hEnd) + x * Weighted(h, s, hStart, hEnd) + y * Weighted(Unit(), s, hStart, hEnd)
  {
    if s != [] {
      WeightedAffine(f, g, h, x, y, s[1..], hStart, hEnd);
      RowTotalAffine(f, g, h, x, y, s[0].row, hStart, hEnd);
      WeightedAffineCons(f, g, h, x, y, s, hStart, hEnd);
    }
  }

  /**
    Accumulation is affine in the term: if f = g + x*h + y at every pixel, then
    Acc(f) = Acc(g) + x*Acc(h) + y*Acc(1). This is what lets the centring
    correction be applied to the totals instead of to every pixel.
   */
  lemma AccAffine(f: (int, int) -> int, g: (int, int) -> int, h: (int, int) -> int, x: int, y: int, r: Rect, downsample: bool)
    requires forall i, j :: f(i, j) == g(i, j) + x * h(i, j) + y
    ensures Acc(f, r, downsample) == Acc(g, r, downsample) + x * Acc(h, r, downsample) + y * Acc(Unit(), r, downsample)
  {
    WeightedAffine(f, g, h, x, y, Rows(r.vStart, r.vEnd, downsample), r.hStart, r.hEnd);
  }

  /** Terms that agree at every pixel have the same accumulator. */
  lemma AccCongruent(f: (int, int) -> int, g: (int, int) -> int, r: Rect, downsample: bool)
    requires forall i, j :: f(i, j) == g(i, j)
    ensures Acc(f, r, downsample) == Acc(g, r, downsample)
  {
    AccAffine(f, g, g, 0, 0, r, downsample);
  }

  lemma {:induction false} WeightedUnit(s: seq<Visit>, hStart: int, hEnd: int)
    requires hStart % 2 == 0 && hStart <= hEnd
    ensures Weighted(Unit(), s, hStart, hEnd) == (hEnd - hStart) * FactorSum(s)
  {
    if s != [] {
      WeightedUnit(s[1..], hStart, hEnd);
      RowAccCongruent(Slice(Unit(), s[0].row), One(), hStart, hEnd);
      RowAccCount(hStart, hEnd);
      assert (hEnd - hStart) * FactorSum(s) == (hEnd - hStart) * s[0].factor + (hEnd - hStart) * FactorSum(s[1..]);
    }
  }

  /**
    The loops visit (h_end - h_start) * (v_end - v_start) weighted pixels,
    the pixel_count the kernels compute, with or without downsampling.
   */
  lemma AccCountsPixels(r: Rect, downsample: bool)
    requires r.hStart % 2 == 0 && r.hStart <= r.hEnd && r.vStart <= r.vEnd
    ensures Acc(Unit(), r, downsample) == (r.hEnd - r.hStart) * (r.vEnd - r.vStart)
  {
    RowsTile(r.vStart, r.vEnd, downsample);
    WeightedUnit(Rows(r.vStart, r.vEnd, downsample), r.hStart, r.hEnd);
  }

  lemma {:induction false} WeightedEveryRow(g: (int, int) -> int, i: int, r: Rect)
    requires r.hStart % 2 == 0 && r.hStart <= r.hEnd
    ensures Weighted(g, Schedule(i, r.vEnd, false, 1), r.hStart, r.hEnd) == ColSum(RowTotals(g, r), i, r.vEnd)
    decreases r.vEnd - i
  {
    if i < r.vEnd {
      WeightedEveryRow(g, i + 1, r);
      var s := Schedule(i, r.vEnd, false, 1);
      assert s == [Visit(i, 1)] + Schedule(i + 1, r.vEnd, false, 1);
      assert s[1..] == Schedule(i + 1, r.vEnd, false, 1);
      RowAccIsColSum(Slice(g, i), r.hStart, r.hEnd);
      assert RowTotals(g, r)(i) == ColSum(Slice(g, i), r.hStart, r.hEnd);
    }
  }

  /**
    Without downsampling, for an even h_start <= h_end, the accumulator is the
    plain sum of the term over every pixel of the rectangle, each pixel once.
   */
  lemma AccIsRectSum(g: (int, int) -> int, r: Rect)
    requires r.hStart % 2 == 0 && r.hStart <= r.hEnd
    ensures Acc(g, r, false) == RectSum(g, r)
  {
    WeightedEveryRow(g, r.vStart, r);
  }

  /** One step of the bound induction, on plain integers. */
  lemma BoundStep(f: int, row: int, rest: int, lo: int, hi: int, sum: int)
    requires f >= 1 && lo <= row <= hi && lo * sum <= rest <= hi * sum
    ensures lo * (f + sum) <= f * row + rest <= hi * (f + sum)
  {
    assert f * (row - lo) >= 0 && f * (hi - row) >= 0;
  }

  lemma {:induction false} WeightedBounds(g: (int, int) -> int, s: seq<Visit>, r: Rect, lo: int, hi: int)
    requires r.hStart % 2 == 0 && r.hStart <= r.hEnd
    requires forall t | 0 <= t < |s| :: s[t].factor >= 1 && r.vStart <= s[t].row < r.vEnd
    requires forall i, j | r.vStart <= i < r.vEnd && r.hStart <= j < r.hEnd :: lo <= g(i, j) <= hi
    ensures (lo * (r.hEnd - r.hStart)) * FactorSum(s) <= Weighted(g, s, r.hStart, r.hEnd) <= (hi * (r.hEnd - r.hStart)) * FactorSum(s)
  {
    if s != [] {
      assert forall t | 0 <= t < |s[1..]| :: s[1..][t] == s[t + 1];
      WeightedBounds(g, s[1..], r, lo, hi);
      var row := s[0].row;
      var w := r.hEnd - r.hStart;
      RowAccBounds(Slice(g, row), r.hStart, r.hEnd, lo, hi);
      BoundStep(s[0].factor, RowAcc(Slice(g, row), r.hStart, r.hEnd), Weighted(g, s[1..], r.hStart, r.hEnd),
                lo * w, hi * w, FactorSum(s[1..]));
    }
  }

  /**
    A term in [0, hi] on the rectangle gives an accumulator in
    [0, hi * pixel_count]: only pixels of the rectangle are ever read.
   */
  lemma AccBounds(g: (int, int) -> int, r: Rect, downsample: bool, hi: int)
    requires r.hStart % 2 == 0 && r.hStart <= r.hEnd && r.vStart <= r.vEnd
    requires forall i, j | r.vStart <= i < r.vEnd && r.hStart <= j < r.hEnd :: 0 <= g(i, j) <= hi
    ensures 0 <= Acc(g, r, downsample) <= hi * ((r.hEnd - r.hStart) * (r.vEnd - r.vStart))
  {
    var s := Rows(r.vStart, r.vEnd, downsample);
    RowsTile(r.vStart, r.vEnd, downsample);
    WeightedBounds(g, s, r, 0, hi);
    MulAssoc(hi, r.hEnd - r.hStart, r.vEnd - r.vStart);
  }

  /** A term that is the same value v at every pixel of the rectangle accumulates to v * pixel_count. */
  lemma AccConstant(g: (int, int) -> int, r: Rect, downsample: bool, v: int)
    requires r.hStart % 2 == 0 && r.hStart <= r.hEnd && r.vStart <= r.vEnd
    requires forall i, j | r.vStart <= i < r.vEnd && r.hStart <= j < r.hEnd :: g(i, j) == v
    ensures Acc(g, r, downsample) == v * ((r.hEnd - r.hStart) * (r.vEnd - r.vStart))
  {
    var s := Rows(r.vStart, r.vEnd, downsample);
    RowsTile(r.vStart, r.vEnd, downsample);
    WeightedBounds(g, s, r, v, v);
    MulAssoc(v, r.hEnd - r.hStart, r.vEnd - r.vStart);
  }

  lemma MulAssoc(a: int, b: int, c: int)
    ensures (a * b) * c == a * (b * c)
  {
  }
}
