/**
  The SSSE3 CDEF entry points of av1/common/x86/cdef_block_ssse3.c: the copy
  of an 8-bit rectangle into a 16-bit buffer (an eight-pixel vector body then
  a scalar tail on every row), and the dual direction search, which is two
  independent calls of the direction finder on two 8x8 blocks.

  Buffers are sequences indexed from their base pointer; a row of the
  rectangle starts at row * stride. The direction finder itself is not part
  of this model and is passed in as a function.
 */
module Cdef {
  import CInt

  type uint8 = x: int | 0 <= x < 256

  /** `w & ~7`: w rounded down to a multiple of 8 (two's complement, so also for negative w). */
  function RoundDown8(w: int): (r: int)
    ensures r % 8 == 0 && r <= w < r + 8
  {
    w - w % 8
  }

  /**
    Where row i of a buffer starts: i * stride, built up one stride at a time
    so that the proofs below reason about rows rather than about products.
   */
  function RowStart(i: int, stride: int): int
    decreases i
  {
    if i <= 0 then 0 else RowStart(i - 1, stride) + stride
  }

  lemma {:induction false} RowStartIsProduct(i: int, stride: int)
    requires i >= 0
    ensures RowStart(i, stride) == i * stride
    decreases i
  {
    if i > 0 {
      RowStartIsProduct(i - 1, stride);
    }
  }

  /** With a non-negative stride a later row starts at least one stride further on. */
  lemma {:induction false} RowStartGap(i: int, k: int, stride: int)
    requires 0 <= i < k && stride >= 0
    ensures 0 <= RowStart(i, stride) && RowStart(i, stride) + stride <= RowStart(k, stride)
    decreases k
  {
    if i < k - 1 {
      RowStartGap(i, k - 1, stride);
    } else if i > 0 {
      RowStartGap(0, i, stride);
    }
  }

  /** Every row of a width x height rectangle with this stride lies inside a buffer of n elements. */
  predicate RectFits(n: int, stride: int, width: int, height: int) {
    width <= 0 || height <= 0 || (0 <= stride && RowStart(height - 1, stride) + width <= n)
  }

  lemma RowFits(n: int, stride: int, width: int, height: int, i: int)
    requires RectFits(n, stride, width, height) && width > 0 && 0 <= i < height
    ensures 0 <= RowStart(i, stride) && RowStart(i, stride) + width <= n
  {
    if i < height - 1 {
      RowStartGap(i, height - 1, stride);
    }
  }

  lemma FitsFewerRows(n: int, stride: int, width: int, height: int)
    requires RectFits(n, stride, width, height) && height > 0
    ensures RectFits(n, stride, width, height - 1)
  {
    if width > 0 && height > 1 {
      RowFits(n, stride, width, height, height - 2);
    }
  }

  /** Offset of (row, col) in a buffer with the given stride: row * stride + col. */
  function Offset(row: int, col: int, stride: int): int {
    RowStart(row, stride) + col
  }

  /** `v128_unpack_u8_s16`: zero-extend bytes to 16-bit lanes. */
  function Widen(b: seq<uint8>): (r: seq<int>)
    ensures |r| == |b|
    ensures forall t | 0 <= t < |b| :: r[t] == b[t] as int && 0 <= r[t] < 256
  {
    seq(|b|, t requires 0 <= t < |b| => b[t] as int)
  }

  /** `vals` written at `off`; the rest of the buffer is kept. */
  function Overwrite(dst: seq<int>, off: int, vals: seq<int>): (r: seq<int>)
    requires 0 <= off && off + |vals| <= |dst|
    ensures |r| == |dst|
    ensures forall p | 0 <= p < |dst| :: r[p] == if off <= p < off + |vals| then vals[p - off] else dst[p]
  {
    seq(|dst|, p requires 0 <= p < |dst| => if off <= p < off + |vals| then vals[p - off] else dst[p])
  }

  /**
    dst agrees with dst0 except that its span [off, off + j) holds the first
    j values of `row`.
   */
  predicate Written(dst: seq<int>, dst0: seq<int>, off: int, row: seq<int>, j: int) {
    && |dst| == |dst0| && 0 <= j <= |row|
    && (forall p | 0 <= p < |dst| :: dst[p] == if off <= p < off + j then row[p - off] else dst0[p])
  }

  /** Writing the next piece of `row` at off + j extends the written prefix to k. */
  lemma WrittenStep(dst: seq<int>, dst0: seq<int>, off: int, row: seq<int>, j: int, k: int, piece: seq<int>)
    requires 0 <= off && off + |row| <= |dst0| && 0 <= j <= k <= |row|
    requires Written(dst, dst0, off, row, j)
    requires |piece| == k - j && forall t | 0 <= t < k - j :: piece[t] == row[j + t]
    ensures Written(Overwrite(dst, off + j, piece), dst0, off, row, k)
  {
    var d := Overwrite(dst, off + j, piece);
    forall p | 0 <= p < |d| ensures d[p] == if off <= p < off + k then row[p - off] else dst0[p] {
      if off + j <= p < off + k {
        assert piece[p - off - j] == row[j + (p - off - j)];
      }
    }
  }

  /** Once all of `row` is written, the buffer is dst0 overwritten with `row`. */
  lemma WrittenAll(dst: seq<int>, dst0: seq<int>, off: int, row: seq<int>)
    requires 0 <= off && off + |row| <= |dst0|
    requires Written(dst, dst0, off, row, |row|)
    ensures dst == Overwrite(dst0, off, row)
  {
    var o := Overwrite(dst0, off, row);
    assert forall p | 0 <= p < |dst| :: dst[p] == o[p];
  }

  /**
    The value at position p of the destination once rows 0 .. rows-1 of the
    rectangle have been copied in order: the source byte under the last row
    whose span covers p, zero-extended, or the old value when none does.
   */
  function CopiedAt(dst: seq<int>, dstride: int, src: seq<uint8>, sstride: int, width: int, rows: int, p: int): int
    requires RectFits(|src|, sstride, width, rows) && 0 <= p < |dst|
    decreases rows
  {
    if width <= 0 || rows <= 0 then dst[p]
    else
      FitsFewerRows(|src|, sstride, width, rows);
      RowFits(|src|, sstride, width, rows, rows - 1);
      var d := RowStart(rows - 1, dstride);
      if d <= p < d + width then src[RowStart(rows - 1, sstride) + (p - d)] as int
      else CopiedAt(dst, dstride, src, sstride, width, rows - 1, p)
  }

  /** The destination once the first `rows` rows have been copied. */
  function CopyRows(dst: seq<int>, dstride: int, src: seq<uint8>, sstride: int, width: int, rows: int): (r: seq<int>)
    requires RectFits(|src|, sstride, width, rows)
    ensures |r| == |dst|
  {
    seq(|dst|, p requires 0 <= p < |dst| => CopiedAt(dst, dstride, src, sstride, width, rows, p))
  }

  /** Copying row i on top of the first i rows is writing that row, widened, where it starts in the destination. */
  lemma CopyRowsStep(dst: seq<int>, dstride: int, src: seq<uint8>, sstride: int, width: int, i: int)
    requires width > 0 && i >= 0
    requires RectFits(|src|, sstride, width, i + 1) && RectFits(|dst|, dstride, width, i + 1)
    ensures RectFits(|src|, sstride, width, i)
    ensures 0 <= RowStart(i, sstride) && RowStart(i, sstride) + width <= |src|
    ensures 0 <= RowStart(i, dstride) && RowStart(i, dstride) + width <= |dst|
    ensures CopyRows(dst, dstride, src, sstride, width, i + 1)
         == Overwrite(CopyRows(dst, dstride, src, sstride, width, i), RowStart(i, dstride),
                      Widen(src[RowStart(i, sstride)..RowStart(i, sstride) + width]))
  {
    FitsFewerRows(|src|, sstride, width, i + 1);
    RowFits(|src|, sstride, width, i + 1, i);
    RowFits(|dst|, dstride, width, i + 1, i);
    var after := CopyRows(dst, dstride, src, sstride, width, i + 1);
    var written := Overwrite(CopyRows(dst, dstride, src, sstride, width, i), RowStart(i, dstride),
                             Widen(src[RowStart(i, sstride)..RowStart(i, sstride) + width]));
    assert forall p | 0 <= p < |dst| :: after[p] == written[p];
  }

  /** Position p lies in the destination rectangle (rows do not overlap when dstride >= width). */
  predicate InRect(p: int, dstride: int, width: int, height: int)
    requires dstride > 0
  {
    0 <= p && p / dstride < height && p % dstride < width
  }

  lemma OffsetInRow(i: int, j: int, dstride: int)
    requires 0 <= i && 0 <= j < dstride
    ensures Offset(i, j, dstride) / dstride == i && Offset(i, j, dstride) % dstride == j
  {
    RowStartIsProduct(i, dstride);
    assert Offset(i, j, dstride) == dstride * i + j;
    CInt.DivModUnique(Offset(i, j, dstride), dstride, i, j);
  }

  /** A position outside the rectangle is outside its last row and outside the rows before it. */
  lemma OutsideEarlierRows(p: int, dstride: int, width: int, rows: int)
    requires 0 <= p && dstride >= width && dstride > 0 && rows > 0
    requires !InRect(p, dstride, width, rows)
    ensures !(RowStart(rows - 1, dstride) <= p < RowStart(rows - 1, dstride) + width)
    ensures !InRect(p, dstride, width, rows - 1)
  {
    var off := RowStart(rows - 1, dstride);
    if off <= p < off + width {
      assert Offset(rows - 1, p - off, dstride) == p;
      OffsetInRow(rows - 1, p - off, dstride);
      assert false;
    }
  }

  /** Outside the rectangle the copy leaves the destination as it was. */
  lemma {:induction false} CopiedOutside(dst: seq<int>, dstride: int, src: seq<uint8>, sstride: int, width: int, rows: int, p: int)
    requires RectFits(|src|, sstride, width, rows) && 0 <= p < |dst|
    requires dstride >= width && dstride > 0 && !InRect(p, dstride, width, rows)
    ensures CopiedAt(dst, dstride, src, sstride, width, rows, p) == dst[p]
    decreases rows
  {
    if width > 0 && rows > 0 {
      FitsFewerRows(|src|, sstride, width, rows);
      OutsideEarlierRows(p, dstride, width, rows);
      CopiedOutside(dst, dstride, src, sstride, width, rows - 1, p);
    }
  }

  /**
    Inside the rectangle, when rows do not overlap, pixel (i, j) of the
    destination is source pixel (i, j) zero-extended.
   */
  lemma {:induction false} CopiedInside(dst: seq<int>, dstride: int, src: seq<uint8>, sstride: int, width: int, rows: int, i: int, j: int)
    requires RectFits(|src|, sstride, width, rows) && RectFits(|dst|, dstride, width, rows)
    requires dstride >= width && 0 <= i < rows && 0 <= j < width
    ensures 0 <= Offset(i, j, dstride) < |dst| && 0 <= Offset(i, j, sstride) < |src|
    ensures CopiedAt(dst, dstride, src, sstride, width, rows, Offset(i, j, dstride)) == src[Offset(i, j, sstride)] as int
    decreases rows
  {
    RowFits(|dst|, dstride, width, rows, i);
    RowFits(|src|, sstride, width, rows, i);
    FitsFewerRows(|src|, sstride, width, rows);
    FitsFewerRows(|dst|, dstride, width, rows);
    if i < rows - 1 {
      RowStartGap(i, rows - 1, dstride);
      CopiedInside(dst, dstride, src, sstride, width, rows - 1, i, j);
    }
  }

  /** Every value the copy puts in the destination is a zero-extended byte. */
  lemma {:induction false} CopiedByte(dst: seq<int>, dstride: int, src: seq<uint8>, sstride: int, width: int, rows: int, p: int)
    requires RectFits(|src|, sstride, width, rows) && 0 <= p < |dst|
    ensures var v := CopiedAt(dst, dstride, src, sstride, width, rows, p); v == dst[p] || 0 <= v < 256
    decreases rows
  {
    if width > 0 && rows > 0 {
      FitsFewerRows(|src|, sstride, width, rows);
      RowFits(|src|, sstride, width, rows, rows - 1);
      CopiedByte(dst, dstride, src, sstride, width, rows - 1, p);
    }
  }

  /** The copy, position by position: the three lemmas above over the whole destination. */
  lemma CopyRowsContents(dst: seq<int>, dstride: int, src: seq<uint8>, sstride: int, width: int, rows: int)
    requires RectFits(|src|, sstride, width, rows) && RectFits(|dst|, dstride, width, rows)
    ensures var r := CopyRows(dst, dstride, src, sstride, width, rows);
      forall p | 0 <= p < |dst| :: r[p] == dst[p] || 0 <= r[p] < 256
    ensures dstride >= width ==>
      forall i, j | 0 <= i < rows && 0 <= j < width ::
        0 <= Offset(i, j, dstride) < |dst| && 0 <= Offset(i, j, sstride) < |src|
        && CopyRows(dst, dstride, src, sstride, width, rows)[Offset(i, j, dstride)] == src[Offset(i, j, sstride)] as int
    ensures dstride >= width && dstride > 0 ==>
      forall p | 0 <= p < |dst| && !InRect(p, dstride, width, rows) :: CopyRows(dst, dstride, src, sstride, width, rows)[p] == dst[p]
  {
    forall p | 0 <= p < |dst| {
      CopiedByte(dst, dstride, src, sstride, width, rows, p);
    }
    if dstride >= width {
      forall i, j | 0 <= i < rows && 0 <= j < width
        ensures 0 <= Offset(i, j, dstride) < |dst| && 0 <= Offset(i, j, sstride) < |src|
        ensures CopyRows(dst, dstride, src, sstride, width, rows)[Offset(i, j, dstride)] == src[Offset(i, j, sstride)] as int
      {
        CopiedInside(dst, dstride, src, sstride, width, rows, i, j);
      }
      if dstride > 0 {
        forall p | 0 <= p < |dst| && !InRect(p, dstride, width, rows) {
          CopiedOutside(dst, dstride, src, sstride, width, rows, p);
        }
      }
    }
  }

  lemma Multiple8Gap(j: int, r: int)
    requires j % 8 == 0 && r % 8 == 0 && j < r
    ensures j + 8 <= r
  {
    assert j == 8 * (j / 8) && r == 8 * (r / 8);
    assert j / 8 < r / 8;
  }

  /**
    One row of the copy: eight pixels at a time (load eight bytes, widen,
    store eight lanes) up to width & ~7, then one pixel at a time up to width.
   */
  method CopyRow(dst0: seq<int>, doff: int, src: seq<uint8>, soff: int, width: int) returns (dst: seq<int>)
    requires width > 0 && 0 <= doff && doff + width <= |dst0| && 0 <= soff && soff + width <= |src|
    ensures dst == Overwrite(dst0, doff, Widen(src[soff..soff + width]))
  {
    ghost var row := Widen(src[soff..soff + width]);
    dst := dst0;
    var j := 0;
    while j < RoundDown8(width)
      invariant 0 <= j <= RoundDown8(width) && j % 8 == 0
      invariant Written(dst, dst0, doff, row, j)
    {
      Multiple8Gap(j, RoundDown8(width));
      var wide := Widen(src[soff + j..soff + j + 8]);
      WrittenStep(dst, dst0, doff, row, j, j + 8, wide);
      dst := Overwrite(dst, doff + j, wide);
      j := j + 8;
    }
    while j < width
      invariant 0 <= j <= width
      invariant Written(dst, dst0, doff, row, j)
    {
      WrittenStep(dst, dst0, doff, row, j, j + 1, [src[soff + j] as int]);
      assert dst[doff + j := src[soff + j] as int] == Overwrite(dst, doff + j, [src[soff + j] as int]);
      dst := dst[doff + j := src[soff + j] as int];
      j := j + 1;
    }
    WrittenAll(dst, dst0, doff, row);
  }

  /**
    cdef_copy_rect8_8bit_to_16bit_ssse3: every row in turn. The result is the
    row-by-row copy; when rows do not overlap (dstride >= width) every pixel
    of the rectangle is its source byte and nothing else changes.
   */
  method CopyRect8To16(dst0: seq<int>, dstride: int, src: seq<uint8>, sstride: int, width: int, height: int)
    returns (dst: seq<int>)
    requires RectFits(|src|, sstride, width, height) && RectFits(|dst0|, dstride, width, height)
    ensures dst == CopyRows(dst0, dstride, src, sstride, width, height)
    ensures |dst| == |dst0|
    ensures width <= 0 || height <= 0 ==> dst == dst0
    ensures forall p | 0 <= p < |dst0| :: dst[p] == dst0[p] || 0 <= dst[p] < 256
    ensures dstride >= width ==>
      forall i, j | 0 <= i < height && 0 <= j < width ::
        0 <= Offset(i, j, dstride) < |dst| && 0 <= Offset(i, j, sstride) < |src|
        && dst[Offset(i, j, dstride)] == src[Offset(i, j, sstride)] as int
    ensures dstride >= width && dstride > 0 ==>
      forall p | 0 <= p < |dst0| && !InRect(p, dstride, width, height) :: dst[p] == dst0[p]
  {
    dst := dst0;
    assert dst == CopyRows(dst0, dstride, src, sstride, width, 0);
    var i := 0;
    while i < height
      invariant 0 <= i <= if height < 0 then 0 else height
      invariant RectFits(|src|, sstride, width, i)
      invariant dst == CopyRows(dst0, dstride, src, sstride, width, i)
    {
      if width > 0 {
        RowFits(|src|, sstride, width, height, i);
        RowFits(|dst0|, dstride, width, height, i);
        CopyRowsStep(dst0, dstride, src, sstride, width, i);
        dst := CopyRow(dst, RowStart(i, dstride), src, RowStart(i, sstride), width);
      } else {
        assert CopyRows(dst0, dstride, src, sstride, width, i + 1) == dst;
      }
      i := i + 1;
    }
    assert dst == CopyRows(dst0, dstride, src, sstride, width, height);
    CopyRowsContents(dst0, dstride, src, sstride, width, height);
  }

  // ---------------------------------------------------------------------
  // cdef_find_dir_dual_ssse3

  /** What cdef_find_dir returns (the direction) and writes through its pointer (the variance). */
  datatype DirResult = DirResult(dir: int, variance: int)

  /** Both blocks' results: first from img1, second from img2. */
  datatype DualResult = DualResult(first: DirResult, second: DirResult)

  /** cdef_find_dir_dual_ssse3: the direction search on img1, then on img2, with the same stride and shift. */
  function FindDirDual(findDir: (seq<int>, int, int) -> DirResult, img1: seq<int>, img2: seq<int>, stride: int, coeffShift: int): DualResult {
    DualResult(findDir(img1, stride, coeffShift), findDir(img2, stride, coeffShift))
  }

  /** Each result depends only on its own block: changing the other block changes nothing in it. */
  lemma FindDirDualIndependent(findDir: (seq<int>, int, int) -> DirResult, img1: seq<int>, img2: seq<int>, img1x: seq<int>, img2x: seq<int>, stride: int, coeffShift: int)
    ensures FindDirDual(findDir, img1, img2, stride, coeffShift).first == FindDirDual(findDir, img1, img2x, stride, coeffShift).first
    ensures FindDirDual(findDir, img1, img2, stride, coeffShift).second == FindDirDual(findDir, img1x, img2, stride, coeffShift).second
  {
  }

  /** Exchanging the blocks exchanges the results. */
  lemma FindDirDualSwap(findDir: (seq<int>, int, int) -> DirResult, img1: seq<int>, img2: seq<int>, stride: int, coeffShift: int)
    ensures FindDirDual(findDir, img2, img1, stride, coeffShift).first == FindDirDual(findDir, img1, img2, stride, coeffShift).second
    ensures FindDirDual(findDir, img2, img1, stride, coeffShift).second == FindDirDual(findDir, img1, img2, stride, coeffShift).first
  {
  }
}
