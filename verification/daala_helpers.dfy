/**
  The per-lane arithmetic helpers of the Daala inverse transform
  (av1/common/x86/daala_inv_txfm_avx2.c): the unbiased halving, the signed
  rounding average and half-difference built from the unsigned PAVGW, the
  clamp to the pixel bit depth and the add-and-store of a residual block.
  Each helper is written as the composition of intrinsics it is built from;
  its contract states the scalar value every lane receives.
 */
module DaalaHelpers {
  import opened CInt
  import opened Lanes

  /** Lane-wise constant 0x8000 (`_mm_set1_epi16(0x8000)`). */
  function SignBits(): (r: Reg)
    ensures |r| == 8 && forall t | 0 <= t < 8 :: r[t] == SIGN_BIT
  {
    Set1(0x8000, 8)
  }

  // ---------------------------------------------------------------------
  // Lane facts

  lemma ModSmall(y: int)
    requires 0 <= y < 0x1_0000
    ensures y % 0x1_0000 == y
  {
    DivModUnique(y, 0x1_0000, 0, y);
  }

  /** Flipping the sign bit of an int16 lane gives its offset-binary reading. */
  lemma FlipSignUnsigned(a: int)
    requires IsInt16(a)
    ensures U16(Xor16(a, SIGN_BIT)) == a + 0x8000
  {
    XorSignBit(a);
    var w := Wrap16(a + 0x8000);
    ModSmall(a + 0x8000);
    if a + 0x8000 >= 0x8000 {
      assert w == a - 0x8000;
      ModSmall(a + 0x8000);
      DivModUnique(a - 0x8000, 0x1_0000, -1, a + 0x8000);
    } else {
      assert w == a + 0x8000;
    }
  }

  /** Flipping the sign bit back turns an offset-binary value into its signed value. */
  lemma FlipSignBack(u: int)
    requires 0 <= u < 0x1_0000
    ensures Xor16(Wrap16(u), SIGN_BIT) == u - 0x8000
  {
    XorSignBit(Wrap16(u));
    ModSmall(u);
    if u >= 0x8000 {
      assert Wrap16(u) == u - 0x1_0000;
      assert Wrap16(u) + 0x8000 == u - 0x8000;
    } else {
      assert Wrap16(u) == u;
      ModSmall(u + 0x8000);
    }
  }

  lemma UnsignedOfNegative(a: int)
    requires INT16_MIN <= a < 0
    ensures U16(a) == a + 0x1_0000
  {
    DivModUnique(a, 0x1_0000, -1, a + 0x1_0000);
  }

  lemma UnsignedOfNonNegative(a: int)
    requires 0 <= a <= INT16_MAX
    ensures U16(a) == a
  {
    ModSmall(a);
  }

  // ---------------------------------------------------------------------
  // od_unbiased_rshift1_epi16

  /** One lane of od_unbiased_rshift1_epi16, exactly as the intrinsics compute it. */
  function UnbiasedRshift1Lane(a: int): int {
    Srai16(Wrap16(Srli16(a, 15) + a), 1)
  }

  /** Adding the sign bit before the arithmetic shift turns its floor into a truncation. */
  lemma UnbiasedRshift1LaneValue(a: int)
    requires IsInt16(a)
    ensures UnbiasedRshift1Lane(a) == CDiv(a, 2)
  {
    Pow2Values();
    if a < 0 {
      UnsignedOfNegative(a);
      assert U16(a) / Pow2(15) == 1;
      assert Srli16(a, 15) == 1;
    } else {
      UnsignedOfNonNegative(a);
      assert Srli16(a, 15) == 0;
    }
  }

  /** Lane t of the register computation is the lane computation on lane t. */
  lemma UnbiasedRshift1RegLane(a: Reg, t: int)
    requires |a| == 8 && 0 <= t < 8
    ensures SraiEpi16(AddEpi16(SrliEpi16(a, 15), a), 1)[t] == UnbiasedRshift1Lane(a[t])
  {
    var s := SrliEpi16(a, 15);
    var sum := AddEpi16(s, a);
    assert s[t] == Srli16(a[t], 15);
    assert sum[t] == Wrap16(s[t] + a[t]);
  }

  /** (a + (a >>> 15)) >> 1: every lane halved, truncating toward zero. */
  function UnbiasedRshift1(a: Reg): (r: Reg)
    requires IsReg16(a)
    ensures |r| == 8
    ensures forall t | 0 <= t < 8 :: r[t] == CDiv(a[t], 2)
  {
    var r := SraiEpi16(AddEpi16(SrliEpi16(a, 15), a), 1);
    assert forall t | 0 <= t < 8 :: r[t] == CDiv(a[t], 2) by {
      forall t | 0 <= t < 8
        ensures r[t] == CDiv(a[t], 2)
      {
        UnbiasedRshift1RegLane(a, t);
        UnbiasedRshift1LaneValue(a[t]);
      }
    }
    r
  }

  // ---------------------------------------------------------------------
  // od_avg_epi16

  /** PAVGW of two lanes whose unsigned readings are known. */
  lemma AvgU16Of(x: int, y: int, ux: int, uy: int)
    requires U16(x) == ux && U16(y) == uy
    ensures AvgU16(x, y) == Wrap16((ux + uy + 1) / 2)
  {
  }

  /** Removing the 0x8000 offset from both operands of a rounded halving. */
  lemma HalfOffset(s: int)
    requires -0x1_0000 <= s < 0xFFFF
    ensures 0 <= (s + 0x1_0001) / 2 < 0x1_0000
    ensures (s + 0x1_0001) / 2 - 0x8000 == Asr(s + 1, 1)
  {
    Pow2Values();
    var q := (s + 1) / 2;
    assert s + 1 == 2 * q + (s + 1) % 2;
    DivModUnique(s + 0x1_0001, 2, q + 0x8000, (s + 1) % 2);
  }

  lemma AvgLane(a: int, b: int)
    requires IsInt16(a) && IsInt16(b)
    ensures Xor16(AvgU16(Xor16(a, SIGN_BIT), Xor16(b, SIGN_BIT)), SIGN_BIT) == Asr(a + b + 1, 1)
  {
    FlipSignUnsigned(a);
    FlipSignUnsigned(b);
    AvgU16Of(Xor16(a, SIGN_BIT), Xor16(b, SIGN_BIT), a + 0x8000, b + 0x8000);
    HalfOffset(a + b);
    FlipSignBack((a + b + 0x1_0001) / 2);
  }

  /** The signed rounding average (a + b + 1) >> 1, from the unsigned PAVGW with sign-bit flips. */
  function Avg(a: Reg, b: Reg): (r: Reg)
    requires IsReg16(a) && IsReg16(b)
    ensures IsReg16(r)
    ensures forall t | 0 <= t < 8 :: r[t] == Asr(a[t] + b[t] + 1, 1)
  {
    var s := SignBits();
    var r := XorSi128(AvgEpu16(XorSi128(a, s), XorSi128(b, s)), s);
    assert forall t | 0 <= t < 8 :: r[t] == Asr(a[t] + b[t] + 1, 1) by {
      forall t | 0 <= t < 8 {
        AvgLane(a[t], b[t]);
      }
    }
    r
  }

  // ---------------------------------------------------------------------
  // od_hrsub_epi16

  /** One lane of od_hrsub_epi16, exactly as the intrinsics compute it. */
  function HrSubLane(a: int, b: int): int {
    Xor16(AvgU16(Xor16(a, SIGN_BIT), Wrap16(SIGN_BIT - b)), SIGN_BIT)
  }

  /** 0x8000 - b, wrapped to 16 bits, read unsigned: exact unless b is -32768. */
  lemma SignBitMinusUnsigned(b: int)
    requires IsInt16(b) && b != INT16_MIN
    ensures U16(Wrap16(SIGN_BIT - b)) == 0x8000 - b
  {
    var d := Wrap16(SIGN_BIT - b);
    if b > 0 {
      assert d == 0x8000 - b;
      UnsignedOfNonNegative(d);
    } else {
      assert d == SIGN_BIT - b;
      UnsignedOfNegative(d);
    }
  }

  lemma HrSubLaneValue(a: int, b: int)
    requires IsInt16(a) && IsInt16(b) && b != INT16_MIN
    ensures HrSubLane(a, b) == Asr(a - b + 1, 1)
  {
    FlipSignUnsigned(a);
    SignBitMinusUnsigned(b);
    AvgU16Of(Xor16(a, SIGN_BIT), Wrap16(SIGN_BIT - b), a + 0x8000, 0x8000 - b);
    HalfOffset(a - b);
    FlipSignBack((a - b + 0x1_0001) / 2);
  }

  /** At b == -32768 the step 0x8000 - b wraps to 0 and the half-difference is wrong. */
  lemma HrSubWrapsAtMinimum()
    ensures Asr(0 - INT16_MIN + 1, 1) == 0x4000
    ensures HrSubLane(0, INT16_MIN) == -0x4000
  {
    Pow2Values();
    FlipSignUnsigned(0);
    assert Wrap16(SIGN_BIT - INT16_MIN) == 0;
    assert AvgU16(Xor16(0, SIGN_BIT), 0) == Wrap16(0x4000);
    FlipSignBack(0x4000);
  }

  /** Lane t of the register computation is HrSubLane of lane t of each operand. */
  lemma HrSubRegLane(a: Reg, b: Reg, t: int)
    requires |a| == 8 && |b| == 8 && 0 <= t < 8
    ensures XorSi128(AvgEpu16(XorSi128(a, SignBits()), SubEpi16(SignBits(), b)), SignBits())[t] == HrSubLane(a[t], b[t])
  {
    var s := SignBits();
    var x := XorSi128(a, s);
    var d := SubEpi16(s, b);
    var v := AvgEpu16(x, d);
    assert x[t] == Xor16(a[t], SIGN_BIT);
    assert d[t] == Wrap16(SIGN_BIT - b[t]);
    assert v[t] == AvgU16(x[t], d[t]);
  }

  /** Lane t of od_hrsub_epi16 is the rounded half difference of lane t of each operand. */
  lemma HrSubRegValue(a: Reg, b: Reg, t: int)
    requires |a| == 8 && |b| == 8 && 0 <= t < 8 && IsInt16(a[t]) && IsInt16(b[t]) && b[t] != INT16_MIN
    ensures XorSi128(AvgEpu16(XorSi128(a, SignBits()), SubEpi16(SignBits(), b)), SignBits())[t] == Asr(a[t] - b[t] + 1, 1)
  {
    HrSubRegLane(a, b, t);
    HrSubLaneValue(a[t], b[t]);
  }

  /** The rounded half difference (a - b + 1) >> 1, for every subtrahend lane other than -32768. */
  function HrSub(a: Reg, b: Reg): (r: Reg)
    requires IsReg16(a) && IsReg16(b)
    requires forall t | 0 <= t < 8 :: b[t] != INT16_MIN
    ensures IsReg16(r)
    ensures forall t | 0 <= t < 8 :: r[t] == Asr(a[t] - b[t] + 1, 1)
  {
    var s := SignBits();
    var r := XorSi128(AvgEpu16(XorSi128(a, s), SubEpi16(s, b)), s);
    assert forall t | 0 <= t < 8 :: r[t] == Asr(a[t] - b[t] + 1, 1) by {
      forall t | 0 <= t < 8
        ensures r[t] == Asr(a[t] - b[t] + 1, 1)
      {
        HrSubRegValue(a, b, t);
      }
    }
    r
  }

  // ---------------------------------------------------------------------
  // od_hbd_max_epi16 / od_hbd_clamp_epi16

  lemma Pow2AtMost15(n: nat)
    ensures n <= 15 ==> Pow2(n) <= 0x8000
  {
    if n <= 15 {
      Pow2Monotone(n, 15);
      Pow2Values();
    }
  }

  /** The largest sample of bit depth `bd` in every lane ((1 << bd) - 1, kept to 16 bits). */
  function HbdMax(bd: nat): (r: Reg)
    requires bd < 31
    ensures |r| == 8
    ensures bd <= 15 ==> forall t | 0 <= t < 8 :: r[t] == Pow2(bd) - 1
  {
    Pow2AtMost15(bd);
    Set1(Pow2(bd) - 1, 8)
  }

  /** max(0, min(a, max)) lane by lane. */
  function HbdClamp(a: Reg, max: Reg): (r: Reg)
    requires |a| == |max|
    ensures |r| == |a|
    ensures forall t | 0 <= t < |a| && 0 <= max[t] :: 0 <= r[t] <= max[t]
    ensures forall t | 0 <= t < |a| && 0 <= a[t] <= max[t] :: r[t] == a[t]
    ensures forall t | 0 <= t < |a| && a[t] < 0 :: r[t] == 0
    ensures forall t | 0 <= t < |a| && 0 <= max[t] < a[t] :: r[t] == max[t]
  {
    MaxEpi16(Set1(0, |a|), MinEpi16(a, max))
  }

  /** The scalar clamp of a value to the sample range [0, 2^bd - 1]. */
  function ClampToDepth(x: int, bd: nat): int {
    if x < 0 then 0 else if x > Pow2(bd) - 1 then Pow2(bd) - 1 else x
  }

  /** Clamping against od_hbd_max_epi16(bd) lands in [0, 2^bd - 1] and keeps in-range lanes. */
  lemma HbdClampToDepth(a: Reg, bd: nat)
    requires |a| == 8 && bd <= 15
    ensures forall t | 0 <= t < 8 :: 0 <= HbdClamp(a, HbdMax(bd))[t] <= Pow2(bd) - 1
    ensures forall t | 0 <= t < 8 :: HbdClamp(a, HbdMax(bd))[t] == ClampToDepth(a[t], bd)
    ensures forall t | 0 <= t < 8 && 0 <= a[t] < Pow2(bd) :: HbdClamp(a, HbdMax(bd))[t] == a[t]
  {
  }

  /** Lane t of the clamp against od_hbd_max_epi16(bd) is the scalar clamp of lane t. */
  lemma HbdClampLane(a: Reg, bd: nat, t: int)
    requires |a| == 8 && bd <= 15 && 0 <= t < 8
    ensures HbdClamp(a, HbdMax(bd))[t] == ClampToDepth(a[t], bd)
    ensures 0 <= HbdClamp(a, HbdMax(bd))[t] < Pow2(bd)
  {
    var m := HbdMax(bd);
    assert m[t] == Pow2(bd) - 1;
  }

  // ---------------------------------------------------------------------
  // od_add_store_buffer_hbd_4x4_epi16 / od_add_store_buffer_hbd_8x4_epi16

  /** Reads `width` uint16 pixels at `off` into the low lanes of a register (upper lanes zero). */
  function LoadRow(out: seq<int>, off: nat, width: nat): (r: Reg)
    requires width <= 8 && off + width <= |out|
    ensures |r| == 8
  {
    seq(8, t requires 0 <= t < 8 => if t < width then Wrap16(out[off + t]) else 0)
  }

  /** Writes the low `width` lanes of a register as uint16 pixels at `off`. */
  function StoreRow(out: seq<int>, off: nat, lanes: Reg, width: nat): (r: seq<int>)
    requires width <= |lanes| && off + width <= |out|
    ensures |r| == |out|
  {
    seq(|out|, p requires 0 <= p < |out| => if off <= p < off + width then U16(lanes[p - off]) else out[p])
  }

  /** Position p after a row store: a lane of the row if p is inside it, the old value otherwise. */
  lemma StoreRowAt(out: seq<int>, off: nat, lanes: Reg, width: nat, p: int)
    requires width <= |lanes| && off + width <= |out| && 0 <= p < |out|
    ensures StoreRow(out, off, lanes, width)[p] == if off <= p < off + width then U16(lanes[p - off]) else out[p]
  {
  }

  /** The rounding shift (q + ((1 << s) >> 1)) >> s, then the wrapped add to p, clamped to bd. */
  function AddRow(p: Reg, q: Reg, bd: nat, downshift: nat): (r: Reg)
    requires |p| == 8 && |q| == 8 && bd < 31 && downshift < 31
    ensures |r| == 8
  {
    var round := Set1(Pow2(downshift) / 2, 8);
    var qs := SraiEpi16(AddEpi16(q, round), downshift);
    HbdClamp(AddEpi16(p, qs), HbdMax(bd))
  }

  /**
    One lane of AddRow: the coefficient lane rounded and shifted down, added
    to the pixel lane with 16-bit wrap-around, then clamped to the bit depth.
   */
  function AddLane(pixel: int, coeff: int, bd: nat, downshift: nat): int {
    ClampToDepth(RoundedSum(pixel, coeff, downshift), bd)
  }

  /** The pixel plus the coefficient rounded and shifted down, before the clamp (16-bit lanes). */
  function RoundedSum(pixel: int, coeff: int, downshift: nat): int {
    Wrap16(pixel + Srai16(Wrap16(coeff + Wrap16(Pow2(downshift) / 2)), downshift))
  }

  /** The value the add-store leaves in a pixel that held `pixel` and receives coefficient `coeff`. */
  function AddStorePixel(pixel: int, coeff: int, bd: nat, downshift: nat): int {
    AddLane(Wrap16(pixel), coeff, bd, downshift)
  }

  predicate InRows(p: int, stride: nat, width: nat) {
    || 0 <= p < width
    || stride <= p < stride + width
    || 2 * stride <= p < 2 * stride + width
    || 3 * stride <= p < 3 * stride + width
  }

  function PixelAt(buf: seq<int>, stride: nat, row: nat, col: nat): int
    requires row * stride + col < |buf|
  {
    buf[row * stride + col]
  }

  /** One lane of the rounded, shifted and wrapped sum AddRow clamps. */
  lemma AddRowSumLane(p: Reg, q: Reg, downshift: nat, col: nat)
    requires |p| == 8 && |q| == 8 && col < 8
    ensures AddEpi16(p, SraiEpi16(AddEpi16(q, Set1(Pow2(downshift) / 2, 8)), downshift))[col]
         == RoundedSum(p[col], q[col], downshift)
  {
    var rw := Wrap16(Pow2(downshift) / 2);
    var round := Set1(Pow2(downshift) / 2, 8);
    assert round[col] == rw;
    var sum := AddEpi16(q, round);
    assert sum[col] == Wrap16(q[col] + rw);
  }

  /** One lane of AddRow: the scalar add-store of that lane's pixel and coefficient. */
  lemma AddRowLane(p: Reg, q: Reg, bd: nat, downshift: nat, col: nat)
    requires |p| == 8 && |q| == 8 && bd <= 15 && downshift < 31 && col < 8
    ensures AddRow(p, q, bd, downshift)[col] == AddLane(p[col], q[col], bd, downshift)
    ensures 0 <= AddRow(p, q, bd, downshift)[col] < Pow2(bd)
  {
    var x := AddEpi16(p, SraiEpi16(AddEpi16(q, Set1(Pow2(downshift) / 2, 8)), downshift));
    assert AddRow(p, q, bd, downshift) == HbdClamp(x, HbdMax(bd));
    AddRowSumLane(p, q, downshift, col);
    HbdClampLane(x, bd, col);
  }

  /** Four row stores at offsets 0, stride, 2*stride and 3*stride. */
  function StoreFour(out: seq<int>, stride: nat, o: seq<Reg>, width: nat): (r: seq<int>)
    requires |o| == 4 && forall i | 0 <= i < 4 :: |o[i]| == 8
    requires width <= 8 && 3 * stride + width <= |out|
    ensures |r| == |out|
  {
    var r1 := StoreRow(out, 0, o[0], width);
    var r2 := StoreRow(r1, stride, o[1], width);
    var r3 := StoreRow(r2, 2 * stride, o[2], width);
    StoreRow(r3, 3 * stride, o[3], width)
  }

  /** The four row stores write nothing outside the four rows. */
  lemma StoreFourKeeps(out: seq<int>, stride: nat, o: seq<Reg>, width: nat)
    requires |o| == 4 && forall i | 0 <= i < 4 :: |o[i]| == 8
    requires width <= 8 && 3 * stride + width <= |out|
    ensures forall p | 0 <= p < |out| && !InRows(p, stride, width) :: StoreFour(out, stride, o, width)[p] == out[p]
  {
    var r1 := StoreRow(out, 0, o[0], width);
    var r2 := StoreRow(r1, stride, o[1], width);
    var r3 := StoreRow(r2, 2 * stride, o[2], width);
    forall p | 0 <= p < |out| && !InRows(p, stride, width)
      ensures StoreFour(out, stride, o, width)[p] == out[p]
    {
      StoreRowAt(out, 0, o[0], width, p);
      StoreRowAt(r1, stride, o[1], width, p);
      StoreRowAt(r2, 2 * stride, o[2], width, p);
      StoreRowAt(r3, 3 * stride, o[3], width, p);
    }
  }

  /** The offset of row `row` (< 4) of the block, without a multiplication. */
  function RowOffset(row: nat, stride: nat): nat {
    if row == 0 then 0 else if row == 1 then stride else if row == 2 then 2 * stride else 3 * stride
  }

  lemma StoreFourAt(out: seq<int>, stride: nat, o: seq<Reg>, width: nat, row: nat, col: nat)
    requires |o| == 4 && forall i | 0 <= i < 4 :: |o[i]| == 8
    requires width <= 8 && 3 * stride + width <= |out|
    requires width <= stride && row < 4 && col < width
    ensures RowOffset(row, stride) + col < |out|
    ensures StoreFour(out, stride, o, width)[RowOffset(row, stride) + col] == U16(o[row][col])
  {
    var r1 := StoreRow(out, 0, o[0], width);
    var r2 := StoreRow(r1, stride, o[1], width);
    var r3 := StoreRow(r2, 2 * stride, o[2], width);
    var k := RowOffset(row, stride) + col;
    StoreRowAt(out, 0, o[0], width, k);
    StoreRowAt(r1, stride, o[1], width, k);
    StoreRowAt(r2, 2 * stride, o[2], width, k);
    StoreRowAt(r3, 3 * stride, o[3], width, k);
  }

  /** When rows do not overlap, pixel (row, col) holds lane col of register row. */
  lemma StoreFourPixel(out: seq<int>, stride: nat, o: seq<Reg>, width: nat, row: nat, col: nat)
    requires |o| == 4 && forall i | 0 <= i < 4 :: |o[i]| == 8
    requires width <= 8 && 3 * stride + width <= |out|
    requires width <= stride && row < 4 && col < width
    ensures row * stride + col < |out|
    ensures PixelAt(StoreFour(out, stride, o, width), stride, row, col) == U16(o[row][col])
  {
    assert row * stride == RowOffset(row, stride);
    StoreFourAt(out, stride, o, width, row, col);
  }

  /** Lane col of a loaded row after the rounded add and the clamp: the scalar add-store of that pixel. */
  lemma SumRowLane(out: seq<int>, off: nat, qrow: Reg, bd: nat, downshift: nat, width: nat, col: nat)
    requires |qrow| == 8 && bd <= 15 && downshift < 31
    requires width <= 8 && off + width <= |out| && col < width
    ensures var r := AddRow(LoadRow(out, off, width), qrow, bd, downshift);
      r[col] == AddStorePixel(out[off + col], qrow[col], bd, downshift) && 0 <= r[col] < Pow2(bd)
  {
    var p := LoadRow(out, off, width);
    assert p[col] == Wrap16(out[off + col]);
    AddRowLane(p, qrow, bd, downshift, col);
  }

  /** The row of the block at `off` after the rounded add and the clamp, before it is stored. */
  function SumRow(out: seq<int>, off: nat, qrow: Reg, bd: nat, downshift: nat, width: nat): (r: Reg)
    requires |qrow| == 8 && bd <= 15 && downshift < 31
    requires width <= 8 && off + width <= |out|
    ensures |r| == 8
    ensures forall col | 0 <= col < width ::
      r[col] == AddStorePixel(out[off + col], qrow[col], bd, downshift) && 0 <= r[col] < Pow2(bd)
  {
    var r := AddRow(LoadRow(out, off, width), qrow, bd, downshift);
    assert forall col | 0 <= col < width ::
      r[col] == AddStorePixel(out[off + col], qrow[col], bd, downshift) && 0 <= r[col] < Pow2(bd)
    by {
      forall col | 0 <= col < width {
        SumRowLane(out, off, qrow, bd, downshift, width, col);
      }
    }
    r
  }

  /** The four rows after the rounded add and the clamp. */
  function SumRows(out: seq<int>, stride: nat, q: seq<Reg>, bd: nat, downshift: nat, width: nat): (r: seq<Reg>)
    requires |q| == 4 && forall i | 0 <= i < 4 :: |q[i]| == 8
    requires bd <= 15 && downshift < 31
    requires width <= 8 && 3 * stride + width <= |out|
    ensures |r| == 4 && forall i | 0 <= i < 4 :: |r[i]| == 8
    ensures forall row: nat, col: nat | row < 4 && col < width ::
      row * stride + col < |out|
      && r[row][col] == AddStorePixel(out[row * stride + col], q[row][col], bd, downshift)
      && 0 <= r[row][col] < Pow2(bd)
  {
    assert forall row: nat | row < 4 :: row * stride + width <= |out| by {
      forall row: nat | row < 4 ensures row * stride + width <= |out| {
        assert row * stride <= 3 * stride;
      }
    }
    seq(4, row requires 0 <= row < 4 => SumRow(out, row * stride, q[row], bd, downshift, width))
  }

  /** Shared body of the 4x4 and 8x4 add-stores: four loads, four rounded adds, four stores. */
  function AddStoreRows(out: seq<int>, stride: nat, q: seq<Reg>, bd: nat, coeffDepth: nat, width: nat): (r: seq<int>)
    requires width == 4 || width == 8
    requires |q| == 4 && forall i | 0 <= i < 4 :: |q[i]| == 8
    requires bd <= 15 && bd <= coeffDepth && coeffDepth - bd < 31
    requires 3 * stride + width <= |out|
    ensures |r| == |out|
    ensures forall p | 0 <= p < |out| && !InRows(p, stride, width) :: r[p] == out[p]
    ensures width <= stride ==>
      forall row: nat, col: nat | row < 4 && col < width ::
        row * stride + col < |out| && PixelAt(r, stride, row, col) == AddStorePixel(PixelAt(out, stride, row, col), q[row][col], bd, coeffDepth - bd)
    ensures width <= stride ==>
      forall row: nat, col: nat | row < 4 && col < width ::
        row * stride + col < |out| && 0 <= PixelAt(r, stride, row, col) < Pow2(bd)
  {
    var o := SumRows(out, stride, q, bd, coeffDepth - bd, width);
    Pow2AtMost15(bd);
    StoreSums(out, stride, o, width);
    StoreFourKeeps(out, stride, o, width);
    StoreFour(out, stride, o, width)
  }

  /** Storing non-negative int16 lanes writes them unchanged. */
  lemma StoreSums(out: seq<int>, stride: nat, o: seq<Reg>, width: nat)
    requires |o| == 4 && forall i | 0 <= i < 4 :: |o[i]| == 8
    requires width <= 8 && 3 * stride + width <= |out|
    requires forall row: nat, col: nat | row < 4 && col < width :: 0 <= o[row][col] <= INT16_MAX
    ensures width <= stride ==>
      forall row: nat, col: nat | row < 4 && col < width ::
        row * stride + col < |out| && PixelAt(StoreFour(out, stride, o, width), stride, row, col) == o[row][col]
  {
    if width <= stride {
      forall row: nat, col: nat | row < 4 && col < width
        ensures row * stride + col < |out| && PixelAt(StoreFour(out, stride, o, width), stride, row, col) == o[row][col]
      {
        StoreFourPixel(out, stride, o, width, row, col);
        UnsignedOfNonNegative(o[row][col]);
      }
    }
  }

  /** od_add_store_buffer_hbd_4x4_epi16: four rows of four pixels, nothing else written. */
  function AddStore4x4(out: seq<int>, stride: nat, q: seq<Reg>, bd: nat, coeffDepth: nat): (r: seq<int>)
    requires |q| == 4 && forall i | 0 <= i < 4 :: |q[i]| == 8
    requires bd <= 15 && bd <= coeffDepth && coeffDepth - bd < 31
    requires 3 * stride + 4 <= |out|
    ensures |r| == |out|
    ensures forall p | 0 <= p < |out| && !InRows(p, stride, 4) :: r[p] == out[p]
    ensures 4 <= stride ==>
      forall row: nat, col: nat | row < 4 && col < 4 ::
        row * stride + col < |out| && PixelAt(r, stride, row, col) == AddStorePixel(PixelAt(out, stride, row, col), q[row][col], bd, coeffDepth - bd)
    ensures 4 <= stride ==>
      forall row: nat, col: nat | row < 4 && col < 4 ::
        row * stride + col < |out| && 0 <= PixelAt(r, stride, row, col) < Pow2(bd)
  {
    AddStoreRows(out, stride, q, bd, coeffDepth, 4)
  }

  /** od_add_store_buffer_hbd_8x4_epi16: four rows of eight pixels, nothing else written. */
  function AddStore8x4(out: seq<int>, stride: nat, q: seq<Reg>, bd: nat, coeffDepth: nat): (r: seq<int>)
    requires |q| == 4 && forall i | 0 <= i < 4 :: |q[i]| == 8
    requires bd <= 15 && bd <= coeffDepth && coeffDepth - bd < 31
    requires 3 * stride + 8 <= |out|
    ensures |r| == |out|
    ensures forall p | 0 <= p < |out| && !InRows(p, stride, 8) :: r[p] == out[p]
    ensures 8 <= stride ==>
      forall row: nat, col: nat | row < 4 && col < 8 ::
        row * stride + col < |out| && PixelAt(r, stride, row, col) == AddStorePixel(PixelAt(out, stride, row, col), q[row][col], bd, coeffDepth - bd)
    ensures 8 <= stride ==>
      forall row: nat, col: nat | row < 4 && col < 8 ::
        row * stride + col < |out| && 0 <= PixelAt(r, stride, row, col) < Pow2(bd)
  {
    AddStoreRows(out, stride, q, bd, coeffDepth, 8)
  }
}
