/**
  SSE2/SSSE3 intrinsics used by the Daala inverse-transform helpers, modelled
  lane by lane. A register is a sequence of lanes, lane 0 first; a 16-bit lane
  holds its signed (int16) reading. Every intrinsic keeps only the low 16 bits
  of its lane results, as the hardware does.
 */
module Lanes {
  import opened CInt

  type Reg = seq<int>

  /** A register of eight int16 lanes (an `__m128i` read as epi16). */
  predicate IsReg16(r: Reg) {
    |r| == 8 && forall t | 0 <= t < 8 :: IsInt16(r[t])
  }

  /** The constant 0x8000 as an int16 lane: the sign bit alone. */
  const SIGN_BIT: int := -0x8000

  // ---------------------------------------------------------------------
  // One lane

  /** Bitwise exclusive or of two 16-bit lanes. */
  function Xor16(a: int, b: int): int {
    Wrap16(XorBits(U16(a), U16(b), 16))
  }

  /** `_mm_avg_epu16` on one lane: unsigned (a + b + 1) >> 1. */
  function AvgU16(a: int, b: int): int {
    Wrap16((U16(a) + U16(b) + 1) / 2)
  }

  /** `_mm_srai_epi16` on one lane; counts above 15 fill with the sign bit. */
  function Srai16(a: int, s: nat): int {
    Wrap16(Asr(a, if s > 15 then 15 else s))
  }

  /** `_mm_srli_epi16` on one lane; counts above 15 give zero. */
  function Srli16(a: int, s: nat): int {
    if s > 15 then 0 else Wrap16(U16(a) / Pow2(s))
  }

  function Min16(a: int, b: int): int { if a < b then a else b }
  function Max16(a: int, b: int): int { if a < b then b else a }

  /** Signed saturation of a 32-bit value to int16 (`_mm_packs_epi32` per lane). */
  function SaturateInt16(x: int): (r: int)
    ensures IsInt16(r)
    ensures IsInt16(x) ==> r == x
    ensures x < INT16_MIN ==> r == INT16_MIN
    ensures x > INT16_MAX ==> r == INT16_MAX
  {
    if x < INT16_MIN then INT16_MIN else if x > INT16_MAX then INT16_MAX else x
  }

  lemma XorTopBit16(u: nat)
    ensures XorBits(u, 0x8000, 16) == (u + 0x8000) % 0x1_0000
  {
    Pow2Values();
    XorTopBit(u, 15);
  }

  /** Exclusive or with the sign bit flips bit 15: it adds 0x8000 modulo 2^16. */
  lemma XorSignBit(a: int)
    ensures Xor16(a, SIGN_BIT) == Wrap16(a + 0x8000)
  {
    assert U16(SIGN_BIT) == 0x8000;
    XorTopBit16(U16(a));
    ModAddConst(a, 0x8000, 0x1_0000);
    var x: int := XorBits(U16(a), U16(SIGN_BIT), 16);
    assert x == (a + 0x8000) % 0x1_0000;
    DivModUnique(x, 0x1_0000, 0, x);
  }

  // ---------------------------------------------------------------------
  // Whole registers

  function Set1(v: int, lanes: nat): (r: Reg)
    ensures |r| == lanes
  {
    seq(lanes, _ => Wrap16(v))
  }

  function AddEpi16(a: Reg, b: Reg): (r: Reg)
    requires |a| == |b|
    ensures |r| == |a|
  {
    seq(|a|, t requires 0 <= t < |a| => Wrap16(a[t] + b[t]))
  }

  function SubEpi16(a: Reg, b: Reg): (r: Reg)
    requires |a| == |b|
    ensures |r| == |a|
  {
    seq(|a|, t requires 0 <= t < |a| => Wrap16(a[t] - b[t]))
  }

  function XorSi128(a: Reg, b: Reg): (r: Reg)
    requires |a| == |b|
    ensures |r| == |a|
  {
    seq(|a|, t requires 0 <= t < |a| => Xor16(a[t], b[t]))
  }

  function AvgEpu16(a: Reg, b: Reg): (r: Reg)
    requires |a| == |b|
    ensures |r| == |a|
  {
    seq(|a|, t requires 0 <= t < |a| => AvgU16(a[t], b[t]))
  }

  function SraiEpi16(a: Reg, s: nat): (r: Reg)
    ensures |r| == |a|
  {
    seq(|a|, t requires 0 <= t < |a| => Srai16(a[t], s))
  }

  function SrliEpi16(a: Reg, s: nat): (r: Reg)
    ensures |r| == |a|
  {
    seq(|a|, t requires 0 <= t < |a| => Srli16(a[t], s))
  }

  function MinEpi16(a: Reg, b: Reg): (r: Reg)
    requires |a| == |b|
    ensures |r| == |a|
  {
    seq(|a|, t requires 0 <= t < |a| => Min16(a[t], b[t]))
  }

  function MaxEpi16(a: Reg, b: Reg): (r: Reg)
    requires |a| == |b|
    ensures |r| == |a|
  {
    seq(|a|, t requires 0 <= t < |a| => Max16(a[t], b[t]))
  }

  /** `_mm_packs_epi32`: four int32 lanes of `a`, then four of `b`, each saturated. */
  function PacksEpi32(a: seq<int>, b: seq<int>): (r: Reg)
    requires |a| == 4 && |b| == 4
    ensures |r| == 8
  {
    [SaturateInt16(a[0]), SaturateInt16(a[1]), SaturateInt16(a[2]), SaturateInt16(a[3]),
     SaturateInt16(b[0]), SaturateInt16(b[1]), SaturateInt16(b[2]), SaturateInt16(b[3])]
  }

  /** `_mm_unpacklo_epi16`: interleave the low four 16-bit lanes. */
  function UnpackLo16(a: Reg, b: Reg): (r: Reg)
    requires |a| == 8 && |b| == 8
    ensures |r| == 8
  {
    [a[0], b[0], a[1], b[1], a[2], b[2], a[3], b[3]]
  }

  /** `_mm_unpackhi_epi16`: interleave the high four 16-bit lanes. */
  function UnpackHi16(a: Reg, b: Reg): (r: Reg)
    requires |a| == 8 && |b| == 8
    ensures |r| == 8
  {
    [a[4], b[4], a[5], b[5], a[6], b[6], a[7], b[7]]
  }

  /** `_mm_unpacklo_epi32`: interleave the low two 32-bit lanes (pairs of 16-bit lanes). */
  function UnpackLo32(a: Reg, b: Reg): (r: Reg)
    requires |a| == 8 && |b| == 8
    ensures |r| == 8
  {
    [a[0], a[1], b[0], b[1], a[2], a[3], b[2], b[3]]
  }

  /** `_mm_unpackhi_epi32`: interleave the high two 32-bit lanes. */
  function UnpackHi32(a: Reg, b: Reg): (r: Reg)
    requires |a| == 8 && |b| == 8
    ensures |r| == 8
  {
    [a[4], a[5], b[4], b[5], a[6], a[7], b[6], b[7]]
  }

  /** `_mm_unpacklo_epi64`: low 64 bits of `a`, then low 64 bits of `b`. */
  function UnpackLo64(a: Reg, b: Reg): (r: Reg)
    requires |a| == 8 && |b| == 8
    ensures |r| == 8
  {
    [a[0], a[1], a[2], a[3], b[0], b[1], b[2], b[3]]
  }

  /** `_mm_unpackhi_epi64`: high 64 bits of `a`, then high 64 bits of `b`. */
  function UnpackHi64(a: Reg, b: Reg): (r: Reg)
    requires |a| == 8 && |b| == 8
    ensures |r| == 8
  {
    [a[4], a[5], a[6], a[7], b[4], b[5], b[6], b[7]]
  }
}
