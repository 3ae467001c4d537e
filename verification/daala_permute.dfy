/**
  The lane permutations of the Daala inverse transform
  (av1/common/x86/daala_inv_txfm_avx2.c): the register swap, the output flips
  of the inverse DST kernels, the 8x8 transpose built from unpack
  instructions, and the identity row transform that narrows 32-bit
  coefficients to 16 bits with saturation.

  A bank of registers is a `seq<Reg>` in parameter order. The inverse DST
  kernels themselves are fixed-point butterfly pipelines that are not part of
  this model; the flips take the kernel as a function argument.
 */
module DaalaPermute {
  import opened CInt
  import opened Lanes

  /** The bank in reverse order. */
  function Reverse(q: seq<Reg>): seq<Reg> {
    seq(|q|, k requires 0 <= k < |q| => q[|q| - 1 - k])
  }

  /** Reversal only reorders: the bank keeps the same registers, with multiplicity. */
  lemma {:induction false} ReverseIsPermutation(q: seq<Reg>)
    ensures multiset(Reverse(q)) == multiset(q)
  {
    if q != [] {
      ReverseIsPermutation(q[1..]);
      assert q == [q[0]] + q[1..];
      assert Reverse(q) == Reverse(q[1..]) + [q[0]];
    }
  }

  /** Reversing twice gives the bank back. */
  lemma ReverseTwice(q: seq<Reg>)
    ensures Reverse(Reverse(q)) == q
  {
    var r := Reverse(Reverse(q));
    forall k | 0 <= k < |q| ensures r[k] == q[k] {
      assert r[k] == Reverse(q)[|q| - 1 - k];
    }
  }

  /** od_swap_epi16: exchange the registers at positions i and j; nothing else moves. */
  function Swap(q: seq<Reg>, i: nat, j: nat): (r: seq<Reg>)
    requires i < |q| && j < |q|
    ensures |r| == |q|
    ensures r[i] == q[j] && r[j] == q[i]
    ensures forall k | 0 <= k < |q| && k != i && k != j :: r[k] == q[k]
  {
    q[i := q[j]][j := q[i]]
  }

  /** A swap only reorders the bank. */
  lemma SwapIsPermutation(q: seq<Reg>, i: nat, j: nat)
    requires i < |q| && j < |q|
    ensures multiset(Swap(q, i, j)) == multiset(q)
  {
    assert multiset(q[i := q[j]]) == multiset(q) - multiset{q[i]} + multiset{q[j]};
  }

  /**
    od_flip_idst4_kernel8_epi16: run the kernel on (q0, q1, q2, q3), then swap
    q0 with q3 and q1 with q2. The result is the kernel's output reversed.
   */
  function FlipIdst4(kernel: seq<Reg> -> seq<Reg>, q: seq<Reg>): (r: seq<Reg>)
    requires |q| == 4 && |kernel(q)| == 4
    ensures r == Reverse(kernel(q))
  {
    Swap(Swap(kernel(q), 0, 3), 1, 2)
  }

  /**
    od_flip_idst8_kernel8_epi16: the parameters are (r0, r4, r2, r6, r1, r5,
    r3, r7); after the kernel the pairs (r0, r7), (r4, r3), (r2, r5) and
    (r6, r1) are swapped, which are parameter positions (0, 7), (1, 6),
    (2, 5) and (3, 4). The result is the kernel's output reversed.
   */
  function FlipIdst8(kernel: seq<Reg> -> seq<Reg>, q: seq<Reg>): (r: seq<Reg>)
    requires |q| == 8 && |kernel(q)| == 8
    ensures r == Reverse(kernel(q))
  {
    var k := kernel(q);
    var r := Swap(Swap(Swap(Swap(k, 0, 7), 1, 6), 2, 5), 3, 4);
    SwapsReverse8(k);
    r
  }

  /** The four swaps of the eight-register flip reverse the bank. */
  lemma SwapsReverse8(k: seq<Reg>)
    requires |k| == 8
    ensures Swap(Swap(Swap(Swap(k, 0, 7), 1, 6), 2, 5), 3, 4) == Reverse(k)
  {
    var s1 := Swap(k, 0, 7);
    var s2 := Swap(s1, 1, 6);
    var s3 := Swap(s2, 2, 5);
    var r := Swap(s3, 3, 4);
    var rev := Reverse(k);
    forall t | 0 <= t < 8 ensures r[t] == rev[t] {
      assert rev[t] == k[7 - t];
    }
  }

  /** Eight registers of eight 16-bit lanes. */
  predicate IsBlock8(q: seq<Reg>) {
    |q| == 8 && forall i | 0 <= i < 8 :: |q[i]| == 8
  }

  /**
    od_transpose8x8: the interleave network of the source, with one spare
    register, applied to rows r0..r7. Lane j of output register i is lane i
    of input register j.
   */
  method Transpose8x8(q: seq<Reg>) returns (o: seq<Reg>)
    requires IsBlock8(q)
    ensures IsBlock8(o)
    ensures forall i, j | 0 <= i < 8 && 0 <= j < 8 :: o[i][j] == q[j][i]
  {
    var r0, r1, r2, r3, r4, r5, r6, r7 := q[0], q[1], q[2], q[3], q[4], q[5], q[6], q[7];
    var r8 := r4;
    r4 := UnpackLo16(r4, r5);
    r8 := UnpackHi16(r8, r5);
    r5 := r0;
    r0 := UnpackLo16(r0, r1);
    r5 := UnpackHi16(r5, r1);
    r1 := r6;
    r6 := UnpackLo16(r6, r7);
    r1 := UnpackHi16(r1, r7);
    r7 := r2;
    r2 := UnpackHi16(r2, r3);
    r7 := UnpackLo16(r7, r3);
    r3 := r0;
    r0 := UnpackLo32(r0, r7);
    r3 := UnpackHi32(r3, r7);
    r7 := r5;
    r5 := UnpackLo32(r5, r2);
    r7 := UnpackHi32(r7, r2);
    r2 := r4;
    r4 := UnpackHi32(r4, r6);
    r2 := UnpackLo32(r2, r6);
    r6 := r8;
    r8 := UnpackHi32(r8, r1);
    r6 := UnpackLo32(r6, r1);
    r1 := r0;
    r0 := UnpackLo64(r0, r2);
    r1 := UnpackHi64(r1, r2);
    r2 := r3;
    r3 := UnpackHi64(r3, r4);
    r2 := UnpackLo64(r2, r4);
    r4 := r5;
    r5 := UnpackHi64(r5, r6);
    r4 := UnpackLo64(r4, r6);
    r6 := r7;
    r7 := UnpackHi64(r7, r8);
    r6 := UnpackLo64(r6, r8);
    o := [r0, r1, r2, r3, r4, r5, r6, r7];
  }

  /** Transposing twice gives the block back. */
  lemma TransposeTwice(q: seq<Reg>, t: seq<Reg>, u: seq<Reg>)
    requires IsBlock8(q) && IsBlock8(t) && IsBlock8(u)
    requires forall i, j | 0 <= i < 8 && 0 <= j < 8 :: t[i][j] == q[j][i]
    requires forall i, j | 0 <= i < 8 && 0 <= j < 8 :: u[i][j] == t[j][i]
    ensures u == q
  {
    forall i | 0 <= i < 8 ensures u[i] == q[i] {
      forall j | 0 <= j < 8 ensures u[i][j] == q[i][j] {
        assert u[i][j] == t[j][i];
      }
    }
  }

  /** One `_mm_packs_epi32` of eight consecutive 32-bit values saturates each in place. */
  lemma PacksLanes(inp: seq<int>, c: nat)
    requires c + 8 <= |inp|
    ensures forall k | c <= k < c + 8 :: PacksEpi32(inp[c..c + 4], inp[c + 4..c + 8])[k - c] == SaturateInt16(inp[k])
  {
  }

  /** Two unaligned 128-bit stores: `block` replaces out[c..c+|block|], all else is kept. */
  function StoreBlock(out: seq<int>, c: nat, block: seq<int>): (r: seq<int>)
    requires c + |block| <= |out|
    ensures |r| == |out|
    ensures forall k | 0 <= k < |out| :: r[k] == if c <= k < c + |block| then block[k - c] else out[k]
  {
    out[..c] + block + out[c + |block|..]
  }

  /**
    od_row_iidtx_avx2: sixteen 32-bit coefficients at a time, loaded as four
    registers of four lanes, packed with signed saturation into two registers
    of eight 16-bit lanes and stored. The coefficient count must be a multiple
    of 16 (the source asserts it); the first `coeffs` outputs become the
    saturated inputs and the rest of the output buffer is left as it was.
   */
  method RowIidtx(out0: seq<int>, coeffs: int, inp: seq<int>) returns (out: seq<int>)
    requires coeffs % 16 == 0
    requires coeffs <= |out0| && coeffs <= |inp|
    ensures |out| == |out0|
    ensures forall c | 0 <= c < coeffs :: out[c] == SaturateInt16(inp[c])
    ensures forall c | 0 <= c < |out0| && !(c < coeffs) :: out[c] == out0[c]
  {
    out := out0;
    var c := 0;
    while c < coeffs
      invariant 0 <= c && c % 16 == 0
      invariant c <= if coeffs < 0 then 0 else coeffs
      invariant |out| == |out0|
      invariant forall k | 0 <= k < c :: out[k] == SaturateInt16(inp[k])
      invariant forall k | c <= k < |out0| :: out[k] == out0[k]
      decreases coeffs - c
    {
      var q0 := PacksEpi32(inp[c..c + 4], inp[c + 4..c + 8]);
      var q2 := PacksEpi32(inp[c + 8..c + 12], inp[c + 12..c + 16]);
      PacksLanes(inp, c);
      PacksLanes(inp, c + 8);
      var block := q0 + q2;
      assert forall t | 0 <= t < 16 :: block[t] == SaturateInt16(inp[c + t]) by {
        forall t | 0 <= t < 16 ensures block[t] == SaturateInt16(inp[c + t]) {
          if t < 8 {
            assert block[t] == q0[t];
          } else {
            assert block[t] == q2[t - 8];
          }
        }
      }
      out := StoreBlock(out, c, block);
      c := c + 16;
    }
  }
}
