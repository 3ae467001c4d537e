# Wiener statistics, Daala lane helpers and the CDEF copy, in Dafny

This project models three small pieces of the AV1 codec library (libaom) and
proves properties about them.

1. **Wiener-filter statistics kernels.** These are the scalar reference
   kernels of the Wiener tests: `compute_stats_win_opt_c` (8-bit, with
   optional row downsampling) and `compute_stats_highbd_win_opt_c` (8/10/12-bit
   samples stored as `uint16_t`), plus their dispatchers. For one restoration
   unit they build the cross-correlation vector `M` (`win²` entries) and the
   Gram matrix `H` (`win⁴` entries) between a degraded patch and a source
   patch. Both are centred on the average of the degraded samples. The model
   works in layers:
   - the paired-column loop with its odd-column tail (`ColumnPairs`);
   - the row loop with its downsampling factor (`RowSchedule`);
   - one accumulator built from both loops (`Accumulate`);
   - the totals, the centring and the `H` layout with its 8-wide scratch rows
     (`WienerStats`);
   - the kernels and dispatchers (`WienerKernels`);
   - the integer-width bounds (`WienerRange`);
   - how the tests draw a unit (`WienerHarness`).

   Every entry of `M`, `H`, `sumX` and `sumY` is the same two-level loop
   applied to its own per-pixel term. The entries do not interact, so each
   is modelled as that loop over its term.
2. **Daala inverse-transform lane helpers (AVX2 file).** Each intrinsic is a
   function on a sequence of eight 16-bit lanes with explicit wrap-around
   (`Lanes`). On top of that are modelled:
   - the halving, average, half-difference and clamp helpers, and the
     round-and-add stores (`DaalaHelpers`);
   - the swap, the output flips, the 8x8 transpose and the identity row
     transform (`DaalaPermute`).
3. **CDEF (SSSE3).** The 8-bit to 16-bit rectangle copy, with its 8-wide body
   and scalar tail, and the two-block direction search (`Cdef`).

C integer semantics live in `CInt`:
- truncating division `CDiv`;
- arithmetic shift `Asr`;
- 16-bit wrap `Wrap16`;
- powers of two `Pow2`.

Sample planes (`Sums.Plane`) are flat sequences with an origin and a stride.
Their accessor `At` is total.

## Model

| member | source | states |
|---|---|---|
| WienerKernels.ComputeStatsWinOpt | test/wiener_test.cc:37-159 | No result unless the window has 7 or 5 taps. Otherwise `M` has win² entries and `H` has win⁴, `H` is symmetric, and for an aligned unit (even `h_start`, h_start ≤ h_end, v_start ≤ v_end) every entry is the centred total Σ factor·(D−avg)(X−avg) over the visited rows, with the average reduced to `uint8_t` |
| WienerKernels.ComputeStatsOpt | test/wiener_test.cc:161-175 | For 7- and 5-tap windows the result is the optimised kernel's. For any other window it is the reference routine's |
| WienerKernels.Kernel | test/wiener_test.cc:145-158 | The finished statistics have the sizes of `M` and `H`. Each entry is the centred total divided (truncating) by the divider. `H` is symmetric for every input |
| WienerKernels.KernelSymmetric | test/wiener_test.cc:150-156 | The finalised `H` is symmetric in its two taps for every rectangle, average and divider |
| WienerKernels.Divider | test/wiener_test.cc:497-501 | The divider is positive, and it is 2^(bd−8) for bit depths 8, 10 and 12 |
| WienerKernels.ComputeStatsHighbdWinOpt | test/wiener_test.cc:412-520 | No result unless the window has 7 or 5 taps. Otherwise `H` is symmetric, and for an aligned unit (even `h_start`, h_start ≤ h_end, v_start ≤ v_end) every `M` and `H` entry is the centred sum over every pixel of the unit (no downsampling), each pixel once, then C-divided by the divider. The average is reduced to `uint16_t` |
| WienerKernels.ComputeStatsHighbdOpt | test/wiener_test.cc:522-537 | For 7- and 5-tap windows the result is the high-bit-depth kernel's. For any other window it is the reference routine's |
| WienerKernels.WinOptMatchesPlainSums | test/wiener_test.cc:82-142 | With downsampling off and an aligned unit (even `h_start`, h_start ≤ h_end, v_start ≤ v_end), the 8-bit kernel's `M` and `H` equal the one-pixel-at-a-time centred sums over the rectangle |
| WienerStats.Accumulated | test/wiener_test.cc:54-60 | The totals have the shapes of `sumY`, `M_int` and `H_int` (win rows of win·8) |
| WienerStats.TapIndex | test/wiener_test.cc:146-149 | A tap index below win² splits into a window row and a column inside the window, and these give the index back |
| WienerStats.TapOf | test/wiener_test.cc:146-149 | Window row k and column l make tap l·win+k, and that tap splits back into k and l |
| WienerStats.ScratchIndex | test/wiener_test.cc:100 | The scratch index m·8+n is below win·8 and splits back into m and n |
| WienerStats.ScratchInjective | test/wiener_test.cc:153 | Distinct (m, n) pairs inside the window never share a scratch slot of stride 8 |
| WienerStats.PairIndex | test/wiener_test.cc:152-153 | The flat `H` index p·win²+q is inside `H` and splits back into p and q |
| WienerStats.Finalize | test/wiener_test.cc:145-158 | The finalised `M` has win² entries and `H` has win⁴ |
| WienerStats.CentringPointwise | test/wiener_test.cc:145-149 | At each pixel, (D−avg)(X−avg) = D·X − avg·(D+X) + avg² |
| WienerStats.CentringIdentity | test/wiener_test.cc:145-149 | The accumulated centred product equals the accumulated raw product, plus avg²·pixel_count, minus avg times the accumulated sum of the two samples |
| WienerStats.MIsCentred | test/wiener_test.cc:145-149 | Each finalised `M` entry, M_int + avg²·count − avg·(sumX + sumY), divided, is the divided centred total for its tap |
| WienerStats.HNumeratorOfTotals | test/wiener_test.cc:150-156 | An `H` entry of the accumulated totals is the corrected product total of its two taps |
| WienerStats.HIsCentred | test/wiener_test.cc:150-156 | Each finalised `H` entry is the divided centred total of its two taps |
| WienerStats.HSymmetric | test/wiener_test.cc:150-156 | Swapping the two taps of an `H` entry gives the same value, for any rectangle, average and divider |
| ColumnPairs.AndNot1 | test/wiener_test.cc:82-83 | `h & ~1` is even and is h or h−1 |
| ColumnPairs.PairLoopIsColSum | test/wiener_test.cc:84-106 | From an even start, the pair loop up to an even end adds each column of the range once |
| ColumnPairs.PairLoopExitEven | test/wiener_test.cc:84-107 | From an even start, the pair loop exits at exactly `h_end & ~1` |
| ColumnPairs.RowAccIsColSum | test/wiener_test.cc:82-127 | The contract of the row loop `RowAcc`: with `h_start` even and at most `h_end`, the pair loop plus the odd-pixel tail is the plain sum over [h_start, h_end) |
| ColumnPairs.RowAccCountsEachColumnOnce | test/wiener_test.cc:82-127 | Each column of [h_start, h_end) is counted exactly once and no other column is counted |
| ColumnPairs.OddStartOvercounts | test/wiener_test.cc:69 | The even-start requirement is needed: from start 1 to end 4, column 4 is counted although it is outside the range |
| ColumnPairs.RowAccAffine | test/wiener_test.cc:84-127 | The row loop is affine in the per-pixel term |
| ColumnPairs.RowAccCount | test/wiener_test.cc:82-127 | The row loop counts h_end − h_start pixels |
| ColumnPairs.RowAccBounds | test/wiener_test.cc:82-127 | A term in [lo, hi] on the columns read gives a row total in [lo·w, hi·w], where w = h_end − h_start |
| RowSchedule.ScheduleFactorSum | test/wiener_test.cc:70-74 | The factors of the visited rows add up to the number of rows left |
| RowSchedule.ScheduleTiles | test/wiener_test.cc:70-74 | The visits tile the remaining rows: consecutive, inside the range, factors in [1, 4] |
| RowSchedule.ScheduleChain | test/wiener_test.cc:70-74 | Each visit starts at the row where the previous one ended, with a factor in [1, 4] that does not pass v_end |
| RowSchedule.ChainTiles | test/wiener_test.cc:70-74 | A chain of visits from row i that stops exactly at v_end tiles [i, v_end) |
| RowSchedule.RowsTile | test/wiener_test.cc:70-74 | The contract of the row schedule `Rows` (and `Schedule` under it): the row loop tiles [v_start, v_end), and its factors add up to v_end − v_start, with or without downsampling |
| RowSchedule.RowsWithoutDownsampling | test/wiener_test.cc:51-52 | Without downsampling, every row is visited in order with factor 1 |
| RowSchedule.RowsWithDownsampling | test/wiener_test.cc:70-74 | With downsampling, rows v_start+4t are visited with factor 4, except the last, whose factor is the number of rows left |
| Accumulate.AccAffine | test/wiener_test.cc:129-142 | The scaled accumulation is affine in the per-pixel term |
| Accumulate.AccCongruent | test/wiener_test.cc:129-142 | Terms that agree at every pixel give the same accumulator |
| Accumulate.AccCountsPixels | test/wiener_test.cc:47 | Accumulating 1 gives pixel_count = (h_end−h_start)·(v_end−v_start), with or without downsampling |
| Accumulate.AccIsRectSum | test/wiener_test.cc:70-142 | The contract of the accumulator `Acc`: without downsampling, the accumulator is the sum of the term over every pixel of the rectangle |
| Accumulate.AccBounds | test/wiener_test.cc:70-142 | A term in [0, hi] gives an accumulator in [0, hi·pixel_count] |
| Accumulate.AccConstant | test/wiener_test.cc:70-142 | On an aligned unit, a term equal to v at every pixel accumulates to v·pixel_count, with or without downsampling |
| WienerRange.PixelCountBound | test/wiener_test.cc:47 | A unit within the 384×384 maximum has at most 384² pixels |
| WienerRange.AccWithinMaxUnit | test/wiener_test.cc:129-142 | Over a unit within the 384×384 maximum, a term in [0, hi] accumulates to at most hi·384² |
| WienerRange.LowbdRowTotalsFit | test/wiener_test.cc:75-81 | For 8-bit products, the per-row `int32_t` totals and those totals times a factor up to 4 fit in `int32_t` |
| WienerRange.LowbdPairProductFits | test/wiener_test.cc:97 | D1·X1 + D2·X2 of 8-bit samples fits in `int` |
| WienerRange.TotalsBounded | test/wiener_test.cc:54-60 | With samples in [0, max], `sumX` and every `sumY` lie in [0, max·384²], and every `M_int` and `H_int` entry in [0, max²·384²] |
| WienerRange.NumeratorsFit | test/wiener_test.cc:503-515 | With totals of samples below 2^12, an average below 2^16 and at most 384² pixels, avg_square_sum, avg·(sum), each partial sum of the `M` and `H` numerators in either order, and the numerators themselves fit `int64_t`, and sumY[k][l]+sumY[n][m] fits `int32_t` |
| WienerRange.LowbdTotalsFit | test/wiener_test.cc:129-156 | For 8-bit samples and a `uint8_t` average: `sumX`, `sumY` and `sumX+sumY` fit `int32_t`, and so does sumY[k][l]+sumY[n][m]; `M_int`, `H_int`, avg_square_sum, the avg products, every partial sum and the finished `M` and `H` numerators fit `int64_t` |
| WienerRange.HighbdPairProductFits | test/wiener_test.cc:464 | D1·X1 + D2·X2 of 12-bit samples promoted to `int` fits in `int` |
| WienerRange.HighbdTotalsFit | test/wiener_test.cc:425-438 | For 12-bit samples and a `uint16_t` average: `sumX` fits `int64_t`; `sumY` and sumY[k][l]+sumY[n][m] fit `int32_t`; `M_int`, `H_int`, avg_square_sum, the avg products, every partial sum and the finished `M` and `H` numerators fit `int64_t` |
| WienerRange.ConstantUnitHTotal | test/wiener_test.cc:54-60 | On an aligned unit whose window halo holds the constant v, every `H_int` entry is v²·pixel_count |
| WienerRange.OverflowUnitHTotal | test/wiener_test.cc:736-753 | On the overflow test's unit geometry [16, 384)², with a hypothetical halo constant at any v ≥ 255, every `H_int` entry exceeds `int32_t`, so `H_int` needs 64 bits |
| WienerRange.RunningTotalWithinMaxUnit | test/wiener_test.cc:129-142 | Every running total after a prefix of the visited rows stays in [0, hi·384²] |
| WienerHarness.DrawUnitAsWritten | test/wiener_test.cc:237-242 | The drawn unit has h_start ≤ h_end and v_start ≤ v_end |
| WienerHarness.AsWrittenDrawsOddStart | test/wiener_test.cc:237-239 | The draws 100 and 51 give an odd h_start (51) |
| WienerHarness.OddStartReadsPastEnd | test/wiener_test.cc:84-106 | With an odd h_start and an even h_end, the row loop adds column h_end on top of the plain sum |
| WienerHarness.AsWrittenDrawMiscounts | test/wiener_test.cc:237-239 | On the unit drawn from 100 and 51, the loop counts column 100, whose plain-sum weight is 0 |
| WienerHarness.DrawUnit | test/wiener_test.cc:237-242 | Rounding after the swap always gives an aligned unit within the 384×384 maximum |
| WienerHarness.DrawUnitCountsEachColumnOnce | test/wiener_test.cc:237-242 | On every correctly drawn unit, the row loop is the plain sum over [h_start, h_end) |
| CInt.CDiv | test/wiener_test.cc:505-508 | Truncating division: the quotient times the divisor lies within one divisor of the dividend, toward zero |
| CInt.CDivVersusEuclidean | test/wiener_test.cc:505-515 | For a positive divisor, C division equals Euclidean division on non-negative dividends and exact quotients, and is one more on every other negative dividend |
| CInt.AsrIsDiv | av1/common/x86/daala_inv_txfm_avx2.c:23 | The arithmetic shift by s is floor division by 2^s |
| Lanes.SaturateInt16 | av1/common/x86/daala_inv_txfm_avx2.c:723-724 | The result is an int16, equal to x when x fits and to the nearer limit otherwise |
| DaalaHelpers.UnbiasedRshift1 | av1/common/x86/daala_inv_txfm_avx2.c:22-24 | Every int16 lane is halved with truncation toward zero |
| DaalaHelpers.UnbiasedRshift1LaneValue | av1/common/x86/daala_inv_txfm_avx2.c:22-24 | Adding the logical sign bit before the arithmetic shift turns its floor into truncation toward zero, for every int16 lane |
| DaalaHelpers.Avg | av1/common/x86/daala_inv_txfm_avx2.c:26-36 | Every lane is the signed (a+b+1)>>1 and fits in int16 |
| DaalaHelpers.HrSubLaneValue | av1/common/x86/daala_inv_txfm_avx2.c:38-45 | One lane is (a−b+1)>>1 whenever b ≠ −32768 |
| DaalaHelpers.HrSubWrapsAtMinimum | av1/common/x86/daala_inv_txfm_avx2.c:38-45 | At b = −32768 the lane gives −0x4000, where the rounded half-difference is 0x4000 |
| DaalaHelpers.HrSub | av1/common/x86/daala_inv_txfm_avx2.c:38-45 | Every lane is (a−b+1)>>1 and fits in int16 |
| DaalaHelpers.HbdMax | av1/common/x86/daala_inv_txfm_avx2.c:58-60 | The register has eight lanes, and for bd ≤ 15 every lane is 2^bd − 1 |
| DaalaHelpers.HbdClamp | av1/common/x86/daala_inv_txfm_avx2.c:62-64 | Negative lanes become 0, lanes above the maximum become the maximum, and in-range lanes are kept |
| DaalaHelpers.HbdClampToDepth | av1/common/x86/daala_inv_txfm_avx2.c:58-64 | Clamping against the bit-depth maximum lands in [0, 2^bd−1] and keeps in-range lanes |
| DaalaHelpers.AddRowLane | av1/common/x86/daala_inv_txfm_avx2.c:161-168 | Each lane is the pixel plus the rounded and shifted coefficient, wrapped to 16 bits and clamped to the bit depth |
| DaalaHelpers.StoreFourPixel | av1/common/x86/daala_inv_txfm_avx2.c:169-172 | When rows do not overlap, pixel (row, col) holds lane col of register row |
| DaalaHelpers.StoreFourKeeps | av1/common/x86/daala_inv_txfm_avx2.c:169-172 | The four row stores change nothing outside the four rows |
| DaalaHelpers.AddStore4x4 | av1/common/x86/daala_inv_txfm_avx2.c:140-173 | Only the 4x4 block changes. When stride ≥ 4, each of its pixels becomes the clamped pixel + ((q + half) >> s), with s = coefficient depth − bd, and lies in [0, 2^bd) |
| DaalaHelpers.AddStore8x4 | av1/common/x86/daala_inv_txfm_avx2.c:177-210 | Only the 8x4 block changes. When stride ≥ 8, each of its pixels becomes the clamped pixel + ((q + half) >> s) and lies in [0, 2^bd) |
| DaalaPermute.ReverseIsPermutation | av1/common/x86/daala_inv_txfm_avx2.c:701-710 | The reversed bank holds the same registers |
| DaalaPermute.ReverseTwice | av1/common/x86/daala_inv_txfm_avx2.c:701-710 | Flipping twice gives the bank back |
| DaalaPermute.Swap | av1/common/x86/daala_inv_txfm_avx2.c:47-52 | Positions i and j are exchanged and nothing else moves |
| DaalaPermute.SwapIsPermutation | av1/common/x86/daala_inv_txfm_avx2.c:47-52 | A swap only reorders the bank |
| DaalaPermute.FlipIdst4 | av1/common/x86/daala_inv_txfm_avx2.c:548-553 | The flipped kernel is the plain kernel's output in reverse order |
| DaalaPermute.FlipIdst8 | av1/common/x86/daala_inv_txfm_avx2.c:701-710 | The flipped kernel is the plain kernel's output in reverse order |
| DaalaPermute.SwapsReverse8 | av1/common/x86/daala_inv_txfm_avx2.c:706-709 | The four swaps (0,7), (1,6), (2,5) and (3,4) reverse eight registers |
| DaalaPermute.Transpose8x8 | av1/common/x86/daala_inv_txfm_avx2.c:399-444 | Lane j of output register i is lane i of input register j |
| DaalaPermute.TransposeTwice | av1/common/x86/daala_inv_txfm_avx2.c:399-444 | Transposing twice gives the block back |
| DaalaPermute.PacksLanes | av1/common/x86/daala_inv_txfm_avx2.c:723-724 | Packing eight 32-bit values saturates each one in place |
| DaalaPermute.StoreBlock | av1/common/x86/daala_inv_txfm_avx2.c:725 | The stored block replaces its span, and everything else is kept |
| DaalaPermute.RowIidtx | av1/common/x86/daala_inv_txfm_avx2.c:712-727 | For coefficient counts that are multiples of 16, out[c] is in[c] saturated to int16 for every c < coeffs, and the rest of `out` is unchanged |
| Cdef.RoundDown8 | av1/common/x86/cdef_block_ssse3.c:43 | `width & ~7` is a multiple of 8 and within 8 below `width` |
| Cdef.Widen | av1/common/x86/cdef_block_ssse3.c:45 | Each byte is zero-extended, giving a value in [0, 255] |
| Cdef.CopyRow | av1/common/x86/cdef_block_ssse3.c:43-49 | The 8-wide body and then the scalar tail write exactly the widened source row at the row offset |
| Cdef.CopyRect8To16 | av1/common/x86/cdef_block_ssse3.c:38-51 | Equals the row-by-row copy. With an empty rectangle `dst` is unchanged. Every value is kept or is a byte. When `dstride ≥ width`, each pixel of the rectangle is its source pixel and every pixel outside is unchanged |
| Cdef.RowStartIsProduct | av1/common/x86/cdef_block_ssse3.c:45-48 | The row start used throughout is `i * stride`, the offset the C code computes |
| Cdef.CopyRowsStep | av1/common/x86/cdef_block_ssse3.c:42-50 | Copying row i after rows 0..i-1 writes the widened source row i at `i * dstride` and leaves the rest as it was |
| Cdef.CopiedInside | av1/common/x86/cdef_block_ssse3.c:42-50 | With `dstride ≥ width`, dst[i·dstride+j] = src[i·sstride+j] for i < height and j < width |
| Cdef.CopiedOutside | av1/common/x86/cdef_block_ssse3.c:42-50 | With `dstride ≥ width`, no element outside the rectangle changes |
| Cdef.CopiedByte | av1/common/x86/cdef_block_ssse3.c:45-48 | Every element of `dst` is either unchanged or a zero-extended byte |
| Cdef.CopyRowsContents | av1/common/x86/cdef_block_ssse3.c:38-51 | The three pixel properties hold at every position of the destination |
| Cdef.FindDirDualIndependent | av1/common/x86/cdef_block_ssse3.c:27-36 | Each direction and variance depends only on its own block |
| Cdef.FindDirDualSwap | av1/common/x86/cdef_block_ssse3.c:27-36 | Exchanging the two blocks exchanges the two results |

## Left out

- `find_average` and `find_average_highbd` are function parameters. Their
  bodies are not part of this model. Only the conversion of their result to
  `uint8_t` or `uint16_t` (`% 0x100`, `% 0x1_0000`) is modelled. The range
  lemmas take the average as that `uint8_t` or `uint16_t` value.
- `av1_compute_stats_c` and `av1_compute_stats_highbd_c`, the reference
  routines of the dispatchers, are function parameters. Their bodies are not
  part of this model.
- The SIMD statistics kernels (SSE4.1, AVX2, NEON, SVE) are not modelled.
  Their bodies are not part of this model.
- The closeness between downsampled and full-scan statistics is not
  modelled. That difference is an intended approximation with no stated
  bound.
- Sample reads are total (`Sums.At` gives 0 outside the buffer). The model
  does not state that the window halo lies inside the caller's buffers.
- The loop nest over k, l, m and n is modelled entry by entry. The entries
  are independent, so their order is not observable.
- WienerRange: the lemmas bound the totals and every running total after a
  row. They do not bound the partial values inside one pixel's update. The
  pair products are bounded separately, by `LowbdPairProductFits` and
  `HighbdPairProductFits`.
- The kernels compute in unbounded `int`. They equal the C code only where
  no `int32_t` or `int64_t` operation wraps, which WienerRange proves for
  units within 384×384 and samples below 2^bd (bd = 8 for the 8-bit kernel,
  at most 12 for the other).
- WienerKernels.ComputeStatsWinOpt and WienerKernels.ComputeStatsHighbdWinOpt:
  the model follows the release (`NDEBUG`) build. Both kernels begin with
  `assert(h_start % 2 == 0)` (test/wiener_test.cc:69 and :447), which
  aborts a debug build on an odd `h_start`. The model has no abort path:
  it returns the statistics the release build computes, including the
  extra column that `OddStartOvercounts` exhibits, and states the centred
  totals only for aligned units.
- WienerRange.OverflowUnitHTotal: the overflow test's real halo is not
  constant (its setup zeroes leading samples, and `src` is 0), so the lemma
  covers that unit's geometry with a constant halo, not the test's exact
  input.
- `WIENER_STATS_DOWNSAMPLE_FACTOR` is taken as 4, the encoder's value. The
  header that defines it is not part of this model.
- The unused `d` and `s` parameters of the 8-bit kernel are dropped.
- The gtest harness is not modelled: timers, printing, `ACMRandom`,
  `aom_memalign` and the comparison loops. `WienerHarness` keeps only how a
  unit is drawn.
- The end-to-end `SearchWienerTest` encoder tests are not modelled. They
  drive the whole encoder.
- The overflow test clears `MAX_DATA_BLOCK * 30 * sizeof(dgd_buf)` bytes,
  which is the size of a pointer rather than of a sample. That test's setup
  is not modelled.
- DaalaHelpers.HrSub: requires every subtrahend lane to differ from −32768.
  At −32768 the step `0x8000 − b` wraps, and `HrSubWrapsAtMinimum` shows
  the wrong lane.
- DaalaHelpers.HbdMax: states the lane value only for bd ≤ 15. Above that,
  `(1 << bd) - 1` does not fit the 16-bit lane and only its wrapped value is
  stored.
- DaalaHelpers.AddStore4x4: states each pixel only when stride ≥ 4. With a
  smaller stride the rows overlap, later stores overwrite earlier ones, and
  only "nothing outside the rows changes" is stated.
- DaalaHelpers.AddStore8x4: states each pixel only when stride ≥ 8, for the
  same reason.
- DaalaHelpers.AddStore4x4 and DaalaHelpers.AddStore8x4: `TX_COEFF_DEPTH`
  is a parameter (`coeffDepth`), because its header is not part of this
  model.
- The Daala idct and idst butterfly kernels are not modelled: the
  `_mm_mulhrs_epi16` fixed-point pipelines, the `TX_ROW_MAP`/`TX_COL_MAP`
  dispatch and the SIMD self-check block. The flips take the plain kernel
  as a function argument.
- Cdef.FindDirDual: `cdef_find_dir` is a function parameter returning the
  direction and the variance it writes. Its body is not part of this
  model.
- Cdef.CopyRect8To16: with `dstride < width` the rows overlap. In that case
  only the row-by-row result and the per-element byte bound are stated, not
  a pixel-by-pixel equality.

## Findings

| source | as written | input that shows it | evidently intended | confidence | as-written member | corrected member |
|---|---|---|---|---|---|---|
| test/wiener_test.cc:237-239 | `h_start` is rounded down to even before it is swapped with `h_end`, so a smaller odd `h_end` becomes `h_start`. The same draw is at lines 602-604 | draws 100 for `h_start` and 51 for `h_end` give the unit [51, 100): the kernel's even-start assertion fails, and without it column 100 is read and counted | round `h_start` to even after the swap, as the comment above the draw says the kernels require | not executed | WienerHarness.AsWrittenDrawMiscounts | WienerHarness.DrawUnitCountsEachColumnOnce |
