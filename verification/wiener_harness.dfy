/**
  How the randomized Wiener tests (RunWienerTest in test/wiener_test.cc, 8-bit
  and high-bit-depth) choose the unit: h_start is drawn below 192 and rounded
  down to even, h_end below 384 (256 in speed runs), v_start below 192 and
  v_end below 384 (256 in speed runs); each pair is swapped if out of order.

  As written, the rounding happens before the swap, so when the drawn h_end
  is smaller than h_start and odd, the swap makes h_start odd. The kernels
  require an even h_start: with an odd one the paired-column loop reads one
  column past h_end. The corrected draw rounds after the swap.
 */
module WienerHarness {
  import opened Sums
  import opened ColumnPairs
  import opened WienerKernels
  import opened WienerRange

  /** Two values in increasing order (std::swap when the first is larger). */
  function Ordered(a: int, b: int): (r: (int, int))
    ensures r.0 <= r.1
    ensures (r.0 == a && r.1 == b) || (r.0 == b && r.1 == a)
  {
    if a > b then (b, a) else (a, b)
  }

  /** The upper bound drawn: fixed at 256 in speed runs, otherwise below 384. */
  function DrawEnd(draw: nat, runTimes: int): int {
    if runTimes != 1 then 256 else draw % MAX_WIENER_BLOCK
  }

  /** The unit as the tests draw it: h_start rounded to even before the swap. */
  function DrawUnitAsWritten(d1: nat, d2: nat, d3: nat, d4: nat, runTimes: int): (r: Rect)
    ensures r.hStart <= r.hEnd && r.vStart <= r.vEnd
  {
    var h := Ordered(AndNot1(d1 % (MAX_WIENER_BLOCK / 2)), DrawEnd(d2, runTimes));
    var v := Ordered(d3 % (MAX_WIENER_BLOCK / 2), DrawEnd(d4, runTimes));
    Rect(h.0, h.1, v.0, v.1)
  }

  /** The draws 100 and 51 for h_start and h_end give h_start == 51. */
  lemma AsWrittenDrawsOddStart()
    ensures DrawUnitAsWritten(100, 51, 0, 0, 1).hStart == 51
    ensures !Aligned(DrawUnitAsWritten(100, 51, 0, 0, 1))
  {
    assert 100 % (MAX_WIENER_BLOCK / 2) == 100;
    assert AndNot1(100) == 100;
    assert DrawEnd(51, 1) == 51;
    assert Ordered(100, 51) == (51, 100);
    assert DrawEnd(0, 1) == 0;
    assert Ordered(0, 0) == (0, 0);
    assert 51 % 2 == 1;
  }

  lemma {:induction false} OddPairLoop(g: int -> int, j: int, e: int)
    requires j % 2 == 1 && e % 2 == 0 && j < e
    ensures PairLoop(g, j, e) == ColSum(g, j, e + 1)
    decreases e - j
  {
    if j + 2 < e {
      OddPairLoop(g, j + 2, e);
    } else {
      assert j + 1 == e;
      assert PairLoop(g, j + 2, e) == 0;
      assert ColSum(g, j + 2, e + 1) == 0;
    }
    assert ColSum(g, j, e + 1) == g(j) + ColSum(g, j + 1, e + 1);
    assert ColSum(g, j + 1, e + 1) == g(j + 1) + ColSum(g, j + 2, e + 1);
  }

  /** With an odd h_start and an even h_end the row loop also adds column h_end. */
  lemma OddStartReadsPastEnd(g: int -> int, hStart: int, hEnd: int)
    requires hStart % 2 == 1 && hEnd % 2 == 0 && hStart < hEnd
    ensures RowAcc(g, hStart, hEnd) == ColSum(g, hStart, hEnd) + g(hEnd)
  {
    OddPairLoop(g, hStart, hEnd);
    ColSumLast(g, hStart, hEnd);
  }

  /** On the drawn unit 51..100 the row total of column 100 is 1 where a per-pixel loop gives 0. */
  lemma AsWrittenDrawMiscounts()
    ensures RowAcc(Indicator(100), 51, 100) == 1
    ensures ColSum(Indicator(100), 51, 100) == 0
  {
    OddStartReadsPastEnd(Indicator(100), 51, 100);
    ColSumIndicator(100, 51, 100);
  }

  /** The corrected draw: swap first, then round h_start down to even. */
  function DrawUnit(d1: nat, d2: nat, d3: nat, d4: nat, runTimes: int): (r: Rect)
    ensures WithinMaxUnit(r)
    ensures 0 <= r.hStart && r.hEnd < MAX_WIENER_BLOCK && 0 <= r.vStart && r.vEnd < MAX_WIENER_BLOCK
  {
    var h := Ordered(d1 % (MAX_WIENER_BLOCK / 2), DrawEnd(d2, runTimes));
    var v := Ordered(d3 % (MAX_WIENER_BLOCK / 2), DrawEnd(d4, runTimes));
    Rect(AndNot1(h.0), h.1, v.0, v.1)
  }

  /**
    On every unit the corrected draw gives, the row loop counts exactly the
    columns of [h_start, h_end), each once.
   */
  lemma DrawUnitCountsEachColumnOnce(d1: nat, d2: nat, d3: nat, d4: nat, runTimes: int, g: int -> int)
    ensures var r := DrawUnit(d1, d2, d3, d4, runTimes);
      RowAcc(g, r.hStart, r.hEnd) == ColSum(g, r.hStart, r.hEnd)
  {
    var r := DrawUnit(d1, d2, d3, d4, runTimes);
    RowAccIsColSum(g, r.hStart, r.hEnd);
  }
}
