/**
  The row loop of the 8-bit Wiener statistics kernel (test/wiener_test.cc).
  Without downsampling every row of [v_start, v_end) is visited with factor 1.
  With downsampling only rows v_start, v_start + 4, ... are visited and each
  visited row's totals are multiplied by 4, except that the factor of the last
  visit is cut to the number of rows left. Each visit therefore stands for the
  rows [row, row + factor), and the visits tile [v_start, v_end) exactly.
 */
module RowSchedule {
  import opened Sums

  /** WIENER_STATS_DOWNSAMPLE_FACTOR of the encoder's restoration search. */
  const DOWNSAMPLE_FACTOR: int := 4

  /** One pass of the row loop: the row read and the factor its totals are scaled by. */
  datatype Visit = Visit(row: int, factor: int)

  /** The factor the loop starts with. */
  function InitialFactor(downsample: bool): int {
    if downsample then DOWNSAMPLE_FACTOR else 1
  }

  /**
    The loop from row i on, with the factor variable currently at `factor`:
    the factor is cut when fewer than four rows are left (downsampling only),
    then the row is visited and i advances by the factor.
   */
  function Schedule(i: int, vEnd: int, downsample: bool, factor: int): seq<Visit>
    requires factor >= 1
    decreases vEnd - i
  {
    if i >= vEnd then []
    else
      var f := if downsample && vEnd - i < DOWNSAMPLE_FACTOR then vEnd - i else factor;
      [Visit(i, f)] + Schedule(i + f, vEnd, downsample, f)
  }

  /** The visits of the whole row loop. */
  function Rows(vStart: int, vEnd: int, downsample: bool): seq<Visit> {
    Schedule(vStart, vEnd, downsample, InitialFactor(downsample))
  }

  /** Sum of the factors of a list of visits. */
  function FactorSum(s: seq<Visit>): int {
    if s == [] then 0 else s[0].factor + FactorSum(s[1..])
  }

  /**
    The visits from row i tile [i, vEnd): the first is at row i, each next
    one starts where the previous one's rows end, and the last one ends at
    vEnd; every visit's rows lie in [i, vEnd) and every factor is between 1
    and 4 (exactly 1 without downsampling).
   */
  predicate Tiles(s: seq<Visit>, i: int, vEnd: int, downsample: bool) {
    && (s == [] <==> i >= vEnd)
    && (s != [] ==> s[0].row == i && s[|s| - 1].row + s[|s| - 1].factor == vEnd)
    && (forall t | 0 <= t < |s| :: 1 <= s[t].factor <= InitialFactor(downsample))
    && (forall t | 0 <= t < |s| :: i <= s[t].row && s[t].row + s[t].factor <= vEnd)
    && (forall t | 0 <= t < |s| - 1 :: s[t + 1].row == s[t].row + s[t].factor)
  }

  lemma {:induction false} ScheduleFactorSum(i: int, vEnd: int, downsample: bool, factor: int)
    requires factor >= 1
    requires factor == InitialFactor(downsample) || i >= vEnd
    ensures FactorSum(Schedule(i, vEnd, downsample, factor)) == Len(i, vEnd)
    decreases vEnd - i
  {
    if i < vEnd {
      var f := if downsample && vEnd - i < DOWNSAMPLE_FACTOR then vEnd - i else factor;
      ScheduleFactorSum(i + f, vEnd, downsample, f);
      assert ([Visit(i, f)] + Schedule(i + f, vEnd, downsample, f))[1..] == Schedule(i + f, vEnd, downsample, f);
    }
  }

  /** The factor used for the visit at row i. */
  function StepFactor(i: int, vEnd: int, downsample: bool, factor: int): int {
    if downsample && vEnd - i < DOWNSAMPLE_FACTOR then vEnd - i else factor
  }

  lemma FirstVisit(i: int, vEnd: int, downsample: bool, factor: int)
    requires i < vEnd && factor == InitialFactor(downsample)
    ensures var f := StepFactor(i, vEnd, downsample, factor);
      && 1 <= f <= InitialFactor(downsample) && i + f <= vEnd
      && (f == InitialFactor(downsample) || i + f >= vEnd)
      && Schedule(i, vEnd, downsample, factor) == [Visit(i, f)] + Schedule(i + f, vEnd, downsample, f)
  {
  }

  /** A visit at row i whose rows end where a tiling of the rest begins extends the tiling to row i. */
  lemma TilesCons(s: seq<Visit>, v: Visit, rest: seq<Visit>, i: int, vEnd: int, downsample: bool)
    requires v.row == i && 1 <= v.factor <= InitialFactor(downsample) && i + v.factor <= vEnd
    requires Tiles(rest, i + v.factor, vEnd, downsample)
    requires s == [v] + rest
    ensures Tiles(s, i, vEnd, downsample)
  {
    forall t | 0 <= t < |s|
      ensures 1 <= s[t].factor <= InitialFactor(downsample)
      ensures i <= s[t].row && s[t].row + s[t].factor <= vEnd
    {
      if t > 0 {
        assert s[t] == rest[t - 1];
      }
    }
    forall t | 0 <= t < |s| - 1
      ensures s[t + 1].row == s[t].row + s[t].factor
    {
      assert s[t + 1] == rest[t];
      if t > 0 {
        assert s[t] == rest[t - 1];
      }
    }
    if rest != [] {
      assert s[|s| - 1] == rest[|rest| - 1];
    }
  }

  /** The same tiling, stated visit by visit: each visit starts where the previous one ended. */
  predicate Chain(s: seq<Visit>, i: int, vEnd: int, downsample: bool)
    decreases |s|
  {
    if s == [] then i >= vEnd
    else && s[0].row == i && 1 <= s[0].factor <= InitialFactor(downsample) && i + s[0].factor <= vEnd
         && Chain(s[1..], i + s[0].factor, vEnd, downsample)
  }

  lemma {:induction false} ChainTiles(s: seq<Visit>, i: int, vEnd: int, downsample: bool)
    requires Chain(s, i, vEnd, downsample)
    ensures Tiles(s, i, vEnd, downsample)
    decreases |s|
  {
    if s != [] {
      ChainTiles(s[1..], i + s[0].factor, vEnd, downsample);
      assert s == [s[0]] + s[1..];
      TilesCons(s, s[0], s[1..], i, vEnd, downsample);
    }
  }

  lemma {:induction false} ScheduleChain(i: int, vEnd: int, downsample: bool, factor: int)
    requires factor >= 1
    requires factor == InitialFactor(downsample) || i >= vEnd
    ensures Chain(Schedule(i, vEnd, downsample, factor), i, vEnd, downsample)
    decreases vEnd - i
  {
    if i < vEnd {
      var f := StepFactor(i, vEnd, downsample, factor);
      FirstVisit(i, vEnd, downsample, factor);
      ScheduleChain(i + f, vEnd, downsample, f);
      var s := Schedule(i, vEnd, downsample, factor);
      assert s[1..] == Schedule(i + f, vEnd, downsample, f);
    }
  }

  lemma ScheduleTiles(i: int, vEnd: int, downsample: bool, factor: int)
    requires factor >= 1
    requires factor == InitialFactor(downsample) || i >= vEnd
    ensures Tiles(Schedule(i, vEnd, downsample, factor), i, vEnd, downsample)
  {
    ScheduleChain(i, vEnd, downsample, factor);
    ChainTiles(Schedule(i, vEnd, downsample, factor), i, vEnd, downsample);
  }

  /**
    The row loop tiles [v_start, v_end), so the factors applied to the visited
    rows add up to v_end - v_start, with or without downsampling.
   */
  lemma RowsTile(vStart: int, vEnd: int, downsample: bool)
    ensures Tiles(Rows(vStart, vEnd, downsample), vStart, vEnd, downsample)
    ensures FactorSum(Rows(vStart, vEnd, downsample)) == Len(vStart, vEnd)
  {
    ScheduleTiles(vStart, vEnd, downsample, InitialFactor(downsample));
    ScheduleFactorSum(vStart, vEnd, downsample, InitialFactor(downsample));
  }

  lemma {:induction false} ScheduleEveryRow(i: int, vEnd: int)
    ensures Schedule(i, vEnd, false, 1) == seq(Len(i, vEnd), t => Visit(i + t, 1))
    decreases vEnd - i
  {
    if i < vEnd {
      ScheduleEveryRow(i + 1, vEnd);
    }
  }

  /** Without downsampling every row is visited, in order, with factor 1. */
  lemma RowsWithoutDownsampling(vStart: int, vEnd: int)
    ensures Rows(vStart, vEnd, false) == seq(Len(vStart, vEnd), t => Visit(vStart + t, 1))
  {
    ScheduleEveryRow(vStart, vEnd);
  }

  function Min(a: int, b: int): int {
    if a <= b then a else b
  }

  lemma {:induction false} ScheduleEveryFourthRow(i: int, vEnd: int)
    ensures Schedule(i, vEnd, true, DOWNSAMPLE_FACTOR)
         == seq((Len(i, vEnd) + 3) / 4, t => Visit(i + 4 * t, Min(4, vEnd - i - 4 * t)))
    decreases vEnd - i
  {
    if i < vEnd && vEnd - i >= 4 {
      ScheduleEveryFourthRow(i + 4, vEnd);
    }
  }

  /**
    With downsampling the visited rows are v_start + 4t, each with factor 4
    except the last, whose factor is the number of rows left.
   */
  lemma RowsWithDownsampling(vStart: int, vEnd: int)
    ensures Rows(vStart, vEnd, true)
         == seq((Len(vStart, vEnd) + 3) / 4, t => Visit(vStart + 4 * t, Min(4, vEnd - vStart - 4 * t)))
  {
    ScheduleEveryFourthRow(vStart, vEnd);
  }
}
