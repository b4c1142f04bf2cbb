/** The strip chart's per-sample decision rule, over rate values read from the
    profiler oldest first. Heights are in rate units above the chart's
    baseline; the display scale and the pixel columns are not modelled, so a
    stroke is identified by its column (the sample's age) and the two heights
    it spans. */
module Chart {

  /** A vertical segment in `column`, from height `low` to height `high`. */
  datatype Stroke = Stroke(column: nat, low: int, high: int)

  /** The height of the bar for one sample: the rate, capped at the target. */
  function BarHeight(rate: int, target: int): (h: int)
    ensures h <= rate && h <= target
    ensures h == rate || h == target
  {
    if rate < target then rate else target
  }

  /** Whether a sample gets the second, contrasting segment that marks how
      far it fell short of the target. */
  function IsDeficit(rate: int, target: int): (b: bool)
    ensures b <==> 0 < rate < target
  {
    rate > 0 && target - rate > 0
  }

  /** The first pass: one bar per sample, from the baseline to its height. */
  function Bars(rates: seq<int>, target: int): seq<Stroke>
    decreases |rates|
  {
    if rates == [] then []
    else
      var before := rates[..|rates| - 1];
      Bars(before, target) + [Stroke(|before|, 0, BarHeight(rates[|rates| - 1], target))]
  }

  /** The second pass: for each sample short of the target, a segment from its
      rate up to the target; other samples get nothing. */
  function Deficits(rates: seq<int>, target: int): seq<Stroke>
    decreases |rates|
  {
    if rates == [] then []
    else
      var before := rates[..|rates| - 1];
      var rate := rates[|rates| - 1];
      Deficits(before, target) + DeficitAt(|before|, rate, target)
  }

  /** The deficit segment, if any, for the sample in `column`. */
  function DeficitAt(column: nat, rate: int, target: int): seq<Stroke>
  {
    if IsDeficit(rate, target) then [Stroke(column, rate, target)] else []
  }

  lemma BarsSnoc(rates: seq<int>, target: int, i: nat)
    requires i < |rates|
    ensures Bars(rates[..i + 1], target)
         == Bars(rates[..i], target) + [Stroke(i, 0, BarHeight(rates[i], target))]
  {
    assert rates[..i + 1][..i] == rates[..i];
  }

  lemma DeficitsSnoc(rates: seq<int>, target: int, i: nat)
    requires i < |rates|
    ensures Deficits(rates[..i + 1], target)
         == Deficits(rates[..i], target) + DeficitAt(i, rates[i], target)
  {
    assert rates[..i + 1][..i] == rates[..i];
  }

  /** Every sample gets exactly one bar, in its own column, in column order,
      rising from the baseline to the capped rate. */
  lemma {:induction false} BarsAt(rates: seq<int>, target: int, i: nat)
    requires i < |rates|
    ensures |Bars(rates, target)| == |rates|
    ensures Bars(rates, target)[i] == Stroke(i, 0, BarHeight(rates[i], target))
    decreases |rates|
  {
    var before := rates[..|rates| - 1];
    if i < |before| {
      BarsAt(before, target, i);
    } else if |before| > 0 {
      BarsAt(before, target, 0);
    }
  }

  /** A deficit segment is drawn in a column exactly when that sample is
      positive and below the target, and it then spans from the rate to the
      target. */
  lemma {:induction false} DeficitsExactly(rates: seq<int>, target: int, s: Stroke)
    ensures s in Deficits(rates, target) <==>
              s.column < |rates| && IsDeficit(rates[s.column], target)
              && s.low == rates[s.column] && s.high == target
    decreases |rates|
  {
    if rates != [] {
      var before := rates[..|rates| - 1];
      DeficitsExactly(before, target, s);
      if s.column < |before| {
        assert rates[s.column] == before[s.column];
      }
    }
  }

  /** Deficit segments come out in increasing column order, at most one per
      column. */
  lemma {:induction false} DeficitsOrdered(rates: seq<int>, target: int, j: nat, k: nat)
    requires j < k < |Deficits(rates, target)|
    ensures Deficits(rates, target)[j].column < Deficits(rates, target)[k].column
    decreases |rates|
  {
    var before := rates[..|rates| - 1];
    var d := Deficits(before, target);
    if k < |d| {
      DeficitsOrdered(before, target, j, k);
    } else {
      assert d[j] in d;
      DeficitsExactly(before, target, d[j]);
    }
  }

  /** Where a deficit segment is drawn, it sits exactly on top of the bar of
      the same column, and the two together reach the target. */
  lemma StackedToTarget(rates: seq<int>, target: int, s: Stroke)
    requires s in Deficits(rates, target)
    ensures s.column < |Bars(rates, target)|
    ensures Bars(rates, target)[s.column].high == s.low
    ensures s.high == target
  {
    DeficitsExactly(rates, target, s);
    BarsAt(rates, target, s.column);
  }
}
