/** The statistics shown to the user: the table of symmetric quantile bounds
    (`get_bounds_for_running_prob`) and the share of weekly changes inside
    a chosen range (`get_percent_for_bound`). */
module RunningProb {
  import opened Common
  import opened PriceFrame
  import opened VolatilityBand
  import opened Quantiles

  /** A row of the bounds table, keyed by its step `s` in percent: the
      quantiles at `s / 100` and at `1 - s / 100`. */
  datatype BoundsRow = BoundsRow(step: nat, lower: Option<real>, upper: Option<real>)

  function StepRow(values: seq<Option<real>>, step: nat): (row: BoundsRow)
    requires step <= 100
    ensures row.step == step
    ensures row.lower.Some? <==> PresentCount(values) > 0
    ensures row.upper.Some? <==> PresentCount(values) > 0
  {
    var p := step as real / 100.0;
    BoundsRow(step, Quantile(values, p), Quantile(values, 1.0 - p))
  }

  /** The rows of the bounds table in the order the loop inserts them, one
      per step of `range(5, 50, 5)`. */
  function BoundsTable(values: seq<Option<real>>): (table: seq<BoundsRow>)
    ensures |table| == 9
    ensures forall k :: 0 <= k < 9 ==> table[k].step == 5 * (k + 1)
  {
    seq(9, k requires 0 <= k < 9 => StepRow(values, 5 * (k + 1)))
  }

  /** `get_bounds_for_running_prob(weekly_changes)`: for each step the pair of
      quantiles is stored under a key of its own, so the table has one row
      per step, in insertion order. */
  method GetBoundsForRunningProb(weeklyChanges: seq<Option<real>>) returns (table: seq<BoundsRow>)
    ensures table == BoundsTable(weeklyChanges)
  {
    table := [];
    var percentile := 5;
    while percentile < 50
      invariant 5 <= percentile <= 50 && percentile % 5 == 0
      invariant |table| == percentile / 5 - 1
      invariant forall k :: 0 <= k < |table| ==> table[k] == StepRow(weeklyChanges, 5 * (k + 1))
    {
      var p := percentile as real / 100.0;
      var rangeLower, rangeUpper := Quantile(weeklyChanges, p), Quantile(weeklyChanges, 1.0 - p);
      table := table + [BoundsRow(percentile, rangeLower, rangeUpper)];
      percentile := percentile + 5;
    }
  }

  /** The table has nine rows, for the steps 5, 10, ..., 45 in ascending order. */
  lemma BoundsTableSteps(values: seq<Option<real>>)
    ensures |BoundsTable(values)| == 9
    ensures BoundsTable(values)[0].step == 5 && BoundsTable(values)[8].step == 45
    ensures forall k :: 0 <= k < 8 ==> BoundsTable(values)[k + 1].step == BoundsTable(values)[k].step + 5
  {
  }

  /** `outer` is an interval containing `inner`; both are NaN together. */
  predicate Encloses(outer: BoundsRow, inner: BoundsRow)
  {
    && (outer.lower.Some? <==> inner.lower.Some?)
    && (outer.upper.Some? <==> inner.upper.Some?)
    && (outer.lower.Some? && inner.lower.Some? ==> outer.lower.value <= inner.lower.value)
    && (outer.upper.Some? && inner.upper.Some? ==> inner.upper.value <= outer.upper.value)
  }

  /** The row at position `k` of the table is the row for step `5 * (k + 1)`. */
  lemma TableRowStep(values: seq<Option<real>>, k: nat)
    requires k < 9
    ensures BoundsTable(values)[k] == StepRow(values, 5 * (k + 1))
  {
  }

  /** A row for a step of at most 50 is an interval: its lower bound is at
      most its upper bound. */
  lemma StepRowOrdered(values: seq<Option<real>>, step: nat)
    requires step <= 50
    ensures var row := StepRow(values, step);
      row.lower.Some? ==> row.upper.Some? && row.lower.value <= row.upper.value
  {
    var p := step as real / 100.0;
    var row := StepRow(values, step);
    assert row.lower == Quantile(values, p) && row.upper == Quantile(values, 1.0 - p);
    QuantileMonotone(values, p, 1.0 - p);
  }

  /** A row for a smaller step encloses the row for a larger step. */
  lemma StepRowsNested(values: seq<Option<real>>, s: nat, t: nat)
    requires s <= t <= 100
    ensures Encloses(StepRow(values, s), StepRow(values, t))
  {
    var ps, pt := s as real / 100.0, t as real / 100.0;
    QuantileMonotone(values, ps, pt);
    QuantileMonotone(values, 1.0 - pt, 1.0 - ps);
  }

  /** Every row of the table is an interval: its lower bound is at most its
      upper bound, and both are NaN exactly when no weekly change is present. */
  lemma BoundsRowOrdered(values: seq<Option<real>>, k: nat)
    requires k < 9
    ensures var row := BoundsTable(values)[k];
      && (row.lower.Some? <==> PresentCount(values) > 0)
      && (row.upper.Some? <==> PresentCount(values) > 0)
      && (row.lower.Some? ==> row.lower.value <= row.upper.value)
  {
    TableRowStep(values, k);
    StepRowOrdered(values, 5 * (k + 1));
  }

  /** The intervals are nested: a row for a smaller step encloses the
      interval of every row for a larger step. */
  lemma BoundsTableNested(values: seq<Option<real>>, k: nat, l: nat)
    requires k <= l < 9
    ensures Encloses(BoundsTable(values)[k], BoundsTable(values)[l])
  {
    TableRowStep(values, k);
    TableRowStep(values, l);
    StepRowsNested(values, 5 * (k + 1), 5 * (l + 1));
  }

  /** Number of cells that are present and lie in `[lo, hi]`. */
  function CountInRange(lo: real, hi: real, values: seq<Option<real>>): (c: nat)
    ensures c <= PresentCount(values)
    ensures lo > hi ==> c == 0
  {
    if |values| == 0 then 0
    else
      CountInRange(lo, hi, values[..|values| - 1])
        + (if InRange(values[|values| - 1], Some(lo), Some(hi)) then 1 else 0)
  }

  /** The count is the size of the set of positions whose cell lies in the range. */
  lemma {:induction false} CountMatchesPositions(lo: real, hi: real, values: seq<Option<real>>)
    ensures CountInRange(lo, hi, values)
         == |set i | 0 <= i < |values| && InRange(values[i], Some(lo), Some(hi))|
  {
    var n := |values|;
    var s := set i | 0 <= i < n && InRange(values[i], Some(lo), Some(hi));
    if n == 0 {
      assert s == {};
    } else {
      var init := values[..n - 1];
      CountMatchesPositions(lo, hi, init);
      var s0 := set i | 0 <= i < n - 1 && InRange(init[i], Some(lo), Some(hi));
      if InRange(values[n - 1], Some(lo), Some(hi)) {
        assert s == s0 + {n - 1};
      } else {
        assert s == s0;
      }
    }
  }

  /** Widening the range never lowers the count. */
  lemma {:induction false} CountWidening(lo: real, hi: real, lo': real, hi': real, values: seq<Option<real>>)
    requires lo' <= lo && hi <= hi'
    ensures CountInRange(lo, hi, values) <= CountInRange(lo', hi', values)
  {
    if |values| > 0 {
      CountWidening(lo, hi, lo', hi', values[..|values| - 1]);
    }
  }

  /** When every cell is present and lies in the range, every cell is counted. */
  lemma {:induction false} CountAllInRange(lo: real, hi: real, values: seq<Option<real>>)
    requires forall i :: 0 <= i < |values| ==> InRange(values[i], Some(lo), Some(hi))
    ensures CountInRange(lo, hi, values) == |values|
  {
    if |values| > 0 {
      CountAllInRange(lo, hi, values[..|values| - 1]);
    }
  }

  /** When every present cell lies in the range, every present cell is counted. */
  lemma {:induction false} CountAllPresentInRange(lo: real, hi: real, values: seq<Option<real>>)
    requires forall i :: 0 <= i < |values| && values[i].Some? ==> lo <= values[i].value <= hi
    ensures CountInRange(lo, hi, values) == PresentCount(values)
  {
    if |values| > 0 {
      CountAllPresentInRange(lo, hi, values[..|values| - 1]);
    }
  }

  /** `100 * c / n` for `c` out of `n > 0` lies in `[0, 100]`, grows with `c`,
      and is 100 only for `c == n`. */
  lemma ShareBounds(c: nat, c': nat, n: nat)
    requires c <= c' <= n && n > 0
    ensures 0.0 <= c as real / n as real * 100.0 <= c' as real / n as real * 100.0 <= 100.0
    ensures c < n ==> c as real / n as real * 100.0 < 100.0
    ensures c == n ==> c as real / n as real * 100.0 == 100.0
  {
    var r, r' := c as real / n as real, c' as real / n as real;
    assert r * n as real == c as real;
    assert r' * n as real == c' as real;
    assert (r' - r) * n as real >= 0.0;
    assert (1.0 - r') * n as real >= 0.0;
  }

  /** `get_percent_for_bound(lower_bound, upper_bound, weekly_changes)`: the
      present changes within `[lo, hi]` as a percentage of ALL cells, NaN
      cells included; an empty column divides by zero. */
  function GetPercentForBound(lo: real, hi: real, weeklyChanges: seq<Option<real>>): (r: Result<real>)
    ensures r.Err? <==> |weeklyChanges| == 0
    ensures r.Err? ==> r.error == ZeroDivision
    ensures r.Ok? ==> 0.0 <= r.value <= 100.0
    ensures r.Ok? && lo > hi ==> r.value == 0.0
  {
    if |weeklyChanges| == 0 then Err(ZeroDivision)
    else
      var c := CountInRange(lo, hi, weeklyChanges);
      ShareBounds(c, c, |weeklyChanges|);
      Ok(c as real / |weeklyChanges| as real * 100.0)
  }

  /** Widening `[lo, hi]` never lowers the percentage. */
  lemma PercentWidening(lo: real, hi: real, lo': real, hi': real, weeklyChanges: seq<Option<real>>)
    requires lo' <= lo && hi <= hi' && |weeklyChanges| > 0
    ensures GetPercentForBound(lo, hi, weeklyChanges).value <= GetPercentForBound(lo', hi', weeklyChanges).value
  {
    CountWidening(lo, hi, lo', hi', weeklyChanges);
    ShareBounds(CountInRange(lo, hi, weeklyChanges), CountInRange(lo', hi', weeklyChanges), |weeklyChanges|);
  }

  /** NaN cells count in the denominator but never in the numerator: the
      percentage is at most the share of present cells, and a column holding
      a NaN never reaches 100. */
  lemma PercentMissingNotCounted(lo: real, hi: real, weeklyChanges: seq<Option<real>>)
    requires |weeklyChanges| > 0
    ensures GetPercentForBound(lo, hi, weeklyChanges).value
         <= PresentCount(weeklyChanges) as real / |weeklyChanges| as real * 100.0
    ensures (exists i :: 0 <= i < |weeklyChanges| && weeklyChanges[i] == None)
         ==> GetPercentForBound(lo, hi, weeklyChanges).value < 100.0
  {
    var n := |weeklyChanges|;
    var c := CountInRange(lo, hi, weeklyChanges);
    ShareBounds(c, PresentCount(weeklyChanges), n);
    if exists i :: 0 <= i < n && weeklyChanges[i] == None {
      var i :| 0 <= i < n && weeklyChanges[i] == None;
      MissingCellNotCounted(weeklyChanges, i);
    }
  }

  /** With no NaN cell and every change in the range, the percentage is 100. */
  lemma PercentAllInRange(lo: real, hi: real, weeklyChanges: seq<Option<real>>)
    requires |weeklyChanges| > 0
    requires forall i :: 0 <= i < |weeklyChanges| ==> InRange(weeklyChanges[i], Some(lo), Some(hi))
    ensures GetPercentForBound(lo, hi, weeklyChanges) == Ok(100.0)
  {
    CountAllInRange(lo, hi, weeklyChanges);
    ShareBounds(|weeklyChanges|, |weeklyChanges|, |weeklyChanges|);
  }

  /** Three of the five changes 1, 2, 3, 4, 5 lie in `[2, 4]`: 60 percent. */
  lemma PercentExample()
    ensures GetPercentForBound(2.0, 4.0, [Some(1.0), Some(2.0), Some(3.0), Some(4.0), Some(5.0)]) == Ok(60.0)
  {
    var v := [Some(1.0), Some(2.0), Some(3.0), Some(4.0), Some(5.0)];
    assert v[..4] == [Some(1.0), Some(2.0), Some(3.0), Some(4.0)];
    assert v[..4][..3] == [Some(1.0), Some(2.0), Some(3.0)];
    assert v[..4][..3][..2] == [Some(1.0), Some(2.0)];
    assert v[..4][..3][..2][..1] == [Some(1.0)];
    assert CountInRange(2.0, 4.0, v[..4][..3][..2][..1]) == 0;
    assert CountInRange(2.0, 4.0, v[..4][..3][..2]) == 1;
    assert CountInRange(2.0, 4.0, v[..4][..3]) == 2;
    assert CountInRange(2.0, 4.0, v[..4]) == 3;
    assert CountInRange(2.0, 4.0, v) == 3;
  }

  /** When the volatility band exists and is not inverted, the filtered frame
      keeps the current week, so the percentage over its weekly changes is
      always defined. */
  lemma FilteredPercentDefined(frame: seq<Row>, std: Option<real>, numStdDevs: real, lo: real, hi: real)
    requires GetVolatilityRange(frame, std, numStdDevs).Ok?
    requires GetVolatilityRange(frame, std, numStdDevs).value.lower.Some?
    requires numStdDevs >= 0.0 && std.Some? && std.value >= 0.0
    ensures var band := GetVolatilityRange(frame, std, numStdDevs).value;
      GetPercentForBound(lo, hi, WeeklyChanges(FilterVolatilityRange(frame, band.lower, band.upper))).Ok?
  {
    CurrentWeekKept(frame, std, numStdDevs);
  }

  /** When the current volatility is NaN the band is NaN, the filter keeps no
      week, and the percentage over the filtered weekly changes divides by zero. */
  lemma NanBandPercentRaises(frame: seq<Row>, std: Option<real>, numStdDevs: real, lo: real, hi: real)
    requires |frame| > 0 && frame[|frame| - 1].volatility.None?
    ensures var band := GetVolatilityRange(frame, std, numStdDevs).value;
      && band.lower.None? && band.upper.None?
      && GetPercentForBound(lo, hi, WeeklyChanges(FilterVolatilityRange(frame, band.lower, band.upper))) == Err(ZeroDivision)
  {
    var band := GetVolatilityRange(frame, std, numStdDevs).value;
    MissingBoundKeepsNothing(frame, band.lower, band.upper);
  }

  // The unconditional percentage: the column of the whole frame starts with
  // the NaN of `pct_change`, which `get_percent_for_bound` counts in its
  // denominator.

  /** As written: over the whole frame's weekly changes the percentage is
      below 100 whatever the range, because the leading NaN is counted. */
  lemma UnconditionalPercentBelowHundred(prices: seq<real>, volatility: seq<Option<real>>, lo: real, hi: real)
    requires |prices| > 0 && |volatility| == |prices|
    ensures var changes := WeeklyChanges(GetData(prices, volatility));
      GetPercentForBound(lo, hi, changes).Ok? && GetPercentForBound(lo, hi, changes).value < 100.0
  {
    var changes := WeeklyChanges(GetData(prices, volatility));
    assert changes[0] == None;
    PercentMissingNotCounted(lo, hi, changes);
  }

  /** As written: prices 100 then 102 have one change, +2 percent, yet a
      range holding it reports 50 percent. */
  lemma UnconditionalPercentExample()
    ensures PctChange([100.0, 102.0]) == [None, Some(2.0)]
    ensures GetPercentForBound(-1000.0, 1000.0, PctChange([100.0, 102.0])) == Ok(50.0)
  {
    var c := PctChange([100.0, 102.0]);
    assert c == [None, Some(2.0)];
    assert c[..1] == [None];
    assert CountInRange(-1000.0, 1000.0, c) == 1;
  }

  /** Corrected: the present changes within `[lo, hi]` as a percentage of the
      present changes; no present change divides by zero. */
  function PercentOfPresent(lo: real, hi: real, weeklyChanges: seq<Option<real>>): (r: Result<real>)
    ensures r.Err? <==> PresentCount(weeklyChanges) == 0
    ensures r.Ok? ==> 0.0 <= r.value <= 100.0
    ensures r.Ok? && lo > hi ==> r.value == 0.0
  {
    var n := PresentCount(weeklyChanges);
    if n == 0 then Err(ZeroDivision)
    else
      var c := CountInRange(lo, hi, weeklyChanges);
      ShareBounds(c, c, n);
      Ok(c as real / n as real * 100.0)
  }

  /** Corrected: a range holding every present change gives 100 percent, the
      leading NaN of the whole frame's column notwithstanding. */
  lemma PercentOfPresentCoversAll(lo: real, hi: real, weeklyChanges: seq<Option<real>>)
    requires PresentCount(weeklyChanges) > 0
    requires forall i :: 0 <= i < |weeklyChanges| && weeklyChanges[i].Some? ==> lo <= weeklyChanges[i].value <= hi
    ensures PercentOfPresent(lo, hi, weeklyChanges) == Ok(100.0)
  {
    var n := PresentCount(weeklyChanges);
    CountAllPresentInRange(lo, hi, weeklyChanges);
    ShareBounds(n, n, n);
  }

  /** Corrected: on a column without NaN, as the filtered column is in
      practice, it agrees with `get_percent_for_bound`. */
  lemma PercentOfPresentAgrees(lo: real, hi: real, weeklyChanges: seq<Option<real>>)
    requires |weeklyChanges| > 0 && PresentCount(weeklyChanges) == |weeklyChanges|
    ensures PercentOfPresent(lo, hi, weeklyChanges) == GetPercentForBound(lo, hi, weeklyChanges)
  {
  }

  /** Corrected: widening `[lo, hi]` never lowers the percentage. */
  lemma PercentOfPresentWidening(lo: real, hi: real, lo': real, hi': real, weeklyChanges: seq<Option<real>>)
    requires PresentCount(weeklyChanges) > 0
    requires lo' <= lo && hi <= hi'
    ensures PercentOfPresent(lo, hi, weeklyChanges).value <= PercentOfPresent(lo', hi', weeklyChanges).value
  {
    var n := PresentCount(weeklyChanges);
    var c, c' := CountInRange(lo, hi, weeklyChanges), CountInRange(lo', hi', weeklyChanges);
    CountWidening(lo, hi, lo', hi', weeklyChanges);
    ShareBounds(c, c', n);
  }

  /** Corrected: the two-price example reports 100 percent. */
  lemma PercentOfPresentExample()
    ensures PercentOfPresent(-1000.0, 1000.0, PctChange([100.0, 102.0])) == Ok(100.0)
  {
    var c := PctChange([100.0, 102.0]);
    assert c == [None, Some(2.0)];
    assert c[..1] == [None];
    assert PresentCount(c) == 1;
    assert CountInRange(-1000.0, 1000.0, c) == 1;
  }
}
