/** The volatility band around the current week's volatility
    (`get_volatility_range`) and the rows whose volatility lies in it
    (`filter_volatility_range`). */
module VolatilityBand {
  import opened Common
  import opened PriceFrame

  /** The pair `(a, b)` returned by `get_volatility_range`; a bound is NaN
      when the current volatility or the standard deviation is. */
  datatype Band = Band(lower: Option<real>, upper: Option<real>)

  /** `get_volatility_range(df, num_std_devs)`: the last cell of the
      `Volatility` column, plus and minus `numStdDevs` standard deviations of
      that column. The deviation `std` is pandas' `.std()` of the column,
      supplied by the caller (NaN when fewer than two cells are present).
      Indexing the last cell of an empty frame raises. */
  function GetVolatilityRange(frame: seq<Row>, std: Option<real>, numStdDevs: real): (r: Result<Band>)
    ensures r.Err? <==> |frame| == 0
    ensures r.Ok? ==> (r.value.lower.Some? <==> frame[|frame| - 1].volatility.Some? && std.Some?)
    ensures r.Ok? ==> (r.value.upper.Some? <==> r.value.lower.Some?)
    ensures r.Ok? && r.value.lower.Some? ==>
      var lo, hi, curr := r.value.lower.value, r.value.upper.value, frame[|frame| - 1].volatility.value;
      && hi - lo == 2.0 * numStdDevs * std.value
      && lo + hi == 2.0 * curr
      && (numStdDevs >= 0.0 && std.value >= 0.0 ==> lo <= curr <= hi)
  {
    if |frame| == 0 then Err(EmptySeries)
    else
      match (frame[|frame| - 1].volatility, std)
      case (Some(curr), Some(s)) => Ok(Band(Some(curr - numStdDevs * s), Some(curr + numStdDevs * s)))
      case _ => Ok(Band(None, None))
  }

  /** `filter_volatility_range(df, a, b)`: the rows whose volatility lies in
      `[a, b]`, in their original order. */
  function FilterVolatilityRange(frame: seq<Row>, a: Option<real>, b: Option<real>): (kept: seq<Row>)
    ensures |kept| <= |frame|
    ensures forall row :: row in kept ==> row in frame && InRange(row.volatility, a, b)
  {
    if |frame| == 0 then []
    else
      var init, last := frame[..|frame| - 1], frame[|frame| - 1];
      assert frame == init + [last];
      FilterVolatilityRange(init, a, b) + (if InRange(last.volatility, a, b) then [last] else [])
  }

  /** The positions in `frame` of the rows the filter keeps, ascending. */
  function KeptIndices(frame: seq<Row>, a: Option<real>, b: Option<real>): (idx: seq<nat>)
    ensures forall k :: 0 <= k < |idx| ==> idx[k] < |frame|
    ensures forall k, l :: 0 <= k < l < |idx| ==> idx[k] < idx[l]
  {
    if |frame| == 0 then []
    else
      var n := |frame|;
      KeptIndices(frame[..n - 1], a, b) + (if InRange(frame[n - 1].volatility, a, b) then [n - 1] else [])
  }

  /** The k-th kept row is the row at the k-th kept position. */
  lemma {:induction false} FilterAtKeptIndices(frame: seq<Row>, a: Option<real>, b: Option<real>)
    ensures |KeptIndices(frame, a, b)| == |FilterVolatilityRange(frame, a, b)|
    ensures forall k :: 0 <= k < |KeptIndices(frame, a, b)| ==>
      FilterVolatilityRange(frame, a, b)[k] == frame[KeptIndices(frame, a, b)[k]]
  {
    if |frame| > 0 {
      var n := |frame|;
      var init := frame[..n - 1];
      FilterAtKeptIndices(init, a, b);
      var kept0, idx0 := FilterVolatilityRange(init, a, b), KeptIndices(init, a, b);
      var keep := InRange(frame[n - 1].volatility, a, b);
      var kept := kept0 + (if keep then [frame[n - 1]] else []);
      var idx := idx0 + (if keep then [n - 1] else []);
      assert FilterVolatilityRange(frame, a, b) == kept;
      assert KeptIndices(frame, a, b) == idx;
      forall k | 0 <= k < |idx|
        ensures kept[k] == frame[idx[k]]
      {
        if k < |idx0| {
          assert kept[k] == kept0[k] && idx[k] == idx0[k] && init[idx0[k]] == frame[idx0[k]];
        }
      }
    }
  }

  /** A position is kept exactly when the row's volatility is in the band. */
  lemma {:induction false} KeptIndicesExact(frame: seq<Row>, a: Option<real>, b: Option<real>)
    ensures forall i :: 0 <= i < |frame| ==>
      (i in KeptIndices(frame, a, b) <==> InRange(frame[i].volatility, a, b))
  {
    if |frame| > 0 {
      var n := |frame|;
      var init := frame[..n - 1];
      KeptIndicesExact(init, a, b);
      var idx0 := KeptIndices(init, a, b);
      assert n - 1 !in idx0;
      assert forall i :: 0 <= i < n - 1 ==> init[i] == frame[i];
    }
  }

  /** The filter keeps exactly the rows whose volatility is present and in
      `[a, b]`: its result is the subsequence of `frame` at the strictly
      increasing positions of those rows. */
  lemma FilterKeepsExactlyInRangeRows(frame: seq<Row>, a: Option<real>, b: Option<real>)
    ensures var kept, idx := FilterVolatilityRange(frame, a, b), KeptIndices(frame, a, b);
      && |idx| == |kept|
      && (forall k :: 0 <= k < |idx| ==> idx[k] < |frame| && kept[k] == frame[idx[k]])
      && (forall k, l :: 0 <= k < l < |idx| ==> idx[k] < idx[l])
      && (forall i :: 0 <= i < |frame| ==> (i in idx <==> InRange(frame[i].volatility, a, b)))
  {
    FilterAtKeptIndices(frame, a, b);
    KeptIndicesExact(frame, a, b);
  }

  /** Filtering rows that are all in the band keeps every one of them. */
  lemma {:induction false} FilterKeepsAllInRange(frame: seq<Row>, a: Option<real>, b: Option<real>)
    requires forall row :: row in frame ==> InRange(row.volatility, a, b)
    ensures FilterVolatilityRange(frame, a, b) == frame
  {
    if |frame| > 0 {
      var init, last := frame[..|frame| - 1], frame[|frame| - 1];
      assert frame == init + [last];
      assert InRange(last.volatility, a, b);
      FilterKeepsAllInRange(init, a, b);
    }
  }

  /** Filtering twice with the same band changes nothing the second time. */
  lemma FilterIdempotent(frame: seq<Row>, a: Option<real>, b: Option<real>)
    ensures FilterVolatilityRange(FilterVolatilityRange(frame, a, b), a, b) == FilterVolatilityRange(frame, a, b)
  {
    FilterKeepsAllInRange(FilterVolatilityRange(frame, a, b), a, b);
  }

  /** Appending a row appends it to the filtered rows when it is in the band. */
  lemma FilterSnoc(frame: seq<Row>, row: Row, a: Option<real>, b: Option<real>)
    ensures FilterVolatilityRange(frame + [row], a, b)
         == FilterVolatilityRange(frame, a, b) + (if InRange(row.volatility, a, b) then [row] else [])
  {
    assert (frame + [row])[..|frame|] == frame;
  }

  /** The filter works row by row: filtering a concatenation filters each part
      and keeps the parts in order. */
  lemma {:induction false} FilterConcat(x: seq<Row>, y: seq<Row>, a: Option<real>, b: Option<real>)
    ensures FilterVolatilityRange(x + y, a, b) == FilterVolatilityRange(x, a, b) + FilterVolatilityRange(y, a, b)
  {
    if |y| == 0 {
      assert x + y == x;
    } else {
      var y0, last := y[..|y| - 1], y[|y| - 1];
      var extra := if InRange(last.volatility, a, b) then [last] else [];
      var fx, fy0 := FilterVolatilityRange(x, a, b), FilterVolatilityRange(y0, a, b);
      calc {
        FilterVolatilityRange(x + y, a, b);
        { assert x + y == (x + y0) + [last]; }
        FilterVolatilityRange((x + y0) + [last], a, b);
        { FilterSnoc(x + y0, last, a, b); }
        FilterVolatilityRange(x + y0, a, b) + extra;
        { FilterConcat(x, y0, a, b); }
        (fx + fy0) + extra;
        fx + (fy0 + extra);
        { FilterSnoc(y0, last, a, b); assert y == y0 + [last]; }
        fx + FilterVolatilityRange(y, a, b);
      }
    }
  }

  /** A NaN bound keeps no row, since every comparison with it is false. */
  lemma MissingBoundKeepsNothing(frame: seq<Row>, a: Option<real>, b: Option<real>)
    requires a.None? || b.None?
    ensures FilterVolatilityRange(frame, a, b) == []
  {
  }

  /** When the band exists and is not inverted, the current (last) week lies in
      it, so the filtered frame ends with that week and is never empty. */
  lemma CurrentWeekKept(frame: seq<Row>, std: Option<real>, numStdDevs: real)
    requires GetVolatilityRange(frame, std, numStdDevs).Ok?
    requires GetVolatilityRange(frame, std, numStdDevs).value.lower.Some?
    requires numStdDevs >= 0.0 && std.Some? && std.value >= 0.0
    ensures var band := GetVolatilityRange(frame, std, numStdDevs).value;
      var kept := FilterVolatilityRange(frame, band.lower, band.upper);
      |kept| > 0 && kept[|kept| - 1] == frame[|frame| - 1]
  {
  }

  /** With zero standard deviations the band is the single point of the
      current volatility, and the filter keeps exactly the weeks whose
      volatility equals it. */
  lemma ZeroSpreadKeepsExactMatches(frame: seq<Row>, std: Option<real>)
    requires GetVolatilityRange(frame, std, 0.0).Ok?
    requires GetVolatilityRange(frame, std, 0.0).value.lower.Some?
    ensures var band := GetVolatilityRange(frame, std, 0.0).value;
      var curr := frame[|frame| - 1].volatility;
      && band.lower == curr && band.upper == curr
      && forall i :: 0 <= i < |frame| ==>
           (i in KeptIndices(frame, band.lower, band.upper) <==> frame[i].volatility == curr)
  {
    var band := GetVolatilityRange(frame, std, 0.0).value;
    FilterKeepsExactlyInRangeRows(frame, band.lower, band.upper);
  }
}
