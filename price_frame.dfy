/** The weekly data frame built by `get_data`: the volatility column, taken
    as given, next to the weekly percent change of the adjusted close. */
module PriceFrame {
  import opened Common

  /** One weekly row, reduced to the two derived columns the statistics read. */
  datatype Row = Row(volatility: Option<real>, weeklyChange: Option<real>)

  /** The `Volatility` column of a frame. */
  function Volatilities(frame: seq<Row>): (col: seq<Option<real>>)
  {
    seq(|frame|, i requires 0 <= i < |frame| => frame[i].volatility)
  }

  /** The `weekly_change` column of a frame. */
  function WeeklyChanges(frame: seq<Row>): (col: seq<Option<real>>)
  {
    seq(|frame|, i requires 0 <= i < |frame| => frame[i].weeklyChange)
  }

  /** `prices.pct_change() * 100`: the first week has no previous price and
      is NaN; a zero previous price is also taken as NaN. */
  function PctChange(prices: seq<real>): (r: seq<Option<real>>)
    ensures |r| == |prices|
    ensures |r| > 0 ==> r[0] == None
    ensures forall i :: 1 <= i < |prices| ==> (r[i].Some? <==> prices[i - 1] != 0.0)
  {
    seq(|prices|, i requires 0 <= i < |prices| =>
      if i == 0 || prices[i - 1] == 0.0 then None
      else Some((prices[i] / prices[i - 1] - 1.0) * 100.0))
  }

  /** The price reached from `price` after a change of `pct` percent: the
      weekly change from `price` to it is `pct` again, and from a positive
      price it is higher exactly when `pct` is positive. */
  function ApplyChange(price: real, pct: real): (r: real)
    ensures price != 0.0 ==> (r / price - 1.0) * 100.0 == pct
    ensures price > 0.0 ==> (r > price <==> pct > 0.0)
  {
    var m := (100.0 + pct) / 100.0;
    var r := price * (100.0 + pct) / 100.0;
    assert r == price * m;
    assert price != 0.0 ==> r / price == m;
    assert r - price == price * (m - 1.0);
    r
  }

  /** The price path that starts at `first` and moves by each percent change in turn. */
  function Compound(first: real, pcts: seq<real>): (path: seq<real>)
    ensures |path| == |pcts| + 1 && path[0] == first
  {
    if |pcts| == 0 then [first]
    else
      var prev := Compound(first, pcts[..|pcts| - 1]);
      prev + [ApplyChange(prev[|prev| - 1], pcts[|pcts| - 1])]
  }

  /** `get_data` after the download: the frame pairs the given volatility of
      each week with the week's percent change of the adjusted close. */
  function GetData(prices: seq<real>, volatility: seq<Option<real>>): (frame: seq<Row>)
    requires |volatility| == |prices|
    ensures |frame| == |prices|
    ensures Volatilities(frame) == volatility
    ensures WeeklyChanges(frame) == PctChange(prices)
  {
    var changes := PctChange(prices);
    seq(|prices|, i requires 0 <= i < |prices| => Row(volatility[i], changes[i]))
  }

  /** A weekly change undoes itself: moving the previous price by it gives the current price. */
  lemma ChangeRoundTrip(prices: seq<real>, i: nat)
    requires 1 <= i < |prices| && prices[i - 1] != 0.0
    ensures PctChange(prices)[i].Some?
    ensures ApplyChange(prices[i - 1], PctChange(prices)[i].value) == prices[i]
  {
    var a, b := prices[i - 1], prices[i];
    var c := (b / a - 1.0) * 100.0;
    assert 100.0 + c == 100.0 * (b / a);
    assert a * (b / a) == b;
  }

  /** For a positive previous price the change is positive exactly when the
      price rose, and zero exactly when it stayed put. */
  lemma WeeklyChangeSign(prices: seq<real>, i: nat)
    requires 1 <= i < |prices| && prices[i - 1] > 0.0
    ensures PctChange(prices)[i].Some?
    ensures PctChange(prices)[i].value > 0.0 <==> prices[i] > prices[i - 1]
    ensures PctChange(prices)[i].value == 0.0 <==> prices[i] == prices[i - 1]
  {
    var a, b := prices[i - 1], prices[i];
    assert b / a > 1.0 <==> b > a;
    assert b / a == 1.0 <==> b == a;
  }

  /** Taking a prefix of the prices takes the same prefix of their changes. */
  lemma PctChangePrefix(prices: seq<real>, n: nat)
    requires n <= |prices|
    ensures PctChange(prices[..n]) == PctChange(prices)[..n]
  {
  }

  /** The non-missing changes of a longer series are those of its prefix
      followed by the change of the last week. */
  lemma PresentChangesStep(prices: seq<real>)
    requires |prices| > 1 && prices[|prices| - 2] != 0.0
    ensures Present(PctChange(prices))
         == Present(PctChange(prices[..|prices| - 1])) + [PctChange(prices)[|prices| - 1].value]
  {
    var n := |prices|;
    var c := PctChange(prices);
    PctChangePrefix(prices, n - 1);
    assert c[..n - 1] == PctChange(prices[..n - 1]);
  }

  /** Compounding one more change extends the path by one price. */
  lemma CompoundAppend(first: real, pcts: seq<real>, pct: real)
    ensures var path := Compound(first, pcts);
      Compound(first, pcts + [pct]) == path + [ApplyChange(path[|path| - 1], pct)]
  {
    assert (pcts + [pct])[..|pcts|] == pcts;
  }

  /** If compounding `pcts` gives `path`, one more change gives `path`
      followed by the moved last price. */
  lemma CompoundStep(first: real, pcts: seq<real>, pct: real, path: seq<real>, next: real)
    requires Compound(first, pcts) == path
    requires ApplyChange(path[|path| - 1], pct) == next
    ensures Compound(first, pcts + [pct]) == path + [next]
  {
    CompoundAppend(first, pcts, pct);
  }

  /** One step of the inversion: if compounding rebuilds all prices but the
      last, compounding one more change rebuilds the last as well. */
  lemma CompoundInvertsStep(prices: seq<real>)
    requires |prices| > 1 && prices[|prices| - 2] != 0.0
    requires Compound(prices[0], Present(PctChange(prices[..|prices| - 1]))) == prices[..|prices| - 1]
    ensures Compound(prices[0], Present(PctChange(prices))) == prices
  {
    var n := |prices|;
    var init := prices[..n - 1];
    assert prices == init + [prices[n - 1]];
    var changes := Present(PctChange(init));
    var pct := PctChange(prices)[n - 1].value;
    assert Present(PctChange(prices)) == changes + [pct] by {
      PresentChangesStep(prices);
    }
    assert ApplyChange(init[n - 2], pct) == prices[n - 1] by {
      ChangeRoundTrip(prices, n - 1);
    }
    CompoundStep(prices[0], changes, pct, init, prices[n - 1]);
  }

  /** The weekly-change series loses nothing: compounding its non-missing
      values from the first price rebuilds the whole price series, when no
      price but possibly the last is zero. */
  lemma {:induction false} CompoundInvertsPctChange(prices: seq<real>)
    requires |prices| > 0
    requires forall i :: 0 <= i < |prices| - 1 ==> prices[i] != 0.0
    ensures Compound(prices[0], Present(PctChange(prices))) == prices
  {
    var n := |prices|;
    if n == 1 {
      var c := PctChange(prices);
      assert c == [None];
      assert Present(c) == Present(c[..0]) + [];
    } else {
      var init := prices[..n - 1];
      CompoundInvertsPctChange(init);
      assert init[0] == prices[0];
      CompoundInvertsStep(prices);
    }
  }
}
