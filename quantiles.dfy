/** pandas' `Series.quantile(q)` with its default linear interpolation: the
    NaN cells are dropped, the rest are sorted, and the value at rank
    `q * (n - 1)` is interpolated between the two order statistics around it. */
module Quantiles {
  import opened Common

  predicate Sorted(s: seq<real>)
  {
    forall i, j :: 0 <= i < j < |s| ==> s[i] <= s[j]
  }

  /** `x` put before the first element of `s` that is not smaller. */
  function Insert(x: real, s: seq<real>): (r: seq<real>)
    ensures |r| == |s| + 1
  {
    if |s| == 0 then [x]
    else if x <= s[0] then [x] + s
    else [s[0]] + Insert(x, s[1..])
  }

  /** The values in ascending order, by insertion sort. */
  function SortAsc(s: seq<real>): (r: seq<real>)
    ensures |r| == |s|
  {
    if |s| == 0 then [] else Insert(s[0], SortAsc(s[1..]))
  }

  /** Inserting adds exactly `x` to the multiset of values. */
  lemma {:induction false} InsertPermutes(x: real, s: seq<real>)
    ensures multiset(Insert(x, s)) == multiset(s) + multiset{x}
  {
    if |s| > 0 {
      assert s == [s[0]] + s[1..];
      if x > s[0] {
        InsertPermutes(x, s[1..]);
      }
    }
  }

  /** Inserting into a sorted sequence keeps it sorted. */
  lemma {:induction false} InsertSorted(x: real, s: seq<real>)
    requires Sorted(s)
    ensures Sorted(Insert(x, s))
  {
    if |s| > 0 {
      if x > s[0] {
        var tail := s[1..];
        var rest := Insert(x, tail);
        InsertSorted(x, tail);
        InsertPermutes(x, tail);
        forall y | y in rest
          ensures s[0] <= y
        {
          assert y in multiset(rest);
          assert y == x || y in tail;
        }
        LeastThenSorted(s[0], rest);
      } else {
        LeastThenSorted(x, s);
      }
    }
  }

  /** A sorted sequence stays sorted under a new first element no larger than its elements. */
  lemma LeastThenSorted(a: real, s: seq<real>)
    requires Sorted(s) && forall y :: y in s ==> a <= y
    ensures Sorted([a] + s)
  {
    var r := [a] + s;
    forall i, j | 0 <= i < j < |r|
      ensures r[i] <= r[j]
    {
      if i == 0 {
        assert r[j] == s[j - 1] && s[j - 1] in s;
      } else {
        assert r[i] == s[i - 1] && r[j] == s[j - 1];
      }
    }
  }

  /** The sort returns its input, rearranged into ascending order. */
  lemma {:induction false} SortAscSorts(s: seq<real>)
    ensures Sorted(SortAsc(s))
    ensures multiset(SortAsc(s)) == multiset(s)
  {
    if |s| > 0 {
      SortAscSorts(s[1..]);
      InsertSorted(s[0], SortAsc(s[1..]));
      InsertPermutes(s[0], SortAsc(s[1..]));
      assert s == [s[0]] + s[1..];
    }
  }

  /** The rank `q * (n - 1)` of a quantile lies between the first and the last position. */
  lemma RankInRange(q: real, n: nat)
    requires 0.0 <= q <= 1.0 && n > 0
    ensures 0.0 <= q * (n - 1) as real <= (n - 1) as real
  {
    assert (1.0 - q) * (n - 1) as real >= 0.0;
  }

  /** The point at fraction `t` of the way from `a` to `b`. */
  function Lerp(a: real, b: real, t: real): (r: real)
  {
    a + t * (b - a)
  }

  /** Between two ordered values, interpolation stays between them and moves
      forward as the fraction grows. */
  lemma LerpOrdered(a: real, b: real, t1: real, t2: real)
    requires a <= b && 0.0 <= t1 <= t2 <= 1.0
    ensures a <= Lerp(a, b, t1) <= Lerp(a, b, t2) <= b
  {
    var d := b - a;
    assert t1 * d >= 0.0;
    assert (t2 - t1) * d >= 0.0;
    assert (1.0 - t2) * d >= 0.0;
  }

  /** The position of the order statistic just below the rank `q * (n - 1)`. */
  function LowerPosition(n: nat, q: real): (i: nat)
    requires n > 0 && 0.0 <= q <= 1.0
    ensures i < n
    ensures i as real <= q * (n - 1) as real < i as real + 1.0
  {
    RankInRange(q, n);
    var h := q * (n - 1) as real;
    assert h.Floor as real <= h < h.Floor as real + 1.0;
    assert h.Floor as real <= (n - 1) as real;
    h.Floor
  }

  /** Linear interpolation at fraction `q` over the sorted, non-empty `xs`. */
  function Interpolate(xs: seq<real>, q: real): (r: real)
    requires |xs| > 0 && 0.0 <= q <= 1.0
    ensures var i := LowerPosition(|xs|, q);
      i as real == q * (|xs| - 1) as real ==> r == xs[i]
  {
    var h := q * (|xs| - 1) as real;
    var i := LowerPosition(|xs|, q);
    if i + 1 < |xs| then Lerp(xs[i], xs[i + 1], h - i as real) else xs[i]
  }

  /** The interpolated value lies between the order statistic at the floor of
      the rank and the next one; at the last position it is that statistic. */
  lemma InterpolateBetween(xs: seq<real>, q: real)
    requires |xs| > 0 && 0.0 <= q <= 1.0 && Sorted(xs)
    ensures var i := LowerPosition(|xs|, q);
      && xs[i] <= Interpolate(xs, q)
      && (i + 1 < |xs| ==> Interpolate(xs, q) <= xs[i + 1])
      && (i + 1 == |xs| ==> Interpolate(xs, q) == xs[i])
  {
    var h := q * (|xs| - 1) as real;
    var i := LowerPosition(|xs|, q);
    if i + 1 < |xs| {
      LerpOrdered(xs[i], xs[i + 1], h - i as real, h - i as real);
    }
  }

  /** Over sorted values the interpolated quantile never decreases as `q` grows. */
  lemma InterpolateMonotone(xs: seq<real>, q1: real, q2: real)
    requires |xs| > 0 && 0.0 <= q1 <= q2 <= 1.0 && Sorted(xs)
    ensures Interpolate(xs, q1) <= Interpolate(xs, q2)
  {
    var m := (|xs| - 1) as real;
    var h1, h2 := q1 * m, q2 * m;
    assert h2 - h1 == (q2 - q1) * m;
    assert (q2 - q1) * m >= 0.0;
    var i1, i2 := LowerPosition(|xs|, q1), LowerPosition(|xs|, q2);
    assert i1 <= i2;
    InterpolateBetween(xs, q1);
    InterpolateBetween(xs, q2);
    if i1 == i2 {
      if i1 + 1 < |xs| {
        LerpOrdered(xs[i1], xs[i1 + 1], h1 - i1 as real, h2 - i1 as real);
      }
    } else {
      assert xs[i1 + 1] <= xs[i2];
    }
  }

  /** Between two consecutive order statistics the interpolation is linear in
      `q`: moving `q` within one segment moves the result by the change in
      rank times the gap between the two statistics. */
  lemma InterpolateAffineOnSegment(xs: seq<real>, q1: real, q2: real)
    requires |xs| > 0 && 0.0 <= q1 <= 1.0 && 0.0 <= q2 <= 1.0
    requires LowerPosition(|xs|, q1) == LowerPosition(|xs|, q2)
    requires LowerPosition(|xs|, q1) + 1 < |xs|
    ensures var i := LowerPosition(|xs|, q1);
      Interpolate(xs, q2) - Interpolate(xs, q1) == (q2 - q1) * (|xs| - 1) as real * (xs[i + 1] - xs[i])
  {
  }

  /** Halfway between two values the interpolation is their mean, where the
      lower-value method would give the first. */
  lemma InterpolateMidpointExample()
    ensures Interpolate([1.0, 3.0], 0.5) == 2.0
  {
  }

  /** The interpolated quantile at 0 is the smallest value and at 1 the largest. */
  lemma InterpolateEnds(xs: seq<real>)
    requires |xs| > 0 && Sorted(xs)
    ensures Interpolate(xs, 0.0) == xs[0]
    ensures Interpolate(xs, 1.0) == xs[|xs| - 1]
  {
  }

  /** `Series.quantile(q)`: NaN (None) when no cell is present, otherwise the
      interpolated quantile of the present cells in ascending order. */
  function Quantile(values: seq<Option<real>>, q: real): (r: Option<real>)
    requires 0.0 <= q <= 1.0
    ensures r.Some? <==> PresentCount(values) > 0
  {
    if PresentCount(values) == 0 then None
    else Some(Interpolate(SortAsc(Present(values)), q))
  }

  /** The sample a quantile interpolates over holds each present cell once:
      a value occurs in it as often as cells holding it occur in the column. */
  lemma SortedSampleCounts(values: seq<Option<real>>)
    ensures forall x :: multiset(SortAsc(Present(values)))[x] == multiset(values)[Some(x)]
  {
    SortAscSorts(Present(values));
    PresentMultiplicity(values);
  }

  /** The median of the cells 3, NaN, 1 and 4 drops the NaN, sorts the rest
      to 1, 3, 4 and takes the middle one; their first quartile lies halfway
      between 1 and 3. */
  lemma QuantileExample()
    ensures Quantile([Some(3.0), None, Some(1.0), Some(4.0)], 0.5) == Some(3.0)
    ensures Quantile([Some(3.0), None, Some(1.0), Some(4.0)], 0.25) == Some(2.0)
  {
    var v := [Some(3.0), None, Some(1.0), Some(4.0)];
    var v1, v2, v3 := [Some(3.0)], [Some(3.0), None], [Some(3.0), None, Some(1.0)];
    assert v1[..0] == [];
    assert Present(v1) == [3.0];
    assert v2[..1] == v1;
    assert Present(v2) == [3.0];
    assert v3[..2] == v2;
    assert Present(v3) == [3.0, 1.0];
    assert v[..3] == v3;
    assert Present(v) == [3.0, 1.0, 4.0];
    var s := [3.0, 1.0, 4.0];
    assert s[1..] == [1.0, 4.0] && s[1..][1..] == [4.0];
    assert SortAsc(s) == [1.0, 3.0, 4.0];
  }

  /** A quantile lies between the smallest and the largest present value. */
  lemma QuantileWithinObservations(values: seq<Option<real>>, q: real)
    requires 0.0 <= q <= 1.0 && PresentCount(values) > 0
    ensures forall v :: Some(v) in values ==> Quantile(values, 0.0).value <= v <= Quantile(values, 1.0).value
    ensures Some(Quantile(values, 0.0).value) in values && Some(Quantile(values, 1.0).value) in values
    ensures Quantile(values, 0.0).value <= Quantile(values, q).value <= Quantile(values, 1.0).value
  {
    var xs := SortAsc(Present(values));
    SortAscSorts(Present(values));
    SortedSampleCounts(values);
    InterpolateEnds(xs);
    InterpolateMonotone(xs, 0.0, q);
    InterpolateMonotone(xs, q, 1.0);
    assert xs[0] in multiset(xs) && xs[|xs| - 1] in multiset(xs);
    assert Some(xs[0]) in multiset(values) && Some(xs[|xs| - 1]) in multiset(values);
    forall v | Some(v) in values
      ensures xs[0] <= v <= xs[|xs| - 1]
    {
      assert Some(v) in multiset(values);
      assert v in multiset(xs);
      var k :| 0 <= k < |xs| && xs[k] == v;
    }
  }

  /** A quantile never decreases as `q` grows. */
  lemma QuantileMonotone(values: seq<Option<real>>, q1: real, q2: real)
    requires 0.0 <= q1 <= q2 <= 1.0
    ensures Quantile(values, q1).Some? <==> Quantile(values, q2).Some?
    ensures Quantile(values, q1).Some? ==> Quantile(values, q1).value <= Quantile(values, q2).value
  {
    if PresentCount(values) > 0 {
      SortAscSorts(Present(values));
      InterpolateMonotone(SortAsc(Present(values)), q1, q2);
    }
  }
}
