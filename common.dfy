/** Values shared by the statistics modules: pandas' missing value (NaN),
    the exceptions the code can raise, and pandas' elementwise range test. */
module Common {

  /** A cell of a pandas column: `None` stands for NaN. */
  datatype Option<T> = None | Some(value: T)

  /** The Python exceptions the modelled functions can raise. */
  datatype Error =
    | EmptySeries   // `series[-1]` on a column with no rows
    | ZeroDivision  // `len(...) / len(...)` on an empty column

  datatype Result<T> = Ok(value: T) | Err(error: Error)

  /** `(s >= a) & (s <= b)` for one cell: every comparison with NaN is false,
      whether the NaN is the cell or one of the bounds. */
  predicate InRange(v: Option<real>, a: Option<real>, b: Option<real>): (r: bool)
    ensures v.None? || a.None? || b.None? ==> !r
    ensures r ==> a.value <= b.value
  {
    v.Some? && a.Some? && b.Some? && a.value <= v.value <= b.value
  }

  /** Number of cells that are not NaN (pandas' `count()`). */
  function PresentCount(values: seq<Option<real>>): (n: nat)
    ensures n <= |values|
  {
    if |values| == 0 then 0
    else PresentCount(values[..|values| - 1]) + (if values[|values| - 1].Some? then 1 else 0)
  }

  /** The non-NaN cells, in their order (pandas' `dropna()`). */
  function Present(values: seq<Option<real>>): (r: seq<real>)
    ensures |r| == PresentCount(values)
  {
    if |values| == 0 then []
    else
      var init, last := values[..|values| - 1], values[|values| - 1];
      assert values == init + [last];
      Present(init) + (if last.Some? then [last.value] else [])
  }

  /** `dropna()` keeps every present cell exactly once: each value occurs in
      the result as often as cells holding it occur in the column. */
  lemma {:induction false} PresentMultiplicity(values: seq<Option<real>>)
    ensures forall x :: multiset(Present(values))[x] == multiset(values)[Some(x)]
  {
    if |values| > 0 {
      var init, last := values[..|values| - 1], values[|values| - 1];
      PresentMultiplicity(init);
      assert values == init + [last];
      assert Present(values) == Present(init) + (if last.Some? then [last.value] else []);
    }
  }

  /** The count is the size of the set of positions holding a value. */
  lemma {:induction false} PresentCountPositions(values: seq<Option<real>>)
    ensures PresentCount(values) == |set i | 0 <= i < |values| && values[i].Some?|
  {
    var n := |values|;
    var s := set i | 0 <= i < n && values[i].Some?;
    if n == 0 {
      assert s == {};
    } else {
      var init := values[..n - 1];
      PresentCountPositions(init);
      var s0 := set i | 0 <= i < n - 1 && init[i].Some?;
      assert forall i :: 0 <= i < n - 1 ==> init[i] == values[i];
      if values[n - 1].Some? {
        assert s == s0 + {n - 1};
      } else {
        assert s == s0;
      }
    }
  }

  /** A column with a NaN somewhere has fewer present cells than rows. */
  lemma {:induction false} MissingCellNotCounted(values: seq<Option<real>>, i: nat)
    requires i < |values| && values[i] == None
    ensures PresentCount(values) < |values|
  {
    if i < |values| - 1 {
      MissingCellNotCounted(values[..|values| - 1], i);
    }
  }
}
