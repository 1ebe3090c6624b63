/** month_range: the calendar months a period touches, from the start date's
    month to the end date's month inclusive. */
module Months {
  import opened Outcomes
  import opened Dates

  /** The n months that follow month index k, k included. */
  function MonthsFrom(k: int, n: nat): (r: seq<YearMonth>)
    ensures |r| == n
    ensures forall i :: 0 <= i < n ==> r[i] == MonthAt(k + i)
  {
    seq(n, i => MonthAt(k + i))
  }

  /** The reference enumeration: every month from s to e, in order; empty when
      e comes before s. */
  function MonthSpan(s: YearMonth, e: YearMonth): (r: seq<YearMonth>)
    ensures |r| > 0 <==> MonthIndex(s) <= MonthIndex(e)
    ensures |r| > 0 ==> |r| == MonthIndex(e) - MonthIndex(s) + 1
    ensures forall i :: 0 <= i < |r| ==> 1 <= r[i].month <= 12 && MonthIndex(s) <= MonthIndex(r[i]) <= MonthIndex(e)
    ensures forall i :: 0 <= i < |r| - 1 ==> MonthIndex(r[i + 1]) == MonthIndex(r[i]) + 1
  {
    var n := MonthIndex(e) - MonthIndex(s) + 1;
    MonthsFrom(MonthIndex(s), if n > 0 then n else 0)
  }

  /** The span has (12·ey + em) − (12·sy + sm) + 1 months, or none when the end
      month precedes the start month. */
  lemma MonthSpanLength(s: YearMonth, e: YearMonth)
    requires 1 <= s.month <= 12 && 1 <= e.month <= 12
    ensures MonthLe(s, e) ==> |MonthSpan(s, e)| == (12 * e.year + e.month) - (12 * s.year + s.month) + 1
    ensures !MonthLe(s, e) ==> MonthSpan(s, e) == []
  {
    MonthLeIndex(s, e);
  }

  /** The span starts at s, ends at e, and each month is followed by the next
      calendar month. */
  lemma MonthSpanConsecutive(s: YearMonth, e: YearMonth)
    requires 1 <= s.month <= 12 && 1 <= e.month <= 12
    ensures var r := MonthSpan(s, e);
      && (|r| > 0 ==> r[0] == s && r[|r| - 1] == e)
      && (forall i :: 0 <= i < |r| - 1 ==> r[i + 1] == NextMonth(r[i]))
  {
    var r := MonthSpan(s, e);
    MonthAtIndex(s);
    MonthAtIndex(e);
    forall i | 0 <= i < |r| - 1
      ensures r[i + 1] == NextMonth(r[i])
    {
      var next := NextMonth(r[i]);
      MonthAtIndex(next);
    }
  }

  /** The span is strictly increasing in the tuple order. */
  lemma MonthSpanIncreasing(s: YearMonth, e: YearMonth)
    ensures var r := MonthSpan(s, e);
      forall i, j :: 0 <= i < j < |r| ==> MonthLe(r[i], r[j]) && r[i] != r[j]
  {
    var r := MonthSpan(s, e);
    forall i, j | 0 <= i < j < |r|
      ensures MonthLe(r[i], r[j]) && r[i] != r[j]
    {
      MonthLeIndex(r[i], r[j]);
    }
  }

  /** A month is in the span exactly when it lies between s and e. */
  lemma MonthSpanMembers(s: YearMonth, e: YearMonth, x: YearMonth)
    requires 1 <= s.month <= 12 && 1 <= e.month <= 12
    ensures x in MonthSpan(s, e) <==> 1 <= x.month <= 12 && MonthLe(s, x) && MonthLe(x, e)
  {
    var r := MonthSpan(s, e);
    if x in r {
      var i :| 0 <= i < |r| && r[i] == x;
      MonthLeIndex(s, x);
      MonthLeIndex(x, e);
    }
    if 1 <= x.month <= 12 && MonthLe(s, x) && MonthLe(x, e) {
      MonthLeIndex(s, x);
      MonthLeIndex(x, e);
      MonthAtIndex(x);
      assert r[MonthIndex(x) - MonthIndex(s)] == x;
    }
  }

  /** The months of a span of valid dates are valid months. */
  lemma MonthSpanValid(s: YearMonth, e: YearMonth)
    requires ValidMonth(s) && ValidMonth(e)
    ensures forall x :: x in MonthSpan(s, e) ==> ValidMonth(x)
  {
    forall x | x in MonthSpan(s, e)
      ensures ValidMonth(x)
    {
      MonthSpanMembers(s, e, x);
    }
  }

  /** The step from December 9999 leaves the datetime range; month_range
      reaches it exactly when the end month is December 9999 and is not before
      the start month. */
  predicate RangeOverflows(start: Date, end: Date) {
    MonthLe(MonthOf(start), MonthOf(end)) && MonthOf(end) == YearMonth(MAX_YEAR, 12)
  }

  /** month_range(start, end): walks from the first of the start month to the
      first of the end month, one relativedelta(months=1) at a time. None is
      the ValueError of the step past December 9999. */
  method MonthRange(start: Date, end: Date) returns (out: Option<seq<YearMonth>>)
    requires ValidDate(start) && ValidDate(end)
    ensures out.None? <==> RangeOverflows(start, end)
    ensures out.Some? ==> out.value == MonthSpan(MonthOf(start), MonthOf(end))
  {
    var first := MonthOf(start);
    var last := MonthOf(end);
    var current := first;
    var acc: seq<YearMonth> := [];
    MonthLeIndex(first, last);
    MonthAtIndex(first);
    while MonthLe(current, last)
      invariant 1 <= current.month <= 12 && current.year <= MAX_YEAR
      invariant MonthIndex(first) <= MonthIndex(current)
      invariant MonthIndex(first) <= MonthIndex(last) ==> MonthIndex(current) <= MonthIndex(last) + 1
      invariant acc == MonthsFrom(MonthIndex(first), MonthIndex(current) - MonthIndex(first))
      invariant MonthLe(current, last) ==> MonthLe(first, last)
      invariant MonthIndex(last) < MonthIndex(first) ==> current == first
      decreases MonthIndex(last) - MonthIndex(current)
    {
      MonthLeIndex(current, last);
      MonthAtIndex(current);
      acc := acc + [current];
      if current == YearMonth(MAX_YEAR, 12) {
        return None;
      }
      current := NextMonth(current);
    }
    MonthLeIndex(current, last);
    return Some(acc);
  }
}
