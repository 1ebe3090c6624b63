/** The yearly totals row with its highlighting and overages, and the
    allocation summary: one line per year in ascending order, then either the
    projects with unallocated person-months or the success message. */
module Report {
  import opened Records
  import opened Allocation

  // ---------------------------------------------------------------------
  // The yearly totals row
  // ---------------------------------------------------------------------

  /** The fill of a year's total cell: red at or above the capacity, green
      below it when something was allocated, none otherwise. */
  datatype TotalFill = RedFill | GreenFill | NoFill

  function FillFor(total: int, cap: int): (f: TotalFill)
    ensures f == RedFill <==> total >= cap
    ensures f == GreenFill <==> 0 < total < cap
    ensures f == NoFill <==> total <= 0 && total < cap
  {
    if total >= cap then RedFill else if total > 0 then GreenFill else NoFill
  }

  /** The reference for yearly_overages: the years whose total is above the
      capacity, with the excess. */
  function Overages(years: set<int>, totals: map<int, int>, cap: int): (o: map<int, int>)
    ensures forall y :: y in o <==> y in years && y in totals && totals[y] > cap
    ensures forall y :: y in o ==> o[y] == totals[y] - cap && o[y] > 0
  {
    map y | y in years && y in totals && totals[y] > cap :: totals[y] - cap
  }

  /** The fills of the totals row: every year with a total gets the fill its
      total calls for. */
  predicate FillsFor(fills: map<int, TotalFill>, years: set<int>, totals: map<int, int>, cap: int) {
    && fills.Keys == years * totals.Keys
    && forall y :: y in fills ==> y in totals && fills[y] == FillFor(totals[y], cap)
  }

  /** The loop over the years: each year with a total gets its cell fill, and
      its overage when the total is above the capacity. */
  method YearTotals(years: set<int>, totals: map<int, int>, cap: int)
    returns (fills: map<int, TotalFill>, overages: map<int, int>)
    ensures FillsFor(fills, years, totals, cap)
    ensures overages == Overages(years, totals, cap)
  {
    fills, overages := map[], map[];
    var remaining := years;
    while remaining != {}
      invariant remaining <= years
      invariant fills.Keys == (years - remaining) * totals.Keys
      invariant forall y :: y in fills ==> fills[y] == FillFor(totals[y], cap)
      invariant forall y :: y in overages <==> y in years && y !in remaining && y in totals && totals[y] > cap
      invariant forall y :: y in overages ==> overages[y] == totals[y] - cap
      decreases remaining
    {
      Inhabited(remaining);
      var y :| y in remaining;
      remaining := remaining - {y};
      if y in totals {
        var total := totals[y];
        if total >= cap {
          fills := fills[y := RedFill];
          if total > cap {
            overages := overages[y := total - cap];
          }
        } else if total > 0 {
          fills := fills[y := GreenFill];
        } else {
          fills := fills[y := NoFill];
        }
      }
    }
    var expected := Overages(years, totals, cap);
    forall y
      ensures y in overages <==> y in expected
    {
    }
    assert overages.Keys == expected.Keys;
    assert forall y :: y in overages ==> overages[y] == expected[y];
    assert fills.Keys == years * totals.Keys;
  }

  /** Since a month is only claimed below the capacity, the allocation never
      overshoots it: the overage map is always empty. */
  lemma NoOverages(l: Ledger, years: set<int>, cap: int)
    requires Consistent(l, cap)
    ensures Overages(years, l.totals, cap) == map[]
  {
    var o := Overages(years, l.totals, cap);
    forall y
      ensures y !in o
    {
      if y in l.totals {
        assert l.totals[y] <= cap;
      }
    }
    assert o.Keys == {};
  }

  // ---------------------------------------------------------------------
  // The summary
  // ---------------------------------------------------------------------

  /** The bracketed status after a year's total. */
  datatype Status = NoStatus | AtCapacity | OverCapacity(excess: int)

  /** A year carries a status exactly when its total reaches the capacity or
      it has an overage; a recorded overage wins over "capacity reached". */
  function StatusFor(year: int, total: int, overages: map<int, int>, cap: int): (s: Status)
    ensures s != NoStatus <==> total >= cap || year in overages
    ensures s.OverCapacity? <==> year in overages
    ensures s.OverCapacity? ==> s.excess == overages[year]
  {
    if year in overages then OverCapacity(overages[year])
    else if total >= cap then AtCapacity
    else NoStatus
  }

  /** With the overages of the same totals, a year is over the capacity
      exactly when its total exceeds it, at the capacity exactly when the
      total reaches it without exceeding it, and plain otherwise. */
  lemma StatusMeaning(years: set<int>, totals: map<int, int>, cap: int, y: int)
    requires y in years && y in totals
    ensures var s := StatusFor(y, totals[y], Overages(years, totals, cap), cap);
      && (s.OverCapacity? <==> totals[y] > cap)
      && (s.OverCapacity? ==> s.excess == totals[y] - cap)
      && (s == AtCapacity <==> totals[y] == cap)
      && (s == NoStatus <==> totals[y] < cap)
  {
  }

  /** One line of the yearly totals. */
  datatype YearLine = YearLine(year: int, total: int, status: Status)

  predicate Ascending(lines: seq<YearLine>) {
    forall i, j :: 0 <= i < j < |lines| ==> lines[i].year < lines[j].year
  }

  /** The years the lines show. */
  function Listed(lines: seq<YearLine>): set<int> {
    set i | 0 <= i < |lines| :: lines[i].year
  }

  /** The summary lines: every year with a total exactly once, in ascending
      order, with its total and status. */
  predicate LinesFor(lines: seq<YearLine>, totals: map<int, int>, overages: map<int, int>, cap: int) {
    && Ascending(lines)
    && Listed(lines) == totals.Keys
    && forall i :: 0 <= i < |lines| ==>
         lines[i].year in totals && lines[i].total == totals[lines[i].year]
         && lines[i].status == StatusFor(lines[i].year, lines[i].total, overages, cap)
  }

  /** The loop over sorted(yearly_am_totals.items()). */
  method YearLines(totals: map<int, int>, overages: map<int, int>, cap: int) returns (lines: seq<YearLine>)
    ensures LinesFor(lines, totals, overages, cap)
  {
    var years := SortedYears(totals.Keys);
    lines := [];
    for k := 0 to |years|
      invariant |lines| == k
      invariant forall i :: 0 <= i < k ==>
        lines[i] == YearLine(years[i], totals[years[i]], StatusFor(years[i], totals[years[i]], overages, cap))
    {
      var y := years[k];
      lines := lines + [YearLine(y, totals[y], StatusFor(y, totals[y], overages, cap))];
    }
    assert forall i :: 0 <= i < |lines| ==> lines[i].year == years[i];
    assert Listed(lines) == totals.Keys by {
      forall y | y in totals
        ensures y in Listed(lines)
      {
        var i :| 0 <= i < |years| && years[i] == y;
        assert lines[i].year == y;
      }
    }
  }

  predicate Increasing(s: seq<int>) {
    forall i, j :: 0 <= i < j < |s| ==> s[i] < s[j]
  }

  /** sorted() of a set of years. */
  method SortedYears(s: set<int>) returns (ys: seq<int>)
    ensures Increasing(ys)
    ensures forall y :: y in ys <==> y in s
    ensures forall i :: 0 <= i < |ys| ==> ys[i] in s
  {
    ys := [];
    var remaining := s;
    while remaining != {}
      invariant remaining <= s
      invariant forall y :: y in s <==> y in ys || y in remaining
      invariant Increasing(ys)
      invariant |ys| > 0 ==> forall y :: y in remaining ==> ys[|ys| - 1] < y
      decreases remaining
    {
      var y := Least(remaining);
      ys := ys + [y];
      remaining := remaining - {y};
    }
  }

  /** The smallest element of a non-empty finite set of years. */
  method Least(s: set<int>) returns (m: int)
    requires s != {}
    ensures m in s && forall y :: y in s ==> m <= y
  {
    Inhabited(s);
    m :| m in s;
    var rest := s - {m};
    while rest != {}
      invariant rest <= s && m in s
      invariant forall y :: y in s && y !in rest ==> m <= y
      decreases rest
    {
      Inhabited(rest);
      var y :| y in rest;
      if y < m {
        m := y;
      }
      rest := rest - {y};
    }
  }

  lemma Inhabited(s: set<int>)
    requires s != {}
    ensures exists y :: y in s
  {
    if forall y :: y !in s {
      assert false;
    }
  }

  /** The closing part of the summary: the success message, or the list of
      projects with unallocated person-months. */
  datatype Outcome = AllAllocated | Unallocated(entries: seq<Shortfall>)

  function Conclude(shortfalls: seq<Shortfall>): (o: Outcome)
    ensures o == AllAllocated <==> |shortfalls| == 0
    ensures o.Unallocated? ==> o.entries == shortfalls
  {
    if |shortfalls| > 0 then Unallocated(shortfalls) else AllAllocated
  }

  /** The success message is printed exactly when every project got all its
      person-months, that is, no project has a positive unallocated count. */
  lemma {:induction false} AllAllocatedIff(projects: seq<Project>, years: set<int>, cap: nat)
    ensures var r := AllocateAll(projects, years, cap);
      Conclude(r.shortfalls) == AllAllocated <==> forall q :: q in r.projects ==> q.unallocatedAm <= 0
  {
    var r := AllocateAll(projects, years, cap);
    AllocateAllProperties(projects, years, cap);
    if Conclude(r.shortfalls) == AllAllocated {
      assert ProjectsOf(r.shortfalls) == [];
    } else {
      var q := r.shortfalls[0].project;
      assert q == ProjectsOf(r.shortfalls)[0];
      assert q in ShortOf(r.projects);
    }
  }
}
