/** The row loader: reads the (period, person-months) cells of every input row,
    keeps the rows that name a parseable period and a non-zero number of
    person-months as projects, collects the months and years they touch, and
    finally sorts the projects by their number of months. */
module Loader {
  import opened Outcomes
  import opened Text
  import opened Dates
  import opened Period
  import opened Months
  import opened Records
  import opened Sorting

  // ---------------------------------------------------------------------
  // Cell coercions
  // ---------------------------------------------------------------------

  /** int() of a float: truncation toward zero. */
  function TruncateReal(x: real): (n: int)
    ensures x >= 0.0 ==> n as real <= x < n as real + 1.0
    ensures x < 0.0 ==> n as real - 1.0 < x <= n as real
  {
    if x >= 0.0 then x.Floor else -((-x).Floor)
  }

  /** `int(am_raw) if am_raw is not None else 0`, with ValueError and
      TypeError turned into 0. */
  function CoerceUnits(c: UnitsCell): (n: int)
    ensures c.NoUnits? || c.UnitsOther? ==> n == 0
    ensures c.UnitsNumber? ==> n == c.number
    ensures c.UnitsFlag? ==> (n == 1 <==> c.flag) && (n == 0 <==> !c.flag)
    ensures c.UnitsReal? ==> (c.value >= 0.0 ==> 0 <= n && n as real <= c.value < n as real + 1.0)
    ensures c.UnitsReal? ==> (c.value < 0.0 ==> n <= 0 && n as real - 1.0 < c.value <= n as real)
    ensures c.UnitsText? ==> (ParseInt(c.text).Some? ==> n == ParseInt(c.text).value)
    ensures c.UnitsText? ==> (ParseInt(c.text).None? ==> n == 0)
  {
    match c
    case NoUnits => 0
    case UnitsNumber(n) => n
    case UnitsFlag(b) => if b then 1 else 0
    case UnitsReal(x) => TruncateReal(x)
    case UnitsText(s) => (match ParseInt(s) case Some(n) => n case None => 0)
    case UnitsOther => 0
  }

  /** `not period`: None, the empty string, 0 and False. */
  predicate IsFalsy(c: PeriodCell) {
    c == NoPeriod || c == PeriodText("") || c == PeriodNumber(0) || c == PeriodFlag(false)
  }

  /** str(period). */
  function PeriodString(c: PeriodCell): string {
    match c
    case NoPeriod => "None"
    case PeriodText(t) => t
    case PeriodNumber(n) => IntToString(n)
    case PeriodFlag(b) => if b then "True" else "False"
  }

  // ---------------------------------------------------------------------
  // The reference: what each row contributes
  // ---------------------------------------------------------------------

  /** What the loop body does with one row: skip it, warn about its period,
      abort the whole run (the month step past December 9999, which is raised
      outside the try), or keep it with its units and months. */
  datatype RowOutcome =
    | Skipped
    | Rejected(error: DateError)
    | Overflow
    | Accepted(units: int, months: seq<YearMonth>)

  function Classify(row: Row, today: Date): (r: RowOutcome)
    requires ValidDate(today)
    ensures r == Skipped <==> IsFalsy(row.period) || CoerceUnits(row.units) == 0
    ensures r.Rejected? <==>
      !IsFalsy(row.period) && CoerceUnits(row.units) != 0 && ParsePeriod(PeriodString(row.period), today).Err?
    ensures r.Rejected? ==> ParsePeriod(PeriodString(row.period), today) == Err(r.error)
    ensures r == Overflow <==>
      var parsed := ParsePeriod(PeriodString(row.period), today);
      && !IsFalsy(row.period) && CoerceUnits(row.units) != 0
      && parsed.Ok? && RangeOverflows(parsed.value.0, parsed.value.1)
    ensures r == Overflow ==>
      var parsed := ParsePeriod(PeriodString(row.period), today);
      parsed.Ok? && MonthOf(parsed.value.1) == YearMonth(MAX_YEAR, 12)
    ensures r.Accepted? ==> r.units == CoerceUnits(row.units) && r.units != 0
    ensures r.Accepted? ==> forall m :: m in r.months ==> ValidMonth(m)
    ensures r.Accepted? ==>
      var parsed := ParsePeriod(PeriodString(row.period), today);
      parsed.Ok? && r.months == MonthSpan(MonthOf(parsed.value.0), MonthOf(parsed.value.1))
  {
    var units := CoerceUnits(row.units);
    if IsFalsy(row.period) || units == 0 then Skipped
    else
      match ParsePeriod(PeriodString(row.period), today)
      case Err(e) => Rejected(e)
      case Ok((start, end)) =>
        if RangeOverflows(start, end) then Overflow
        else
          MonthSpanValid(MonthOf(start), MonthOf(end));
          Accepted(units, MonthSpan(MonthOf(start), MonthOf(end)))
  }

  /** The state of the loader after some rows: the projects so far (in input
      order), the months they touch and the warnings so far. */
  datatype Scan = Scan(projects: seq<Project>, months: set<YearMonth>, warnings: seq<Warning>)

  /** Spreadsheet row number of the row at index i: the header is row 1. */
  function SheetRow(i: nat): nat {
    i + 2
  }

  /** The outcome of every row. */
  function ClassifyAll(rows: seq<Row>, today: Date): (outs: seq<RowOutcome>)
    requires ValidDate(today)
    ensures |outs| == |rows|
    ensures forall i :: 0 <= i < |rows| ==> outs[i] == Classify(rows[i], today)
  {
    seq(|rows|, i requires 0 <= i < |rows| => Classify(rows[i], today))
  }

  /** The rows read in order, given the outcome of each; Err(r) when row r
      aborts the run. */
  function ScanOutcomes(rows: seq<Row>, outs: seq<RowOutcome>): Result<Scan, nat>
    requires |outs| == |rows|
  {
    if rows == [] then Ok(Scan([], {}, []))
    else
      var i := |rows| - 1;
      Step(ScanOutcomes(rows[..i], outs[..i]), rows[i], outs[i], i)
  }

  /** What row i, with its outcome, does to the scan so far. */
  function Step(before: Result<Scan, nat>, row: Row, out: RowOutcome, i: nat): Result<Scan, nat> {
    match before
    case Err(r) => Err(r)
    case Ok(sc) =>
      match out
      case Skipped => Ok(sc)
      case Rejected(e) => Ok(sc.(warnings := sc.warnings + [Warning(SheetRow(i), e)]))
      case Overflow => Err(SheetRow(i))
      case Accepted(units, months) =>
        var p := Project(|sc.projects|, row.period, units, months, 0, units);
        Ok(Scan(sc.projects + [p], sc.months + (set m | m in months), sc.warnings))
  }

  /** Reading one more row is one more step. */
  lemma ScanStep(rows: seq<Row>, outs: seq<RowOutcome>, i: nat)
    requires |outs| == |rows| && i < |rows|
    ensures ScanOutcomes(rows[..i + 1], outs[..i + 1]) == Step(ScanOutcomes(rows[..i], outs[..i]), rows[i], outs[i], i)
  {
    assert rows[..i + 1][..i] == rows[..i] && outs[..i + 1][..i] == outs[..i];
  }

  /** The loader's loop over the rows, as a value. */
  function ScanRows(rows: seq<Row>, today: Date): Result<Scan, nat>
    requires ValidDate(today)
  {
    ScanOutcomes(rows, ClassifyAll(rows, today))
  }

  /** The number of rows kept as projects. */
  function AcceptedCount(outs: seq<RowOutcome>): nat {
    if outs == [] then 0
    else AcceptedCount(outs[..|outs| - 1]) + (if outs[|outs| - 1].Accepted? then 1 else 0)
  }

  function MonthCount(p: Project): nat {
    |p.months|
  }

  function YearsOf(months: set<YearMonth>): set<int> {
    set m | m in months :: m.year
  }

  /** The loader's result: the sorted projects, the months and years they
      touch and the warnings; or the spreadsheet row that aborted the run. */
  datatype LoadResult =
    | Loaded(projects: seq<Project>, months: set<YearMonth>, years: set<int>, warnings: seq<Warning>)
    | Aborted(row: nat)

  // ---------------------------------------------------------------------
  // The loader
  // ---------------------------------------------------------------------

  /** The loading loop and the sort that follows it. */
  method LoadProjects(rows: seq<Row>, today: Date) returns (out: LoadResult)
    requires ValidDate(today)
    ensures ScanRows(rows, today).Err? ==> out == Aborted(ScanRows(rows, today).error)
    ensures ScanRows(rows, today).Ok? ==>
      var sc := ScanRows(rows, today).value;
      && out.Loaded?
      && out.months == sc.months
      && out.years == YearsOf(sc.months)
      && out.warnings == sc.warnings
      && StablySorted(out.projects, sc.projects, MonthCount)
  {
    ghost var outs := ClassifyAll(rows, today);
    var data: seq<Project> := [];
    var allMonths: set<YearMonth> := {};
    var warnings: seq<Warning> := [];
    var projectCounter: nat := 0;
    for i := 0 to |rows|
      invariant ScanOutcomes(rows[..i], outs[..i]) == Ok(Scan(data, allMonths, warnings))
      invariant projectCounter == |data|
    {
      ScanStep(rows, outs, i);
      assert outs[i] == Classify(rows[i], today);
      var period := rows[i].period;
      var am := CoerceUnits(rows[i].units);
      if IsFalsy(period) || am == 0 {
        continue;
      }
      var parsed := ParsePeriod(PeriodString(period), today);
      if parsed.Err? {
        warnings := warnings + [Warning(SheetRow(i), parsed.error)];
        continue;
      }
      var (start, end) := parsed.value;
      var months := MonthRange(start, end);
      if months.None? {
        ScanAbortPersists(rows, outs, i + 1);
        return Aborted(SheetRow(i));
      }
      data := data + [Project(projectCounter, period, am, months.value, 0, am)];
      projectCounter := projectCounter + 1;
      allMonths := allMonths + (set m | m in months.value);
    }
    assert rows[..|rows|] == rows && outs[..|rows|] == outs;
    var years := YearsOf(allMonths);
    var sorted := SortByKey(data, MonthCount);
    return Loaded(sorted, allMonths, years, warnings);
  }

  // ---------------------------------------------------------------------
  // What the loader promises
  // ---------------------------------------------------------------------

  /** Empty, non-numeric and other non-integer unit cells count as 0, so their
      rows are skipped. */
  lemma NonNumericUnitsSkipped(row: Row, today: Date)
    requires ValidDate(today)
    requires row.units.NoUnits? || row.units.UnitsOther? || (row.units.UnitsText? && ParseInt(row.units.text).None?)
    ensures Classify(row, today) == Skipped
  {
  }

  /** Once a row aborts the run, the rows after it change nothing. */
  lemma {:induction false} ScanAbortPersists(rows: seq<Row>, outs: seq<RowOutcome>, n: nat)
    requires |outs| == |rows|
    requires n <= |rows| && ScanOutcomes(rows[..n], outs[..n]).Err?
    ensures ScanOutcomes(rows, outs) == ScanOutcomes(rows[..n], outs[..n])
    decreases |rows| - n
  {
    if n < |rows| {
      assert rows[..n + 1][..n] == rows[..n] && outs[..n + 1][..n] == outs[..n];
      ScanAbortPersists(rows, outs, n + 1);
    } else {
      assert rows[..n] == rows && outs[..n] == outs;
    }
  }

  /** The rows before the last one scan to a prefix of the whole scan. */
  lemma {:induction false} ScanPrefixOk(rows: seq<Row>, outs: seq<RowOutcome>)
    requires |outs| == |rows| && |rows| > 0
    requires ScanOutcomes(rows, outs).Ok?
    ensures var n := |rows| - 1;
      && ScanOutcomes(rows[..n], outs[..n]).Ok?
      && ScanOutcomes(rows[..n], outs[..n]).value.projects <= ScanOutcomes(rows, outs).value.projects
  {
    var n := |rows| - 1;
    if ScanOutcomes(rows[..n], outs[..n]).Err? {
      assert false;
    }
  }

  /** The project records: ids 0, 1, 2, ... in input order, nothing
      allocated yet, every requested unit unallocated, never zero units, and
      one project per kept row. */
  lemma {:induction false} ScanProjects(rows: seq<Row>, outs: seq<RowOutcome>)
    requires |outs| == |rows|
    requires forall i :: 0 <= i < |outs| && outs[i].Accepted? ==> outs[i].units != 0
    requires ScanOutcomes(rows, outs).Ok?
    ensures var ps := ScanOutcomes(rows, outs).value.projects;
      && |ps| == AcceptedCount(outs)
      && forall k :: 0 <= k < |ps| ==>
           ps[k].id == k && ps[k].allocatedAm == 0 && ps[k].unallocatedAm == ps[k].units && ps[k].units != 0
  {
    if rows != [] {
      var n := |rows| - 1;
      ScanPrefixOk(rows, outs);
      ScanProjects(rows[..n], outs[..n]);
    }
  }

  /** Every kept row becomes the project whose id is the number of rows kept
      before it, with the row's period cell, its units and its months. */
  lemma {:induction false} ScanRowToProject(rows: seq<Row>, outs: seq<RowOutcome>, i: nat)
    requires |outs| == |rows| && i < |rows|
    requires ScanOutcomes(rows, outs).Ok? && outs[i].Accepted?
    ensures var ps := ScanOutcomes(rows, outs).value.projects;
      var k := AcceptedCount(outs[..i]);
      k < |ps| && ps[k] == Project(k, rows[i].period, outs[i].units, outs[i].months, 0, outs[i].units)
    decreases |rows|
  {
    var n := |rows| - 1;
    ScanPrefixOk(rows, outs);
    ProjectCount(rows[..n], outs[..n]);
    if i < n {
      assert outs[..n][..i] == outs[..i];
      assert rows[..n][i] == rows[i] && outs[..n][i] == outs[i];
      ScanRowToProject(rows[..n], outs[..n], i);
    } else {
      assert outs[..i] == outs[..n];
    }
  }

  /** One project per kept row. */
  lemma {:induction false} ProjectCount(rows: seq<Row>, outs: seq<RowOutcome>)
    requires |outs| == |rows|
    requires ScanOutcomes(rows, outs).Ok?
    ensures |ScanOutcomes(rows, outs).value.projects| == AcceptedCount(outs)
  {
    if rows != [] {
      var n := |rows| - 1;
      ScanPrefixOk(rows, outs);
      ProjectCount(rows[..n], outs[..n]);
    }
  }

  /** Conversely, every project comes from a kept row. */
  lemma {:induction false} ScanProjectFromRow(rows: seq<Row>, outs: seq<RowOutcome>, k: nat)
    requires |outs| == |rows|
    requires ScanOutcomes(rows, outs).Ok? && k < |ScanOutcomes(rows, outs).value.projects|
    ensures var p := ScanOutcomes(rows, outs).value.projects[k];
      exists i :: 0 <= i < |rows| && rows[i].period == p.period && outs[i] == Accepted(p.units, p.months)
    decreases |rows|
  {
    var n := |rows| - 1;
    ScanPrefixOk(rows, outs);
    var before := ScanOutcomes(rows[..n], outs[..n]).value.projects;
    var p := ScanOutcomes(rows, outs).value.projects[k];
    if k < |before| {
      ScanProjectFromRow(rows[..n], outs[..n], k);
      var i :| 0 <= i < n && rows[..n][i].period == before[k].period &&
        outs[..n][i] == Accepted(before[k].units, before[k].months);
      assert rows[i] == rows[..n][i] && outs[i] == outs[..n][i];
    } else {
      assert rows[n].period == p.period && outs[n] == Accepted(p.units, p.months);
    }
  }

  /** The months collected are exactly the months of the projects. */
  lemma {:induction false} ScanMonths(rows: seq<Row>, outs: seq<RowOutcome>, m: YearMonth)
    requires |outs| == |rows|
    requires ScanOutcomes(rows, outs).Ok?
    ensures var sc := ScanOutcomes(rows, outs).value;
      m in sc.months <==> exists k :: 0 <= k < |sc.projects| && m in sc.projects[k].months
  {
    if rows != [] {
      var n := |rows| - 1;
      ScanPrefixOk(rows, outs);
      ScanMonths(rows[..n], outs[..n], m);
      var before := ScanOutcomes(rows[..n], outs[..n]).value;
      var sc := ScanOutcomes(rows, outs).value;
      if outs[n].Accepted? {
        assert sc.projects == before.projects + [sc.projects[|before.projects|]];
        if exists k :: 0 <= k < |sc.projects| && m in sc.projects[k].months {
          var k :| 0 <= k < |sc.projects| && m in sc.projects[k].months;
          if k < |before.projects| {
            assert sc.projects[k] == before.projects[k];
          }
        }
        if exists k :: 0 <= k < |before.projects| && m in before.projects[k].months {
          var k :| 0 <= k < |before.projects| && m in before.projects[k].months;
          assert sc.projects[k] == before.projects[k];
        }
      }
    }
  }

  /** The run aborts exactly when some row reaches the month step past
      December 9999, and then at the first such row: rows whose period does
      not parse never abort it. */
  lemma {:induction false} ScanAborts(rows: seq<Row>, outs: seq<RowOutcome>)
    requires |outs| == |rows|
    ensures ScanOutcomes(rows, outs).Err? <==> Overflow in outs
    ensures ScanOutcomes(rows, outs).Err? ==>
      exists i :: 0 <= i < |rows| && outs[i] == Overflow && Overflow !in outs[..i] &&
        ScanOutcomes(rows, outs).error == SheetRow(i)
  {
    if rows != [] {
      var n := |rows| - 1;
      ScanAborts(rows[..n], outs[..n]);
      assert outs == outs[..n] + [outs[n]];
      if ScanOutcomes(rows[..n], outs[..n]).Err? {
        var i :| 0 <= i < n && outs[..n][i] == Overflow && Overflow !in outs[..n][..i] &&
          ScanOutcomes(rows[..n], outs[..n]).error == SheetRow(i);
        assert outs[..n][..i] == outs[..i];
      } else if outs[n] == Overflow {
        assert outs[..n] == outs[..n];
      }
    }
  }

  /** There is no start <= end check: a period whose end month precedes its
      start month is kept, with no months at all. */
  lemma ReversedPeriodKept(row: Row, today: Date)
    requires ValidDate(today)
    ensures var units, parsed := CoerceUnits(row.units), ParsePeriod(PeriodString(row.period), today);
      (!IsFalsy(row.period) && units != 0 && parsed.Ok? && !MonthLe(MonthOf(parsed.value.0), MonthOf(parsed.value.1)))
      ==> Classify(row, today) == Accepted(units, [])
  {
    var parsed := ParsePeriod(PeriodString(row.period), today);
    if parsed.Ok? {
      MonthSpanLength(MonthOf(parsed.value.0), MonthOf(parsed.value.1));
    }
  }

  /** The warnings: row i (sheet row i + 2) is warned about with error e
      exactly when its period failed to parse with e. */
  lemma {:induction false} ScanWarnings(rows: seq<Row>, outs: seq<RowOutcome>, i: nat, e: DateError)
    requires |outs| == |rows| && i < |rows|
    requires ScanOutcomes(rows, outs).Ok?
    ensures Warning(SheetRow(i), e) in ScanOutcomes(rows, outs).value.warnings <==> outs[i] == Rejected(e)
    decreases |rows|
  {
    var n := |rows| - 1;
    ScanPrefixOk(rows, outs);
    ScanWarningRows(rows[..n], outs[..n]);
    var before := ScanOutcomes(rows[..n], outs[..n]).value.warnings;
    if i < n {
      ScanWarnings(rows[..n], outs[..n], i, e);
      assert outs[..n][i] == outs[i];
    } else {
      assert Warning(SheetRow(i), e) !in before;
    }
  }

  /** Warnings name only rows already read. */
  lemma {:induction false} ScanWarningRows(rows: seq<Row>, outs: seq<RowOutcome>)
    requires |outs| == |rows|
    requires ScanOutcomes(rows, outs).Ok?
    ensures forall w :: w in ScanOutcomes(rows, outs).value.warnings ==> 2 <= w.row < SheetRow(|rows|)
  {
    if rows != [] {
      var n := |rows| - 1;
      ScanPrefixOk(rows, outs);
      ScanWarningRows(rows[..n], outs[..n]);
    }
  }
}
