/** The whole run of the allocator on the extracted input rows: load and sort
    the projects, allocate greedily under MAX_YEARLY_CAPACITY, then compute
    the yearly totals row and the summary. */
module Planner {
  import opened Outcomes
  import opened Dates
  import opened Records
  import opened Sorting
  import opened Loader
  import opened Allocation
  import opened Report

  /** What a run produces: the processed projects, the parse warnings, the
      ledger, the yearly fills and overages, the yearly summary lines and the
      closing outcome; or the spreadsheet row at which the run aborted. */
  datatype Plan =
    | Planned(
        projects: seq<Project>,
        warnings: seq<Warning>,
        totals: map<int, int>,
        owners: map<YearMonth, Option<nat>>,
        fills: map<int, TotalFill>,
        overages: map<int, int>,
        lines: seq<YearLine>,
        outcome: Outcome)
    | Failed(row: nat)


  /** What the summary relies on about the allocation: every yearly total
      lies between 0 and the capacity, so there is no overage; the counters
      of every project add up; and the outcome is the success message exactly
      when no project is short. */
  lemma RunFacts(projects: seq<Project>, years: set<int>, cap: nat)
    ensures var r := AllocateAll(projects, years, cap);
      && r.ledger.totals.Keys == years
      && (forall y :: y in r.ledger.totals ==> 0 <= r.ledger.totals[y] <= cap)
      && Overages(years, r.ledger.totals, cap) == map[]
      && (forall q :: q in r.projects ==> q.allocatedAm + q.unallocatedAm == q.units)
      && (Conclude(r.shortfalls) == AllAllocated <==> forall q :: q in r.projects ==> q.unallocatedAm <= 0)
  {
    var r := AllocateAll(projects, years, cap);
    AllocateAllProperties(projects, years, cap);
    AllAllocatedIff(projects, years, cap);
    NoOverages(r.ledger, years, cap);
    forall q | q in r.projects
      ensures q.allocatedAm + q.unallocatedAm == q.units
    {
      var i :| 0 <= i < |r.projects| && r.projects[i] == q;
      assert Counted(r.projects[i]);
    }
  }

  /** The run: a row whose months reach past December 9999 aborts it;
      otherwise the allocation and the report follow. */
  method PlanAllocation(rows: seq<Row>, today: Date) returns (out: Plan)
    requires ValidDate(today)
    ensures ScanRows(rows, today).Err? <==> out.Failed?
    ensures out.Failed? ==> out.row == ScanRows(rows, today).error
    ensures out.Planned? ==> Sound(out)
    ensures out.Planned? ==>
      var sc := ScanRows(rows, today).value;
      exists sorted :: StablySorted(sorted, sc.projects, MonthCount) && Reports(out, sorted, YearsOf(sc.months), sc.warnings)
  {
    var loaded := LoadProjects(rows, today);
    if loaded.Aborted? {
      return Failed(loaded.row);
    }
    out := AllocateAndReport(loaded.projects, loaded.years, loaded.warnings);
  }

  /** The plan is the one the program computes for these projects: the
      allocation under MAX_YEARLY_CAPACITY, its totals row, overages and
      summary lines, and the closing outcome of its unallocated list. */
  ghost predicate Reports(out: Plan, projects: seq<Project>, years: set<int>, warnings: seq<Warning>)
    requires out.Planned?
  {
    var cap := MAX_YEARLY_CAPACITY;
    var r := AllocateAll(projects, years, cap);
    && out.projects == r.projects
    && out.warnings == warnings
    && out.totals == r.ledger.totals
    && out.owners == r.ledger.owner
    && FillsFor(out.fills, years, out.totals, cap)
    && out.overages == Overages(years, out.totals, cap)
    && LinesFor(out.lines, out.totals, out.overages, cap)
    && out.outcome == Conclude(r.shortfalls)
  }

  /** What every completed run shows: no year ends above the capacity, so the
      overage map is empty and no summary line says "over capacity"; the
      summary lists every year with a total; the counters of every project
      add up; and the success message is shown exactly when every project got
      all its person-months. */
  predicate Sound(out: Plan)
    requires out.Planned?
  {
    && out.overages == map[]
    && (forall y :: y in out.totals ==> 0 <= out.totals[y] <= MAX_YEARLY_CAPACITY)
    && Listed(out.lines) == out.totals.Keys
    && (forall i :: 0 <= i < |out.lines| ==> !out.lines[i].status.OverCapacity?)
    && (out.outcome == AllAllocated <==> forall q :: q in out.projects ==> q.unallocatedAm <= 0)
    && (forall q :: q in out.projects ==> q.allocatedAm + q.unallocatedAm == q.units)
  }

  /** The allocation under MAX_YEARLY_CAPACITY, the yearly totals row and the
      summary, for the loaded projects. */
  method AllocateAndReport(projects: seq<Project>, years: set<int>, warnings: seq<Warning>) returns (out: Plan)
    ensures out.Planned? && Sound(out)
    ensures Reports(out, projects, years, warnings)
    ensures out.totals.Keys == years
  {
    var cap := MAX_YEARLY_CAPACITY;
    var yearlyTotals, monthStatus, data, unallocatedProjects := Allocate(projects, years, cap);
    RunFacts(projects, years, cap);
    var fills, overages := YearTotals(years, yearlyTotals, cap);
    var lines := YearLines(yearlyTotals, overages, cap);
    var outcome := Conclude(unallocatedProjects);
    return Planned(data, warnings, yearlyTotals, monthStatus, fills, overages, lines, outcome);
  }
}
