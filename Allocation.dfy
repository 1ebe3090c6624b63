/** The greedy allocation: one pass over the sorted projects, and for each
    project over its months in order, claiming a free month slot for the
    project while the slot's year is below the yearly capacity. */
module Allocation {
  import opened Outcomes
  import opened Dates
  import opened Records

  /** The script's MAX_YEARLY_CAPACITY. */
  const MAX_YEARLY_CAPACITY: nat := 11

  /** Why a month of a project was not allocated: "Year {y} capacity
      reached" or "Month {m}/{y} already allocated by Project {id}". */
  datatype Reason =
    | CapacityReached(year: int)
    | AlreadyAllocated(month: YearMonth, holder: nat)

  /** The two maps the loop updates: yearly_am_totals (person-months per
      year) and month_allocation_status (the project owning each month slot,
      if any). */
  datatype Ledger = Ledger(totals: map<int, int>, owner: map<YearMonth, Option<nat>>)

  /** A project's counters and reasons while its months are visited. */
  datatype Progress = Progress(allocatedCount: int, unallocatedCount: int, reasons: seq<Reason>)

  /** An entry of unallocated_projects: the project with its final counters,
      and its reasons. */
  datatype Shortfall = Shortfall(project: Project, reasons: seq<Reason>)

  /** The allocator's final state: the ledger, the projects with their
      counters filled in, and the unallocated-projects list. */
  datatype Run = Run(ledger: Ledger, projects: seq<Project>, shortfalls: seq<Shortfall>)

  // ---------------------------------------------------------------------
  // The initial ledger
  // ---------------------------------------------------------------------

  /** Zero for every year; no owner for any of the twelve months of every
      year. */
  function InitialLedger(years: set<int>): (l: Ledger)
    ensures l.totals.Keys == years && forall y :: y in years ==> l.totals[y] == 0
    ensures forall ym :: ym in l.owner <==> ym.year in years && 1 <= ym.month <= 12
    ensures forall ym :: ym in l.owner ==> l.owner[ym] == None
  {
    Ledger(map y | y in years :: 0, map y, m | y in years && 1 <= m <= 12 :: YearMonth(y, m) := None)
  }

  /** Every month slot belongs to a year with a total. */
  ghost predicate Grid(l: Ledger) {
    forall ym :: ym in l.owner ==> ym.year in l.totals
  }

  /** The owned month slots of year y. */
  ghost function Owned(l: Ledger, y: int): set<YearMonth> {
    set ym | ym in l.owner && ym.year == y && l.owner[ym].Some?
  }

  /** The ledger invariant: each year's total is the number of its owned
      month slots, and never above the capacity. */
  ghost predicate Consistent(l: Ledger, cap: int) {
    && Grid(l)
    && forall y :: y in l.totals ==> l.totals[y] == |Owned(l, y)| && l.totals[y] <= cap
  }

  lemma InitialConsistent(years: set<int>, cap: nat)
    ensures Consistent(InitialLedger(years), cap)
  {
    var l := InitialLedger(years);
    forall y | y in l.totals
      ensures Owned(l, y) == {}
    {
    }
  }

  // ---------------------------------------------------------------------
  // The reference: one month, one project, all projects
  // ---------------------------------------------------------------------

  /** Adds a reason unless it is already there: a list without duplicates
      stays without duplicates. */
  function Note(reasons: seq<Reason>, r: Reason): (out: seq<Reason>)
    ensures r in out && multiset(reasons) <= multiset(out)
    ensures forall x :: x in out ==> x in reasons || x == r
    ensures r in reasons ==> out == reasons
    ensures Distinct(reasons) ==> Distinct(out)
  {
    if r in reasons then reasons else reasons + [r]
  }

  /** The body of the month loop for one month slot ym of project id: the
      capacity check comes first, then the ownership check, then the claim. */
  function Visit(l: Ledger, id: nat, ym: YearMonth, cap: int, p: Progress): (r: (Ledger, Progress))
    requires Grid(l)
    ensures r.0.owner.Keys == l.owner.Keys && r.0.totals.Keys == l.totals.Keys
    ensures r.1.allocatedCount + r.1.unallocatedCount == p.allocatedCount + p.unallocatedCount
    ensures r.0 == l || (
      && ym in l.owner && l.owner[ym] == None && l.totals[ym.year] < cap
      && r.0 == Ledger(l.totals[ym.year := l.totals[ym.year] + 1], l.owner[ym := Some(id)])
      && r.1.allocatedCount == p.allocatedCount + 1)
  {
    if ym !in l.owner then (l, p)
    else if l.totals[ym.year] >= cap then (l, p.(reasons := Note(p.reasons, CapacityReached(ym.year))))
    else if l.owner[ym].Some? then (l, p.(reasons := Note(p.reasons, AlreadyAllocated(ym, l.owner[ym].value))))
    else
      var l' := Ledger(l.totals[ym.year := l.totals[ym.year] + 1], l.owner[ym := Some(id)]);
      (l', Progress(p.allocatedCount + 1, p.unallocatedCount - 1, p.reasons))
  }

  /** The three outcomes of one month's step, in the order the checks are
      made: a month of a full year records the full year even when the month
      is owned; a month of a year below the capacity records its owner when
      it is owned, and is otherwise claimed; a month outside the grid changes
      nothing. Only a claim changes the ledger or the counters. */
  lemma VisitCases(l: Ledger, id: nat, ym: YearMonth, cap: int, p: Progress)
    requires Grid(l)
    ensures var r := Visit(l, id, ym, cap, p);
      && (r.0 == l ==> r.1.allocatedCount == p.allocatedCount && r.1.unallocatedCount == p.unallocatedCount)
      && (ym !in l.owner ==> r == (l, p))
      && (ym in l.owner && l.totals[ym.year] >= cap ==>
            r.0 == l && r.1.reasons == Note(p.reasons, CapacityReached(ym.year)))
      && (ym in l.owner && l.totals[ym.year] < cap && l.owner[ym].Some? ==>
            r.0 == l && r.1.reasons == Note(p.reasons, AlreadyAllocated(ym, l.owner[ym].value)))
      && (ym in l.owner && l.owner[ym] == None && l.totals[ym.year] < cap ==>
            && r.0 == Ledger(l.totals[ym.year := l.totals[ym.year] + 1], l.owner[ym := Some(id)])
            && r.1 == Progress(p.allocatedCount + 1, p.unallocatedCount - 1, p.reasons))
  {
  }

  /** The month loop of one project, stopping once `units` months are
      allocated. */
  function Fill(l: Ledger, id: nat, units: int, months: seq<YearMonth>, cap: int, p: Progress): (r: (Ledger, Progress))
    requires Grid(l)
    ensures r.0.owner.Keys == l.owner.Keys && r.0.totals.Keys == l.totals.Keys
    decreases |months|
  {
    if months == [] || p.allocatedCount >= units then (l, p)
    else
      var next := Visit(l, id, months[0], cap, p);
      Fill(next.0, id, units, months[1..], cap, next.1)
  }

  /** The projects loop: each project starts with nothing allocated and all
      its units unallocated; it gets its counters, and joins the shortfalls
      when some units stay unallocated. */
  function AllocateFrom(l: Ledger, projects: seq<Project>, cap: int, done: seq<Project>, short: seq<Shortfall>): (r: Run)
    requires Grid(l)
    ensures r.ledger.owner.Keys == l.owner.Keys && r.ledger.totals.Keys == l.totals.Keys
    decreases |projects|
  {
    if projects == [] then Run(l, done, short)
    else
      var p := projects[0];
      var filled := Fill(l, p.id, p.units, p.months, cap, Progress(0, p.units, []));
      var q := p.(allocatedAm := filled.1.allocatedCount, unallocatedAm := filled.1.unallocatedCount);
      var short' := if q.unallocatedAm > 0 then short + [Shortfall(q, filled.1.reasons)] else short;
      AllocateFrom(filled.0, projects[1..], cap, done + [q], short')
  }

  /** The whole allocation from the initial ledger of the given years. */
  function AllocateAll(projects: seq<Project>, years: set<int>, cap: int): Run {
    AllocateFrom(InitialLedger(years), projects, cap, [], [])
  }

  // ---------------------------------------------------------------------
  // What one project's month loop does to the ledger and to its counters
  // ---------------------------------------------------------------------

  /** l2 grows from l: the same slots and years, an owned slot keeps its
      owner, and no yearly total goes down. */
  ghost predicate Extends(l: Ledger, l2: Ledger) {
    && l2.owner.Keys == l.owner.Keys && l2.totals.Keys == l.totals.Keys
    && (forall x :: x in l.owner && l.owner[x].Some? ==> l2.owner[x] == l.owner[x])
    && (forall y :: y in l.totals ==> l.totals[y] <= l2.totals[y])
  }

  lemma ExtendsTransitive(l1: Ledger, l2: Ledger, l3: Ledger)
    requires Extends(l1, l2) && Extends(l2, l3)
    ensures Extends(l1, l3)
  {
  }

  /** The only slots whose owner changes are free slots among `months`, and
      they go to project id. */
  ghost predicate ClaimsOnly(l: Ledger, l2: Ledger, id: nat, months: seq<YearMonth>) {
    forall x :: x in l.owner && x in l2.owner && l2.owner[x] != l.owner[x] ==>
      l.owner[x] == None && l2.owner[x] == Some(id) && x in months
  }

  /** The month loop only claims free slots of its own months for its own
      project, never takes a slot back, and never lowers a total. */
  lemma {:induction false} FillLedger(l: Ledger, id: nat, units: int, months: seq<YearMonth>, cap: int, p: Progress)
    requires Grid(l)
    ensures Extends(l, Fill(l, id, units, months, cap, p).0)
    ensures ClaimsOnly(l, Fill(l, id, units, months, cap, p).0, id, months)
    decreases |months|
  {
    if months != [] && p.allocatedCount < units {
      var next := Visit(l, id, months[0], cap, p);
      FillLedger(next.0, id, units, months[1..], cap, next.1);
      var r := Fill(next.0, id, units, months[1..], cap, next.1).0;
      ExtendsTransitive(l, next.0, r);
      forall x | x in l.owner && x in r.owner && r.owner[x] != l.owner[x]
        ensures l.owner[x] == None && r.owner[x] == Some(id) && x in months
      {
        if next.0.owner[x] == l.owner[x] {
          assert x in months[1..];
        }
      }
    }
  }

  /** The counters: allocated plus unallocated stays the same; the allocated
      count grows by at most one per month, and never past the requested
      units once it starts at or below them. */
  lemma {:induction false} FillCounts(l: Ledger, id: nat, units: int, months: seq<YearMonth>, cap: int, p: Progress)
    requires Grid(l)
    ensures var q := Fill(l, id, units, months, cap, p).1;
      && q.allocatedCount + q.unallocatedCount == p.allocatedCount + p.unallocatedCount
      && p.allocatedCount <= q.allocatedCount <= p.allocatedCount + |months|
      && (p.allocatedCount <= units ==> q.allocatedCount <= units)
      && (p.allocatedCount >= units ==> q == p)
    decreases |months|
  {
    if months != [] && p.allocatedCount < units {
      var next := Visit(l, id, months[0], cap, p);
      FillCounts(next.0, id, units, months[1..], cap, next.1);
    }
  }

  /** Visiting a month keeps the ledger invariant: a slot is claimed only
      below the capacity, and then its year's total and its owned slots both
      grow by one. */
  lemma VisitConsistent(l: Ledger, id: nat, ym: YearMonth, cap: int, p: Progress)
    requires Consistent(l, cap)
    ensures Consistent(Visit(l, id, ym, cap, p).0, cap)
  {
    if ym in l.owner && l.totals[ym.year] < cap && l.owner[ym].None? {
      var l2 := Visit(l, id, ym, cap, p).0;
      forall y | y in l2.totals
        ensures l2.totals[y] == |Owned(l2, y)| && l2.totals[y] <= cap
      {
        if y == ym.year {
          assert Owned(l2, y) == Owned(l, y) + {ym};
        } else {
          assert Owned(l2, y) == Owned(l, y);
        }
      }
    }
  }

  lemma {:induction false} FillConsistent(l: Ledger, id: nat, units: int, months: seq<YearMonth>, cap: int, p: Progress)
    requires Consistent(l, cap)
    ensures Consistent(Fill(l, id, units, months, cap, p).0, cap)
    decreases |months|
  {
    if months != [] && p.allocatedCount < units {
      var next := Visit(l, id, months[0], cap, p);
      VisitConsistent(l, id, months[0], cap, p);
      FillConsistent(next.0, id, units, months[1..], cap, next.1);
    }
  }

  /** Slot x cannot take another person-month: it is owned, or its year is
      at the capacity. Slots outside the grid are never allocated. */
  ghost predicate Blocked(l: Ledger, x: YearMonth, cap: int) {
    x in l.owner ==> l.owner[x].Some? || (x.year in l.totals && l.totals[x.year] >= cap)
  }

  /** A project ends short only when every month of its period was blocked:
      the greedy loop leaves no free slot below the capacity unused. */
  lemma {:induction false} FillShortfall(l: Ledger, id: nat, units: int, months: seq<YearMonth>, cap: int, p: Progress)
    requires Grid(l)
    ensures var r := Fill(l, id, units, months, cap, p);
      r.1.allocatedCount < units ==> forall x :: x in months ==> Blocked(r.0, x, cap)
    decreases |months|
  {
    if months != [] && p.allocatedCount < units {
      var next := Visit(l, id, months[0], cap, p);
      var r := Fill(next.0, id, units, months[1..], cap, next.1);
      FillShortfall(next.0, id, units, months[1..], cap, next.1);
      FillLedger(next.0, id, units, months[1..], cap, next.1);
      assert Blocked(next.0, months[0], cap);
      forall x | x in months && r.1.allocatedCount < units
        ensures Blocked(r.0, x, cap)
      {
        if x != months[0] {
          assert x in months[1..];
        }
      }
    }
  }

  /** A reason is backed by the ledger: "capacity reached" names a year of
      the period whose total is at the capacity, "already allocated" names a
      month of the period and the project that owns it. */
  ghost predicate Justified(z: Reason, l: Ledger, months: seq<YearMonth>, cap: int) {
    match z
    case CapacityReached(y) => y in l.totals && l.totals[y] >= cap && exists x :: x in months && x.year == y
    case AlreadyAllocated(ym, h) => ym in months && ym in l.owner && l.owner[ym] == Some(h)
  }

  lemma JustifiedExtends(z: Reason, l: Ledger, l2: Ledger, months: seq<YearMonth>, more: seq<YearMonth>, cap: int)
    requires Justified(z, l, months, cap) && Extends(l, l2)
    requires forall x :: x in months ==> x in more
    ensures Justified(z, l2, more, cap)
  {
  }

  /** No two equal elements. */
  predicate Distinct<T(==)>(s: seq<T>) {
    forall i, j :: 0 <= i < j < |s| ==> s[i] != s[j]
  }

  /** The reasons of a project have no duplicates, and each new one is
      justified by the ledger the loop ends with. */
  lemma {:induction false} FillReasons(l: Ledger, id: nat, units: int, months: seq<YearMonth>, cap: int, p: Progress)
    requires Grid(l)
    ensures var r := Fill(l, id, units, months, cap, p);
      && (Distinct(p.reasons) ==> Distinct(r.1.reasons))
      && forall z :: z in r.1.reasons ==> z in p.reasons || Justified(z, r.0, months, cap)
    decreases |months|
  {
    if months != [] && p.allocatedCount < units {
      var ym := months[0];
      var next := Visit(l, id, ym, cap, p);
      var r := Fill(next.0, id, units, months[1..], cap, next.1);
      FillReasons(next.0, id, units, months[1..], cap, next.1);
      FillLedger(next.0, id, units, months[1..], cap, next.1);
      forall z | z in r.1.reasons && z !in p.reasons
        ensures Justified(z, r.0, months, cap)
      {
        if z in next.1.reasons {
          assert Justified(z, next.0, [ym], cap);
          JustifiedExtends(z, next.0, r.0, [ym], months, cap);
        } else {
          JustifiedExtends(z, r.0, r.0, months[1..], months, cap);
        }
      }
    }
  }

  /** Month x of a project's period is accounted for by the ledger l and
      the reasons: it lies outside the grid, or the project itself took it,
      or a reason names its full year or its owner. */
  ghost predicate Explained(x: YearMonth, id: nat, l: Ledger, reasons: seq<Reason>) {
    x in l.owner ==>
      || l.owner[x] == Some(id)
      || CapacityReached(x.year) in reasons
      || (l.owner[x].Some? && AlreadyAllocated(x, l.owner[x].value) in reasons)
  }

  /** The reasons are complete: no reason is ever dropped, and when the
      project ends short every month of its period that lies in the grid was
      either taken by the project or skipped with a reason naming why. */
  lemma {:induction false} FillExplained(l: Ledger, id: nat, units: int, months: seq<YearMonth>, cap: int, p: Progress)
    requires Grid(l)
    ensures var r := Fill(l, id, units, months, cap, p);
      && (forall z :: z in p.reasons ==> z in r.1.reasons)
      && (r.1.allocatedCount < units ==> forall x :: x in months ==> Explained(x, id, r.0, r.1.reasons))
    decreases |months|
  {
    if months != [] && p.allocatedCount < units {
      var next := Visit(l, id, months[0], cap, p);
      FillExplained(next.0, id, units, months[1..], cap, next.1);
      FillLedger(next.0, id, units, months[1..], cap, next.1);
      var r := Fill(next.0, id, units, months[1..], cap, next.1);
      forall x | x in months && r.1.allocatedCount < units
        ensures Explained(x, id, r.0, r.1.reasons)
      {
        if x != months[0] {
          assert x in months[1..];
        }
      }
    }
  }

  // ---------------------------------------------------------------------
  // What the projects loop produces
  // ---------------------------------------------------------------------

  /** q is p with only its two counters changed. */
  predicate SameRequest(q: Project, p: Project) {
    q.id == p.id && q.period == p.period && q.units == p.units && q.months == p.months
  }

  /** The counters of a processed project: they add up to the requested
      units; at most one person-month per month of the period; never more
      than requested, and nothing at all for a negative request. */
  predicate Counted(q: Project) {
    && q.allocatedAm + q.unallocatedAm == q.units
    && 0 <= q.allocatedAm <= |q.months|
    && (q.units >= 0 ==> q.allocatedAm <= q.units)
    && (q.units < 0 ==> q.allocatedAm == 0)
  }

  /** The projects left with unallocated person-months, in order. */
  function ShortOf(ps: seq<Project>): (r: seq<Project>)
    ensures forall q :: q in r <==> q in ps && q.unallocatedAm > 0
  {
    if ps == [] then []
    else
      var last := ps[|ps| - 1];
      ShortOf(ps[..|ps| - 1]) + (if last.unallocatedAm > 0 then [last] else [])
  }

  /** The project of each shortfall entry. */
  function ProjectsOf(sh: seq<Shortfall>): (r: seq<Project>)
    ensures |r| == |sh| && forall i :: 0 <= i < |sh| ==> r[i] == sh[i].project
  {
    seq(|sh|, i requires 0 <= i < |sh| => sh[i].project)
  }

  /** A shortfall entry the ledger accounts for: units stayed unallocated,
      every month of the period is blocked, the reasons are distinct and
      justified, and every month of the period the project did not take is
      named by a reason. */
  ghost predicate Backed(s: Shortfall, l: Ledger, cap: int) {
    && s.project.unallocatedAm > 0
    && (forall x :: x in s.project.months ==> Blocked(l, x, cap))
    && Distinct(s.reasons)
    && (forall z :: z in s.reasons ==> Justified(z, l, s.project.months, cap))
    && (forall x :: x in s.project.months ==> Explained(x, s.project.id, l, s.reasons))
  }

  lemma BackedExtends(s: Shortfall, l: Ledger, l2: Ledger, cap: int)
    requires Backed(s, l, cap) && Extends(l, l2)
    ensures Backed(s, l2, cap)
  {
    forall z | z in s.reasons
      ensures Justified(z, l2, s.project.months, cap)
    {
      JustifiedExtends(z, l, l2, s.project.months, s.project.months, cap);
    }
  }

  /** Every slot that changes owner goes from free to one of the projects
      whose period contains that month. */
  ghost predicate ClaimedBy(l: Ledger, l2: Ledger, projects: seq<Project>) {
    forall x :: x in l.owner && x in l2.owner && l2.owner[x] != l.owner[x] ==>
      l.owner[x] == None &&
      exists k :: 0 <= k < |projects| && l2.owner[x] == Some(projects[k].id) && x in projects[k].months
  }

  /** The ledger only grows over the projects loop, and every claim is made by
      a project for a month of its period. */
  lemma {:induction false} AllocateFromLedger(l: Ledger, projects: seq<Project>, cap: int, done: seq<Project>, short: seq<Shortfall>)
    requires Grid(l)
    ensures Extends(l, AllocateFrom(l, projects, cap, done, short).ledger)
    ensures ClaimedBy(l, AllocateFrom(l, projects, cap, done, short).ledger, projects)
    decreases |projects|
  {
    if projects != [] {
      var p := projects[0];
      var filled := Fill(l, p.id, p.units, p.months, cap, Progress(0, p.units, []));
      var q := p.(allocatedAm := filled.1.allocatedCount, unallocatedAm := filled.1.unallocatedCount);
      var short' := if q.unallocatedAm > 0 then short + [Shortfall(q, filled.1.reasons)] else short;
      FillLedger(l, p.id, p.units, p.months, cap, Progress(0, p.units, []));
      AllocateFromLedger(filled.0, projects[1..], cap, done + [q], short');
      var r := AllocateFrom(filled.0, projects[1..], cap, done + [q], short').ledger;
      ExtendsTransitive(l, filled.0, r);
      forall x | x in l.owner && x in r.owner && r.owner[x] != l.owner[x]
        ensures l.owner[x] == None
        ensures exists k :: 0 <= k < |projects| && r.owner[x] == Some(projects[k].id) && x in projects[k].months
      {
        if filled.0.owner[x] != l.owner[x] {
          assert r.owner[x] == Some(projects[0].id) && x in projects[0].months;
        } else {
          var k :| 0 <= k < |projects[1..]| && r.owner[x] == Some(projects[1..][k].id) && x in projects[1..][k].months;
          assert projects[1..][k] == projects[k + 1];
        }
      }
    }
  }

  /** The projects loop keeps the ledger invariant. */
  lemma {:induction false} AllocateFromConsistent(l: Ledger, projects: seq<Project>, cap: int, done: seq<Project>, short: seq<Shortfall>)
    requires Consistent(l, cap)
    ensures Consistent(AllocateFrom(l, projects, cap, done, short).ledger, cap)
    decreases |projects|
  {
    if projects != [] {
      var p := projects[0];
      var filled := Fill(l, p.id, p.units, p.months, cap, Progress(0, p.units, []));
      var q := p.(allocatedAm := filled.1.allocatedCount, unallocatedAm := filled.1.unallocatedCount);
      var short' := if q.unallocatedAm > 0 then short + [Shortfall(q, filled.1.reasons)] else short;
      FillConsistent(l, p.id, p.units, p.months, cap, Progress(0, p.units, []));
      AllocateFromConsistent(filled.0, projects[1..], cap, done + [q], short');
    }
  }

  /** r is done followed by the projects, each with its request unchanged
      and its counters filled in. */
  predicate ProcessedFrom(r: seq<Project>, done: seq<Project>, projects: seq<Project>) {
    && |r| == |done| + |projects| && r[..|done|] == done
    && forall i :: 0 <= i < |projects| ==> SameRequest(r[|done| + i], projects[i]) && Counted(r[|done| + i])
  }

  /** Each input project comes out once, in input order, with its request
      unchanged and its counters filled in. */
  lemma {:induction false} AllocateFromProjects(l: Ledger, projects: seq<Project>, cap: int, done: seq<Project>, short: seq<Shortfall>)
    requires Grid(l)
    ensures ProcessedFrom(AllocateFrom(l, projects, cap, done, short).projects, done, projects)
    decreases |projects|
  {
    if projects != [] {
      var p := projects[0];
      var filled := Fill(l, p.id, p.units, p.months, cap, Progress(0, p.units, []));
      var q := p.(allocatedAm := filled.1.allocatedCount, unallocatedAm := filled.1.unallocatedCount);
      var short' := if q.unallocatedAm > 0 then short + [Shortfall(q, filled.1.reasons)] else short;
      FillCounts(l, p.id, p.units, p.months, cap, Progress(0, p.units, []));
      assert Counted(q);
      var rest, done' := projects[1..], done + [q];
      AllocateFromProjects(filled.0, rest, cap, done', short');
      AllocateFromStep(l, projects, cap, done, short);
      ProcessedAppend(AllocateFrom(filled.0, rest, cap, done', short').projects, done, q, projects);
    }
  }

  /** One more project of the projects loop. */
  lemma AllocateFromStep(l: Ledger, projects: seq<Project>, cap: int, done: seq<Project>, short: seq<Shortfall>)
    requires Grid(l) && projects != []
    ensures var p := projects[0];
      var filled := Fill(l, p.id, p.units, p.months, cap, Progress(0, p.units, []));
      var q := p.(allocatedAm := filled.1.allocatedCount, unallocatedAm := filled.1.unallocatedCount);
      var short' := if q.unallocatedAm > 0 then short + [Shortfall(q, filled.1.reasons)] else short;
      AllocateFrom(l, projects, cap, done, short) == AllocateFrom(filled.0, projects[1..], cap, done + [q], short')
  {
  }

  /** The processed list after the first project, in terms of the rest. */
  lemma ProcessedAppend(r: seq<Project>, done: seq<Project>, q: Project, projects: seq<Project>)
    requires projects != [] && SameRequest(q, projects[0]) && Counted(q)
    requires ProcessedFrom(r, done + [q], projects[1..])
    ensures ProcessedFrom(r, done, projects)
  {
    var rest, done' := projects[1..], done + [q];
    assert r[..|done|] == (done + [q])[..|done|] == done;
    forall i | 0 <= i < |projects|
      ensures SameRequest(r[|done| + i], projects[i]) && Counted(r[|done| + i])
    {
      if i == 0 {
        assert r[|done|] == (done + [q])[|done|];
      } else {
        assert rest[i - 1] == projects[i];
        assert |done'| + (i - 1) == |done| + i;
      }
    }
  }

  /** The shortfall list is exactly the processed projects with unallocated
      person-months, in the same order. */
  lemma {:induction false} AllocateFromShortfalls(l: Ledger, projects: seq<Project>, cap: int, done: seq<Project>, short: seq<Shortfall>)
    requires Grid(l)
    requires ProjectsOf(short) == ShortOf(done)
    ensures var r := AllocateFrom(l, projects, cap, done, short);
      ProjectsOf(r.shortfalls) == ShortOf(r.projects)
    decreases |projects|
  {
    if projects != [] {
      var p := projects[0];
      var filled := Fill(l, p.id, p.units, p.months, cap, Progress(0, p.units, []));
      var q := p.(allocatedAm := filled.1.allocatedCount, unallocatedAm := filled.1.unallocatedCount);
      var short' := if q.unallocatedAm > 0 then short + [Shortfall(q, filled.1.reasons)] else short;
      assert (done + [q])[..|done|] == done;
      assert ShortOf(done + [q]) == ShortOf(done) + (if q.unallocatedAm > 0 then [q] else []);
      assert ProjectsOf(short') == ShortOf(done + [q]);
      AllocateFromShortfalls(filled.0, projects[1..], cap, done + [q], short');
    }
  }

  /** Every entry of the shortfall list is backed by the final ledger. */
  lemma {:induction false} AllocateFromBacked(l: Ledger, projects: seq<Project>, cap: int, done: seq<Project>, short: seq<Shortfall>)
    requires Grid(l)
    requires forall s :: s in short ==> Backed(s, l, cap)
    ensures var r := AllocateFrom(l, projects, cap, done, short);
      forall s :: s in r.shortfalls ==> Backed(s, r.ledger, cap)
    decreases |projects|
  {
    if projects != [] {
      var p := projects[0];
      var start := Progress(0, p.units, []);
      var filled := Fill(l, p.id, p.units, p.months, cap, start);
      var q := p.(allocatedAm := filled.1.allocatedCount, unallocatedAm := filled.1.unallocatedCount);
      var short' := if q.unallocatedAm > 0 then short + [Shortfall(q, filled.1.reasons)] else short;
      FillLedger(l, p.id, p.units, p.months, cap, start);
      FillCounts(l, p.id, p.units, p.months, cap, start);
      FillShortfall(l, p.id, p.units, p.months, cap, start);
      FillReasons(l, p.id, p.units, p.months, cap, start);
      FillExplained(l, p.id, p.units, p.months, cap, start);
      assert Distinct(filled.1.reasons);
      forall s | s in short'
        ensures Backed(s, filled.0, cap)
      {
        if s in short {
          BackedExtends(s, l, filled.0, cap);
        } else {
          assert s == Shortfall(q, filled.1.reasons) && q.months == p.months;
        }
      }
      AllocateFromBacked(filled.0, projects[1..], cap, done + [q], short');
      AllocateFromStep(l, projects, cap, done, short);
    }
  }

  /** The whole allocation: the ledger invariant holds at the end (so no
      year exceeds the capacity), the ledger covers exactly the given years,
      the projects come out in order with their counters, every owned slot
      belongs to a project whose period contains it, and the shortfall list
      is exactly the short projects, each backed by the final ledger. */
  lemma AllocateAllProperties(projects: seq<Project>, years: set<int>, cap: nat)
    ensures var r := AllocateAll(projects, years, cap);
      && Consistent(r.ledger, cap)
      && r.ledger.totals.Keys == years
      && (forall y :: y in years ==> r.ledger.totals[y] <= cap)
      && (forall ym :: ym in r.ledger.owner <==> ym.year in years && 1 <= ym.month <= 12)
      && |r.projects| == |projects|
      && (forall i :: 0 <= i < |projects| ==> SameRequest(r.projects[i], projects[i]) && Counted(r.projects[i]))
      && (forall x :: x in r.ledger.owner && r.ledger.owner[x].Some? ==>
            exists k :: 0 <= k < |projects| && r.ledger.owner[x] == Some(projects[k].id) && x in projects[k].months)
      && ProjectsOf(r.shortfalls) == ShortOf(r.projects)
      && (forall s :: s in r.shortfalls ==> Backed(s, r.ledger, cap))
  {
    var l := InitialLedger(years);
    InitialConsistent(years, cap);
    AllocateFromConsistent(l, projects, cap, [], []);
    AllocateFromLedger(l, projects, cap, [], []);
    AllocateFromProjects(l, projects, cap, [], []);
    AllocateFromShortfalls(l, projects, cap, [], []);
    AllocateFromBacked(l, projects, cap, [], []);
  }

  // ---------------------------------------------------------------------
  // The allocator
  // ---------------------------------------------------------------------

  /** The initialisation of the two maps and the loop over the projects. */
  method Allocate(projects: seq<Project>, years: set<int>, cap: int)
    returns (yearlyTotals: map<int, int>, monthStatus: map<YearMonth, Option<nat>>,
             data: seq<Project>, unallocatedProjects: seq<Shortfall>)
    ensures Run(Ledger(yearlyTotals, monthStatus), data, unallocatedProjects) == AllocateAll(projects, years, cap)
  {
    var initial := InitialLedger(years);
    yearlyTotals, monthStatus := initial.totals, initial.owner;
    data, unallocatedProjects := [], [];
    for i := 0 to |projects|
      invariant Grid(Ledger(yearlyTotals, monthStatus))
      invariant AllocateFrom(Ledger(yearlyTotals, monthStatus), projects[i..], cap, data, unallocatedProjects)
             == AllocateAll(projects, years, cap)
    {
      assert projects[i..][1..] == projects[i + 1..];
      var project := projects[i];
      var allocatedCount, unallocatedCount, reasons;
      yearlyTotals, monthStatus, allocatedCount, unallocatedCount, reasons :=
        AllocateProject(yearlyTotals, monthStatus, project, cap);
      var updated := project.(allocatedAm := allocatedCount, unallocatedAm := unallocatedCount);
      data := data + [updated];
      if unallocatedCount > 0 {
        unallocatedProjects := unallocatedProjects + [Shortfall(updated, reasons)];
      }
    }
  }

  /** The loop over one project's months, in chronological order. */
  method AllocateProject(totals: map<int, int>, status: map<YearMonth, Option<nat>>, project: Project, cap: int)
    returns (yearlyTotals: map<int, int>, monthStatus: map<YearMonth, Option<nat>>,
             allocatedCount: int, unallocatedCount: int, reasons: seq<Reason>)
    requires Grid(Ledger(totals, status))
    ensures Grid(Ledger(yearlyTotals, monthStatus))
    ensures (Ledger(yearlyTotals, monthStatus), Progress(allocatedCount, unallocatedCount, reasons))
         == Fill(Ledger(totals, status), project.id, project.units, project.months, cap, Progress(0, project.units, []))
  {
    yearlyTotals, monthStatus := totals, status;
    allocatedCount, unallocatedCount, reasons := 0, project.units, [];
    for j := 0 to |project.months|
      invariant Grid(Ledger(yearlyTotals, monthStatus))
      invariant Fill(Ledger(yearlyTotals, monthStatus), project.id, project.units, project.months[j..], cap,
                     Progress(allocatedCount, unallocatedCount, reasons))
             == Fill(Ledger(totals, status), project.id, project.units, project.months, cap, Progress(0, project.units, []))
    {
      assert project.months[j..][1..] == project.months[j + 1..];
      if allocatedCount >= project.units {
        break;
      }
      var ym := project.months[j];
      ghost var next := Visit(Ledger(yearlyTotals, monthStatus), project.id, ym, cap,
                              Progress(allocatedCount, unallocatedCount, reasons));
      if ym in monthStatus {
        if yearlyTotals[ym.year] >= cap {
          if CapacityReached(ym.year) !in reasons {
            reasons := reasons + [CapacityReached(ym.year)];
          }
          assert (Ledger(yearlyTotals, monthStatus), Progress(allocatedCount, unallocatedCount, reasons)) == next;
          continue;
        }
        if monthStatus[ym].Some? {
          var occupying := monthStatus[ym].value;
          if AlreadyAllocated(ym, occupying) !in reasons {
            reasons := reasons + [AlreadyAllocated(ym, occupying)];
          }
          assert (Ledger(yearlyTotals, monthStatus), Progress(allocatedCount, unallocatedCount, reasons)) == next;
          continue;
        }
        VisitCases(Ledger(yearlyTotals, monthStatus), project.id, ym, cap,
                   Progress(allocatedCount, unallocatedCount, reasons));
        assert next.1 == Progress(allocatedCount + 1, unallocatedCount - 1, reasons);
        assert next.0 == Ledger(yearlyTotals[ym.year := yearlyTotals[ym.year] + 1], monthStatus[ym := Some(project.id)]);
        yearlyTotals := yearlyTotals[ym.year := yearlyTotals[ym.year] + 1];
        monthStatus := monthStatus[ym := Some(project.id)];
        allocatedCount := allocatedCount + 1;
        unallocatedCount := unallocatedCount - 1;
        assert (Ledger(yearlyTotals, monthStatus), Progress(allocatedCount, unallocatedCount, reasons)) == next;
      } else {
        assert (Ledger(yearlyTotals, monthStatus), Progress(allocatedCount, unallocatedCount, reasons)) == next;
      }
    }
  }
}
