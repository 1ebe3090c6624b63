# Person-month allocator, modelled in Dafny

`app.py` is a small Streamlit application. It reads a spreadsheet of projects, one row per project. Each row has a period (a text such as `2022`, `3/2021-6/2023` or `1/9/2020 – σήμερα`) and a number of person-months ("ΑΝΘΡΩΠΟΜΗΝΕΣ"). The application then spreads the person-months over the calendar months greedily:

- One person can work at most one person-month per calendar month.
- A year can take at most `MAX_YEARLY_CAPACITY` (11) person-months.
- Shorter projects are served first.
- Within a project, months are served in chronological order.

The outputs are:

- the filled-in template sheet;
- a row of yearly totals, coloured by how full each year is;
- a summary that lists each year's total and every project left with unallocated person-months, with the reasons.

This project models that core:

- `Text`: the Python string operations the parser relies on: `strip`, `lower`, `in`, `split`, `int()` and `str()` of integers.
- `Dates`: calendar dates, months and the month arithmetic of `relativedelta`.
- `Period`: `parse_date` and `parse_period`. `PeriodExamples` adds worked examples.
- `Months`: `month_range`.
- `Records`: the spreadsheet cells, rows, project records and warnings.
- `Sorting`: the stable `list.sort(key=...)`.
- `Loader`: the loop that turns rows into projects, and the sort by number of months.
- `Allocation`: the two maps `yearly_am_totals` and `month_allocation_status`, and the greedy loop.
- `Report`: the yearly totals row, the overages and the summary.
- `Planner`: the whole run from rows to summary.

The loops of the script become methods with loop invariants:

- `LoadProjects`, `MonthRange`, `SortByKey`, `Allocate` and `AllocateProject`;
- `YearTotals` and `YearLines`.

Each method is proved against a reference definition written as a function or predicate: `ScanRows`, `MonthSpan`, `StablySorted`, `AllocateAll`, `Fill`, `Overages`, `FillsFor` and `LinesFor`. Lemmas state what the application promises about those definitions.

The main results are these:

- **Capacity.** The greedy loop never puts a year above the capacity, and each year's total counts exactly the month slots it owns (`AllocateAllProperties`). As a result the "OVER CAPACITY" branch of the summary can never fire (`NoOverages`, `Planner.Sound`).
- **Ownership.** Every owned slot belongs to a project whose period contains that month.
- **Shortfalls.** A project is left short only when every month of its period was taken or in a full year (`FillShortfall`). Its reasons are distinct, and each one is backed by the final ledger (`FillReasons`). Conversely, every month of its period that it did not take is explained by a reason: the month's year is named as full, or the month is named with its owner (`FillExplained`).
- **Sorting.** The sort is a stable sort, and a stable sort is unique (`StableSortUnique`).
- **Date forms.** Each accepted date form (`YYYY`, `M/YYYY`, `D/M/YYYY`, or "today" as an end date) yields the date the application promises. Every other text, including digit-and-slash texts of none of these shapes such as `12345` or an empty half, is rejected as an unsupported format (`ParseDate`).

## Model

| member | source | states |
|---|---|---|
| Text.Strip | app.py:55 | `strip()` leaves neither end as whitespace, and gives the empty string exactly for an all-whitespace text |
| Text.ParseInt | app.py:145 | a text `int()` accepts is, once stripped, a digit or a sign followed by digits and underscores |
| Text.ParseIntUnderscores | app.py:145 | a stripped digit run with single underscores between digits reads as its digits, unsigned or after `+`, and negated after `-` |
| Text.ParseIntRejects | app.py:145 | every other stripped text makes `int()` fail |
| Text.ParseIntDecimal | app.py:145 | a plain decimal reads as its value, and a minus sign negates it |
| Text.Lower | app.py:58 | `lower()` keeps the length and lowers each character on its own (ASCII and Greek capitals) |
| Text.ContainsOccurs | app.py:58 | the substring test `in` holds exactly when the pattern occurs at some position of the text |
| Text.Split | app.py:95 | `split(sep)` yields one more part than there are separators, no part holds the separator, and joining the parts gives the text back |
| Text.SplitJoin | app.py:95 | splitting a join of separator-free parts gives back exactly those parts |
| Text.JoinInjective | app.py:95 | two lists of separator-free parts with the same join are equal, so the split is determined by the text |
| Text.IntToStringRoundTrip | app.py:145 | the model of `int()` inverts the model of `str()` on every integer: `int(str(n)) == n` |
| Dates.DaysInMonth | app.py:80 | every month has 28 to 31 days |
| Dates.AddMonth | app.py:80 | `+ relativedelta(months=1)` moves to the next calendar month, clamps the day to that month's length, and fails only from December 9999 |
| Dates.EndOfMonthIsLastDay | app.py:79-80 | "first of the month, plus one month, minus one day" is the last day of the month (29 February exactly in leap years), and it is undefined for December 9999 |
| Dates.MonthLeIndex | app.py:105 | comparing first-of-month dates is comparing month indices |
| Period.ParseDate | app.py:54-85 | every date `parse_date` returns is a valid calendar date between the years 1 and 9999; it returns one only for a stripped text of the shape `YYYY`, `M/YYYY` or `D/M/YYYY`, or for "today" as an end date; any other text is an unsupported format |
| Period.ParseDateStrips | app.py:55 | surrounding whitespace never changes what `parse_date` returns |
| Period.ParseDateYear | app.py:68-72 | `YYYY`, with any surrounding whitespace, is 1 January as a start and 31 December as an end; year 0000 is an invalid date |
| Period.ParseDateMonthYear | app.py:73-80 | `M/YYYY`, with any surrounding whitespace, is the 1st of the month as a start and the month's last day as an end; a month outside 1..12, year 0000, or December 9999 as an end is an invalid date |
| Period.ParseDateExact | app.py:81-82 | `D/M/YYYY`, with any surrounding whitespace, is exactly that date in either role, and an invalid date when it is not on the calendar |
| Period.ParseDateToday | app.py:57-66 | a text naming today (Greek or Latin spelling, any case) is today as an end date, and an unsupported format as a start date |
| Period.ParseDateOtherText | app.py:83-85 | any text not made only of digits and slashes is an unsupported format, except "today" as an end date |
| Period.ParsePeriod | app.py:87-99 | both dates of every parsed period are valid calendar dates |
| Period.NormalizeDashesCount | app.py:88 | replacing em-dashes and en-dashes by hyphens keeps the length, and leaves as many hyphens as there were dashes of all three kinds |
| Period.ParsePeriodYear | app.py:90-93 | a bare four-digit year is the whole year, 1 January to 31 December |
| Period.ParsePeriodRange | app.py:87-99 | a period whose stripped text is two halves around one dash of any kind (surrounding whitespace allowed) is the start date of the first half and the end date of the second, each half stripped again; the first failing half, start first, fails the period |
| Period.PeriodHalves | app.py:88-98 | the dash of `a<dash>b` becomes a hyphen, the result is not a bare year, and it splits into exactly `[a, b]` |
| Period.ParsePeriodShape | app.py:95-97 | text that is not a bare year and does not hold exactly one dash is an invalid period naming the original text |
| PeriodExamples.ExampleWholeYear | app.py:91-93 | `"2022"` is the period 2022-01-01 to 2022-12-31 |
| PeriodExamples.ExampleNotADate | app.py:95-97 | `"not a date"` is an invalid period |
| PeriodExamples.CapitalisedGreekLower | app.py:58 | the capitalised Greek "today" lowers to the keyword |
| PeriodExamples.CapitalisedGreekMentionsToday | app.py:55-58 | the capitalised Greek "today" is unchanged by strip and counts as naming today |
| PeriodExamples.ExampleGreekToday | app.py:58-60 | the capitalised Greek "today" is today as an end date |
| PeriodExamples.ExampleEmptyDate | app.py:54-85 | the empty text is an unsupported format in either role |
| PeriodExamples.ExampleOpenEnded | app.py:87-99 | `"2020-"` has an empty end half, so the period is an unsupported format |
| PeriodExamples.ExampleFiveDigits | app.py:54-85 | `"12345"` is an unsupported format in either role |
| Months.MonthSpan | app.py:101-108 | the enumeration is non-empty exactly when the end month is not before the start month; it then has one entry per month from start to end, every entry lies between the two, and each is one month after the previous |
| Months.MonthSpanLength | app.py:101-108 | the span has `(12·ey+em) − (12·sy+sm) + 1` months, and none when the end month precedes the start month |
| Months.MonthSpanConsecutive | app.py:101-108 | the span starts at the start month, ends at the end month, and each month is followed by the next calendar month |
| Months.MonthSpanIncreasing | app.py:101-108 | the span is strictly increasing, so `sorted()` of it at app.py:314 leaves it unchanged |
| Months.MonthSpanMembers | app.py:101-108 | a month is in the span exactly when it lies between the start month and the end month |
| Months.MonthSpanValid | app.py:101-108 | the months of a span of valid dates are valid months |
| Months.MonthRange | app.py:101-108 | the loop returns the span of months from start to end, and fails exactly when it would step past December 9999 |
| Sorting.InsertByKey | app.py:186 | inserting after every element with key at most its own keeps the order sorted, adds exactly the element, and puts it after the elements with its key |
| Sorting.SortByKey | app.py:186 | the result is sorted by key, is a permutation of the input, and keeps the input order among equal keys |
| Sorting.WithKeyAppend | app.py:186 | the elements with a given key of a concatenation are those of each part, in order |
| Sorting.StableSortUnique | app.py:186 | two stable sorts of the same list are equal, so the insertion sort yields what `list.sort` yields |
| Loader.TruncateReal | app.py:145 | `int()` of a float truncates toward zero |
| Loader.LoadProjects | app.py:137-186 | the loop and the sort give the reference scan: the same months, years and warnings, the projects stably sorted by their number of months; or the sheet row whose month range overflows |
| Loader.CoerceUnits | app.py:142-147 | an empty or non-numeric cell counts 0, an integer counts itself, a boolean 1 or 0, a float its value truncated toward zero, and a text what `int()` reads from it, or 0 when `int()` fails |
| Loader.Classify | app.py:141-176 | a row is skipped exactly when its period is falsy or its person-months coerce to 0 (so negative person-months are kept); it is warned about exactly when it is not skipped and its period fails to parse, with that error; it aborts the run exactly when it is not skipped, its period parses, and the period ends in December 9999 without starting after it; a kept row has non-zero units, its period parses, and its months are exactly the month span from the parsed start month to the parsed end month, all valid |
| Loader.NonNumericUnitsSkipped | app.py:143-150 | an empty, non-numeric or unreadable person-months cell counts as 0, so the row is skipped |
| Loader.ReversedPeriodKept | app.py:152-176 | a period whose end month precedes its start month is kept, with no months at all |
| Loader.ScanAbortPersists | app.py:158 | once a row aborts the run, later rows change nothing |
| Loader.ScanProjects | app.py:166-176 | the projects are numbered 0, 1, … in input order, start with nothing allocated and all units unallocated, and never request zero units |
| Loader.ProjectCount | app.py:166-176 | there is one project per kept row |
| Loader.ScanRowToProject | app.py:166-176 | the k-th kept row becomes the project with id k, holding that row's period cell, units and months |
| Loader.ScanProjectFromRow | app.py:166-176 | every project comes from a kept row with the same period, units and months |
| Loader.ScanMonths | app.py:178-179 | the collected months are exactly the months of the projects |
| Loader.ScanAborts | app.py:158 | the run aborts exactly when some row's month range overflows, and it reports the first such row |
| Loader.ScanWarnings | app.py:152-156 | there is a warning for sheet row i with error e exactly when that row's period fails to parse with e |
| Loader.ScanWarningRows | app.py:141-155 | warnings only name data rows, 2 to the last row |
| Allocation.InitialLedger | app.py:245-247 | every year starts at 0, and all twelve month slots of every year exist and are free |
| Allocation.InitialConsistent | app.py:245-247 | the initial ledger satisfies the ledger invariant: each total counts its owned slots and is within the capacity |
| Allocation.Note | app.py:321-330 | a reason is added only when not already present (the list is unchanged otherwise), nothing else is added, nothing is removed, and a list without duplicates stays without duplicates |
| Allocation.Visit | app.py:318-342 | one month's step either leaves the ledger alone or claims the free slot of that month for the project while its year is below the capacity, adding one to that year's total and to the allocated count; allocated plus unallocated is preserved; no month slot or year is added or removed |
| Allocation.VisitCases | app.py:318-342 | the checks run in the source's order: an owned or free month of a year at the capacity records "capacity reached" and nothing else; below the capacity, an owned month records its owner; a free month below the capacity is always claimed, with exactly that year's total and that slot changed and the counters moved by one; a month outside the grid changes nothing; only a claim changes the ledger or the counters |
| Allocation.Fill | app.py:314-342 | a project's month loop never adds or removes a month slot or a year of the ledger; its meaning is stated by the Fill lemmas below |
| Allocation.AllocateFrom | app.py:298-354 | the projects loop never adds or removes a month slot or a year of the ledger; its meaning is stated by the AllocateFrom lemmas below |
| Allocation.FillLedger | app.py:314-342 | a project's month loop claims only free slots of its own months for itself, never takes a slot back, and never lowers a total |
| Allocation.FillCounts | app.py:303-342 | allocated plus unallocated stays the requested units; at most one person-month is allocated per month; the allocated count stops at the request |
| Allocation.VisitConsistent | app.py:318-342 | one month's step keeps the ledger invariant, because a slot is claimed only below the capacity |
| Allocation.FillConsistent | app.py:314-342 | a project's month loop keeps the ledger invariant |
| Allocation.FillShortfall | app.py:314-342 | a project ends short only when each month of its period is owned or in a year at the capacity |
| Allocation.FillReasons | app.py:319-331 | the reasons have no duplicates; each capacity reason names a full year of the period, and each already-allocated reason names a month of the period and its actual owner |
| Allocation.FillExplained | app.py:319-342 | reasons are only ever added; when the project ends short, every month of its period that it does not own has its year named as full or is named with its owner |
| Allocation.ShortOf | app.py:347 | the short projects are exactly those with a positive unallocated count |
| Allocation.AllocateFromLedger | app.py:298-364 | over the projects loop the ledger only grows, and every claimed slot goes to a project whose period contains that month |
| Allocation.AllocateFromConsistent | app.py:298-364 | the projects loop keeps the ledger invariant |
| Allocation.AllocateFromProjects | app.py:298-345 | each project comes out once and in order, with its request unchanged and its counters consistent |
| Allocation.AllocateFromShortfalls | app.py:347-354 | the unallocated list is exactly the processed projects with a positive unallocated count, in order |
| Allocation.AllocateFromBacked | app.py:347-354 | every entry of the unallocated list is backed by the final ledger: its reasons are distinct and true of the ledger, and every month of its period that it did not take is explained by one of them |
| Allocation.AllocateAllProperties | app.py:245-364 | the whole allocation: no year above the capacity, totals equal to owned slots, the grid kept, projects in order with their counters, owners taken from the projects' periods, and the shortfalls exactly the short projects, each with reasons that are true and that explain every month it did not take |
| Allocation.Allocate | app.py:245-364 | the initialisation and the loop compute the reference allocation: the same totals, owners, projects and unallocated list |
| Allocation.AllocateProject | app.py:303-345 | one project's month loop, with its break, capacity check, ownership check and claim, computes the reference month loop and keeps the slot grid |
| Report.FillFor | app.py:388-400 | a total cell is red exactly at or above the capacity, green exactly when strictly between 0 and the capacity, and plain otherwise |
| Report.Overages | app.py:396-397 | a year has an overage exactly when its total is above the capacity, and the overage is the positive excess |
| Report.YearTotals | app.py:367-400 | the loop gives every year with a total its fill, and the overage map of the reference |
| Report.NoOverages | app.py:396-397 | under the ledger invariant the overage map is empty |
| Report.StatusFor | app.py:413-417 | a year carries a status exactly when its total reaches the capacity or it has an overage, and a recorded overage wins, with its amount |
| Report.StatusMeaning | app.py:413-417 | a year's summary line says "over capacity" exactly when its total exceeds the capacity (with the excess), "capacity reached" exactly when it equals it, and nothing below it |
| Report.YearLines | app.py:413-417 | one line per year with a total, in ascending order, with that year's total and status |
| Report.SortedYears | app.py:413 | `sorted()` of the years is strictly increasing and has exactly the given years |
| Report.Least | app.py:413 | the chosen year is the smallest of the set |
| Report.Conclude | app.py:420-427 | the success message appears exactly when the unallocated list is empty; otherwise the list is shown in order |
| Report.AllAllocatedIff | app.py:420-427 | after the allocation, the success message appears exactly when no project has unallocated person-months |
| Planner.RunFacts | app.py:245-427 | after the allocation every total lies in 0 to the capacity, there is no overage, every project's counters add up, and success means no project is short |
| Planner.PlanAllocation | app.py:137-427 | a run aborts exactly when the loader aborts, at the same row; otherwise it reports the allocation of the stable sort by month count of the scanned projects, over the years they touch, with the scan's warnings, and the report is sound |
| Planner.AllocateAndReport | app.py:245-427 | the report is the program's own for these projects: the allocated projects, totals and owners of the reference allocation, the fills and overages of those totals, the summary lines in ascending year order with their statuses, and the outcome of the unallocated list; it is also sound: no overages, totals within the capacity, every year listed, no "over capacity" line, counters that add up, success exactly when nothing is short |

Three behaviours of `app.py` may look unintended. A reader might expect that a run with no usable row fails, that every kept project has at least one month, and that one bad row never stops the run. `app.py` does none of these, and the model follows `app.py`:

- **No "no valid data" failure.** When every row is skipped, `app.py` goes on with an empty project list, and so does the model.
- **Reversed periods are kept.** A period whose end month precedes its start month parses, yields no months, and is kept as a project (`Loader.ReversedPeriodKept`). Whenever its person-months are positive, it is reported as short, with no reasons. With negative person-months it is never short.
- **An overflowing month range aborts the run.** `month_range` raises outside the `try` when it steps past December 9999. That happens exactly for the kept rows whose parsed period ends in December 9999 and does not start after it, such as `9999` (`Loader.Classify`). The model reports this as an aborted run at that sheet row (`Loader.ScanAborts`, `Planner.PlanAllocation`).

## Left out

- **Interface.** The Streamlit interface is out of scope: upload, download, `st.stop`, the messages and their wording. The network download of the template and the openpyxl workbook I/O (reading cells, merging, clearing, borders, column widths) are left out too. The input is a sequence of (period cell, person-months cell) rows, and the output is the `Planned` record.
- **Missing-column check.** The check for the two required header columns is left out, because it happens before any row is read.
- **Colours.** The random header colours and `is_light_color` are not modelled, because they are random and purely cosmetic. Cell styling is reduced to the fill of the yearly total (`TotalFill`).
- **`am_per_month_ratio`.** It is computed but never used by the allocation, so it is not modelled.
- **Today's date.** `datetime.today()` is a parameter, `today`.
- **Period cells.** A period cell is a text, an integer, a boolean or empty. Float and datetime cells are left out because their `str()` depends on Python's float and datetime formatting.
- **Person-months cells.** These are an integer, a float, a boolean, a text, empty or "other". Floats are reals truncated toward zero, and NaN and infinities are not modelled.
- **Text handling.** `\d` is ASCII digits only, so Unicode decimal digits are not modelled. `lower()` covers ASCII and Greek capitals only, which is enough for both spellings of "today". `strip()` covers the ASCII and common Unicode spaces.
- **Reasons.** Reasons are a datatype rather than formatted strings. Text formatting is not modelled, and the two message forms cannot collide, so removing duplicate datatype values has the same effect as removing duplicate strings. The script also joins the set of reasons with `"; "` in set order, which is unspecified. The model keeps the order of first occurrence instead, and `Allocation.FillReasons` proves there are no duplicates.
- **Sorted month sets.** `all_months` and `years` are sets, not sorted lists. Only their membership is used, apart from `sorted(yearly_am_totals.items())`, which `Report.YearLines` models.
- **`sorted(months_in_period)`.** It is taken as the month list itself, because `Months.MonthSpanIncreasing` proves that list is already strictly increasing.
- **`list.sort`.** Timsort is modelled by an insertion sort. `Sorting.StableSortUnique` shows that any stable sort gives the same result.
- **Writing the sheet.** The `'X'` marks and yellow fills written into the sheet are not modelled. The owner map `month_allocation_status` records the same facts.
- **Integer width.** Python integers are unbounded, and so are Dafny's, so there is nothing to model here.
