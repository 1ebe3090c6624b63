/** The records the loader builds and the allocator updates: the input cells
    of a row, the project record and the parse warning. */
module Records {
  import opened Dates
  import opened Period

  /** A cell of the period column, as openpyxl hands it over. */
  datatype PeriodCell =
    | NoPeriod
    | PeriodText(text: string)
    | PeriodNumber(number: int)
    | PeriodFlag(flag: bool)

  /** A cell of the person-month column. UnitsOther is any other cell value
      (a date, say), for which int() raises TypeError. */
  datatype UnitsCell =
    | NoUnits
    | UnitsText(text: string)
    | UnitsNumber(number: int)
    | UnitsReal(value: real)
    | UnitsFlag(flag: bool)
    | UnitsOther

  /** One input row below the header: its period and person-month cells. */
  datatype Row = Row(period: PeriodCell, units: UnitsCell)

  /** A project record: its sequential id, the period cell as read, the
      requested person-months, the months of its period and the two
      counters the allocator fills in. */
  datatype Project = Project(
    id: nat,
    period: PeriodCell,
    units: int,
    months: seq<YearMonth>,
    allocatedAm: int,
    unallocatedAm: int)

  /** A row skipped because its period did not parse, with its spreadsheet
      row number. */
  datatype Warning = Warning(row: nat, error: DateError)
}
