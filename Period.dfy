/** The period parser: parse_date and parse_period of app.py. Free text
    becomes a start and an end date. "Today" is a parameter (the script reads
    the clock). Digits are ASCII digits. */
module Period {
  import opened Outcomes
  import opened Text
  import opened Dates

  /** The Greek word for "today" (σήμερα) and its Latin transliteration. */
  const TODAY_GREEK: string := "\U{03C3}\U{03AE}\U{03BC}\U{03B5}\U{03C1}\U{03B1}"
  const TODAY_LATIN: string := "simera"

  const EM_DASH: char := '\U{2014}'
  const EN_DASH: char := '\U{2013}'

  /** The ValueErrors the parser raises. Each carries the text it rejected. */
  datatype DateError =
    | UnsupportedFormat(text: string)  // no accepted form matches
    | InvalidDate(text: string)        // the form matches but strptime or the month step fails
    | InvalidPeriod(text: string)      // the period does not split into two halves

  /** The text names "today" in either spelling, in any letter case. */
  predicate MentionsToday(t: string) {
    Contains(Lower(t), TODAY_GREEK) || Contains(Lower(t), TODAY_LATIN)
  }

  /** `^\d{4}$` */
  predicate IsYearText(t: string) {
    |t| == 4 && AllDigits(t)
  }

  /** `\d{1,2}`, a day or month field. */
  predicate IsShortField(t: string) {
    1 <= |t| <= 2 && AllDigits(t)
  }

  /** t has one of the three numeric shapes `YYYY`, `M/YYYY`, `D/M/YYYY`. */
  predicate DateForm(t: string) {
    || IsYearText(t)
    || (var f := Split(t, '/'); |f| == 2 && IsShortField(f[0]) && IsYearText(f[1]))
    || (var f := Split(t, '/'); |f| == 3 && IsShortField(f[0]) && IsShortField(f[1]) && IsYearText(f[2]))
  }

  /** parse_date(text, is_start). The forms are tried in the script's order:
      the "today" keyword (end dates only), then the numeric forms. A date is
      returned only for one of the numeric shapes or for "today" as an end
      date; every other text is an unsupported format. */
  function ParseDate(text: string, isStart: bool, today: Date): (r: Result<Date, DateError>)
    requires ValidDate(today)
    ensures r.Ok? ==> ValidDate(r.value)
    ensures r.Ok? ==> DateForm(Strip(text)) || (!isStart && MentionsToday(Strip(text)) && r.value == today)
    ensures !DateForm(Strip(text)) && (isStart || !MentionsToday(Strip(text))) ==>
      r == Err(UnsupportedFormat(Strip(text)))
  {
    var t := Strip(text);
    if !isStart && MentionsToday(t) then Ok(today) else ParseNumericDate(t, isStart)
  }

  /** The numeric forms `YYYY`, `M/YYYY` and `D/M/YYYY` of a stripped text. */
  function ParseNumericDate(t: string, isStart: bool): (r: Result<Date, DateError>)
    ensures r.Ok? ==> ValidDate(r.value)
  {
    if IsYearText(t) then
      var y := DigitsValue(t);
      if y < MIN_YEAR then Err(InvalidDate(t))
      else Ok(if isStart then Date(y, 1, 1) else Date(y, 12, 31))
    else ParseDateFields(Split(t, '/'), t, isStart)
  }

  /** `M/YYYY` and `D/M/YYYY`, given the slash-separated fields of t. */
  function ParseDateFields(fields: seq<string>, t: string, isStart: bool): (r: Result<Date, DateError>)
    ensures r.Ok? ==> ValidDate(r.value)
  {
    if |fields| == 2 && IsShortField(fields[0]) && IsYearText(fields[1]) then
      var m, y := DigitsValue(fields[0]), DigitsValue(fields[1]);
      if !(1 <= m <= 12) || y < MIN_YEAR then Err(InvalidDate(t))
      else if isStart then Ok(Date(y, m, 1))
      else
        match EndOfMonth(y, m)
        case None => Err(InvalidDate(t))
        case Some(last) => Ok(last)
    else if |fields| == 3 && IsShortField(fields[0]) && IsShortField(fields[1]) && IsYearText(fields[2]) then
      var d := Date(DigitsValue(fields[2]), DigitsValue(fields[1]), DigitsValue(fields[0]));
      if ValidDate(d) then Ok(d) else Err(InvalidDate(t))
    else Err(UnsupportedFormat(t))
  }

  /** The em-dash and en-dash replaced by a hyphen. */
  function NormalizeDashes(s: string): string {
    if s == [] then []
    else [if s[0] == EM_DASH || s[0] == EN_DASH then '-' else s[0]] + NormalizeDashes(s[1..])
  }

  /** parse_period(p): a bare year is the whole year; anything else must be
      two dash-separated halves, a start date and an end date. */
  function ParsePeriod(p: string, today: Date): (r: Result<(Date, Date), DateError>)
    requires ValidDate(today)
    ensures r.Ok? ==> ValidDate(r.value.0) && ValidDate(r.value.1)
  {
    var c := NormalizeDashes(Strip(p));
    if IsYearText(c) then
      var start :- ParseDate(c, true, today);
      var end :- ParseDate(c, false, today);
      Ok((start, end))
    else
      var parts := Split(c, '-');
      if |parts| != 2 then Err(InvalidPeriod(p))
      else
        var start :- ParseDate(parts[0], true, today);
        var end :- ParseDate(parts[1], false, today);
        Ok((start, end))
  }

  // ---------------------------------------------------------------------
  // Helpers: strings made of digits and slashes
  // ---------------------------------------------------------------------

  predicate DateChars(u: string) {
    forall i :: 0 <= i < |u| ==> IsDigit(u[i]) || u[i] == '/'
  }

  /** Digits and slashes never spell "today". */
  lemma DateCharsNotToday(u: string)
    requires DateChars(u)
    ensures !MentionsToday(u)
  {
    var l := Lower(u);
    assert forall i :: 0 <= i < |l| ==> l[i] == u[i];
    NotContainsWithoutFirst(l, TODAY_GREEK);
    NotContainsWithoutFirst(l, TODAY_LATIN);
  }

  /** Digit fields joined by slashes are digits and slashes. */
  lemma {:induction false} JoinDateChars(parts: seq<string>)
    requires |parts| >= 1
    requires forall k :: 0 <= k < |parts| ==> AllDigits(parts[k])
    ensures DateChars(Join(parts, '/'))
  {
    if |parts| > 1 {
      JoinDateChars(parts[1..]);
    }
  }

  /** A text made of digits and slashes reaches the format checks unchanged. */
  lemma DateCharsPlain(u: string)
    requires DateChars(u)
    ensures Strip(u) == u && !MentionsToday(u)
  {
    StripUnspaced(u);
    DateCharsNotToday(u);
  }

  /** A text of digits and slashes goes straight to the numeric forms. */
  lemma PlainDate(t: string, isStart: bool, today: Date)
    requires ValidDate(today)
    requires DateChars(t)
    ensures ParseDate(t, isStart, today) == ParseNumericDate(t, isStart)
  {
    DateCharsPlain(t);
  }

  /** Digit fields joined by slashes split back into those fields. */
  lemma SlashFields(fields: seq<string>)
    requires |fields| >= 1
    requires forall k :: 0 <= k < |fields| ==> AllDigits(fields[k])
    ensures DateChars(Join(fields, '/'))
    ensures Split(Join(fields, '/'), '/') == fields
  {
    JoinDateChars(fields);
    SplitJoin(fields, '/');
  }

  /** Two or more digit fields joined by slashes are read field by field. */
  lemma SlashDate(fields: seq<string>, isStart: bool, today: Date)
    requires ValidDate(today)
    requires |fields| >= 2
    requires forall k :: 0 <= k < |fields| ==> AllDigits(fields[k])
    ensures ParseDate(Join(fields, '/'), isStart, today) ==
      ParseDateFields(fields, Join(fields, '/'), isStart)
  {
    var u := Join(fields, '/');
    SlashFields(fields);
    PlainDate(u, isStart, today);
    FirstPart(fields, '/');
    assert !IsDigit(u[|fields[0]|]);
  }

  // ---------------------------------------------------------------------
  // parse_date, form by form
  // ---------------------------------------------------------------------

  /** parse_date strips its argument first, so surrounding whitespace never
      changes its result. */
  lemma ParseDateStrips(text: string, isStart: bool, today: Date)
    requires ValidDate(today)
    ensures ParseDate(text, isStart, today) == ParseDate(Strip(text), isStart, today)
  {
    StripUnspaced(Strip(text));
  }

  /** `YYYY`, with any surrounding whitespace: 1 January as a start date,
      31 December as an end date; the year 0000 is rejected as datetime has
      no year 0. */
  lemma ParseDateYear(text: string, isStart: bool, today: Date)
    requires ValidDate(today)
    requires IsYearText(Strip(text))
    ensures ParseDate(text, isStart, today) ==
      var t := Strip(text);
      var y := DigitsValue(t);
      if y == 0 then Err(InvalidDate(t))
      else if isStart then Ok(Date(y, 1, 1)) else Ok(Date(y, 12, 31))
  {
    YearForm(Strip(text), isStart, today);
    ParseDateStrips(text, isStart, today);
  }

  /** ParseDateYear for the bare text. */
  lemma YearForm(t: string, isStart: bool, today: Date)
    requires ValidDate(today)
    requires IsYearText(t)
    ensures ParseDate(t, isStart, today) ==
      var y := DigitsValue(t);
      if y == 0 then Err(InvalidDate(t))
      else if isStart then Ok(Date(y, 1, 1)) else Ok(Date(y, 12, 31))
  {
    DateCharsPlain(t);
  }

  /** `M/YYYY`, with any surrounding whitespace: the 1st of the month as a
      start date, the month's last calendar day as an end date (leap-year
      aware); month 0 or above 12, year 0000, and December 9999 as an end
      date are rejected. */
  lemma ParseDateMonthYear(text: string, mt: string, yt: string, isStart: bool, today: Date)
    requires ValidDate(today)
    requires IsShortField(mt) && IsYearText(yt) && Strip(text) == mt + "/" + yt
    ensures ParseDate(text, isStart, today) ==
      var m, y := DigitsValue(mt), DigitsValue(yt);
      if !(1 <= m <= 12) || y == 0 then Err(InvalidDate(mt + "/" + yt))
      else if isStart then Ok(Date(y, m, 1))
      else if y == MAX_YEAR && m == 12 then Err(InvalidDate(mt + "/" + yt))
      else Ok(Date(y, m, DaysInMonth(y, m)))
  {
    MonthYearForm(mt, yt, isStart, today);
    ParseDateStrips(text, isStart, today);
  }

  /** ParseDateMonthYear for the bare text. */
  lemma MonthYearForm(mt: string, yt: string, isStart: bool, today: Date)
    requires ValidDate(today)
    requires IsShortField(mt) && IsYearText(yt)
    ensures ParseDate(mt + "/" + yt, isStart, today) ==
      var m, y := DigitsValue(mt), DigitsValue(yt);
      if !(1 <= m <= 12) || y == 0 then Err(InvalidDate(mt + "/" + yt))
      else if isStart then Ok(Date(y, m, 1))
      else if y == MAX_YEAR && m == 12 then Err(InvalidDate(mt + "/" + yt))
      else Ok(Date(y, m, DaysInMonth(y, m)))
  {
    assert Join([mt, yt], '/') == mt + "/" + yt;
    SlashDate([mt, yt], isStart, today);
    var m, y := DigitsValue(mt), DigitsValue(yt);
    if 1 <= m <= 12 && y >= 1 {
      EndOfMonthIsLastDay(y, m);
    }
  }

  /** `D/M/YYYY`, with any surrounding whitespace: exactly that date in either
      role, and an error when it is not a calendar date (day 31 of a 30-day
      month, 29 February of a common year, month 13, ...). */
  lemma ParseDateExact(text: string, dt: string, mt: string, yt: string, isStart: bool, today: Date)
    requires ValidDate(today)
    requires IsShortField(dt) && IsShortField(mt) && IsYearText(yt) && Strip(text) == dt + "/" + mt + "/" + yt
    ensures ParseDate(text, isStart, today) ==
      var d := Date(DigitsValue(yt), DigitsValue(mt), DigitsValue(dt));
      if ValidDate(d) then Ok(d) else Err(InvalidDate(dt + "/" + mt + "/" + yt))
  {
    ExactForm(dt, mt, yt, isStart, today);
    ParseDateStrips(text, isStart, today);
  }

  /** ParseDateExact for the bare text. */
  lemma ExactForm(dt: string, mt: string, yt: string, isStart: bool, today: Date)
    requires ValidDate(today)
    requires IsShortField(dt) && IsShortField(mt) && IsYearText(yt)
    ensures ParseDate(dt + "/" + mt + "/" + yt, isStart, today) ==
      var d := Date(DigitsValue(yt), DigitsValue(mt), DigitsValue(dt));
      if ValidDate(d) then Ok(d) else Err(InvalidDate(dt + "/" + mt + "/" + yt))
  {
    assert [dt, mt, yt][1..] == [mt, yt] && [mt, yt][1..] == [yt];
    assert Join([yt], '/') == yt;
    assert Join([mt, yt], '/') == mt + ['/'] + yt;
    assert Join([dt, mt, yt], '/') == dt + ['/'] + (mt + ['/'] + yt) == dt + "/" + mt + "/" + yt;
    SlashDate([dt, mt, yt], isStart, today);
  }

  /** The fields of a text accepted by a numeric form are digits, so the
      whole text is digits and slashes. */
  lemma NumericFormsAreDateChars(t: string)
    requires DateForm(t)
    ensures DateChars(t)
  {
    if !IsYearText(t) {
      JoinDateChars(Split(t, '/'));
    }
  }

  /** "Today" (either spelling, any case, anywhere in the text) is today as an
      end date. As a start date it falls through to the numeric forms, none of
      which can match, so it is an unsupported format. */
  lemma ParseDateToday(text: string, today: Date)
    requires ValidDate(today)
    requires MentionsToday(Strip(text))
    ensures ParseDate(text, false, today) == Ok(today)
    ensures ParseDate(text, true, today) == Err(UnsupportedFormat(Strip(text)))
  {
    var t := Strip(text);
    if DateChars(t) {
      DateCharsNotToday(t);
      assert false;
    }
    if DateForm(t) {
      NumericFormsAreDateChars(t);
      assert false;
    }
  }

  /** A text holding anything besides digits and slashes is rejected as an
      unsupported format, unless it is an end date naming "today". */
  lemma ParseDateOtherText(text: string, isStart: bool, today: Date)
    requires ValidDate(today)
    requires !DateChars(Strip(text))
    requires isStart || !MentionsToday(Strip(text))
    ensures ParseDate(text, isStart, today) == Err(UnsupportedFormat(Strip(text)))
  {
    var t := Strip(text);
    if DateForm(t) {
      NumericFormsAreDateChars(t);
      assert false;
    }
  }

  // ---------------------------------------------------------------------
  // parse_period
  // ---------------------------------------------------------------------

  predicate IsDash(c: char) {
    c == '-' || c == EM_DASH || c == EN_DASH
  }

  /** The number of dashes of the three kinds in s. */
  function DashCount(s: string): nat {
    if s == [] then 0 else (if IsDash(s[0]) then 1 else 0) + DashCount(s[1..])
  }

  /** Normalising maps every dash to a hyphen and leaves the rest alone, so
      the hyphens afterwards are the dashes before. */
  lemma {:induction false} NormalizeDashesCount(s: string)
    ensures |NormalizeDashes(s)| == |s|
    ensures Count(NormalizeDashes(s), '-') == DashCount(s)
    ensures DashCount(s) == 0 ==> NormalizeDashes(s) == s
  {
    if s != [] {
      NormalizeDashesCount(s[1..]);
    }
  }

  lemma {:induction false} NormalizeDashesConcat(a: string, b: string)
    ensures NormalizeDashes(a + b) == NormalizeDashes(a) + NormalizeDashes(b)
  {
    if a == [] {
      assert a + b == b;
    } else {
      assert (a + b)[1..] == a[1..] + b;
      NormalizeDashesConcat(a[1..], b);
    }
  }

  /** No dash of any kind occurs in s. */
  predicate NoDash(s: string) {
    forall i :: 0 <= i < |s| ==> !IsDash(s[i])
  }

  lemma {:induction false} NoDashCount(s: string)
    requires NoDash(s)
    ensures DashCount(s) == 0
  {
    if s != [] {
      NoDashCount(s[1..]);
    }
  }

  /** A bare four-digit year is the whole year, 1 January to 31 December
      (and the year 0000 is rejected). */
  lemma ParsePeriodYear(p: string, today: Date)
    requires ValidDate(today)
    requires IsYearText(Strip(p))
    ensures ParsePeriod(p, today) ==
      var y := DigitsValue(Strip(p));
      if y == 0 then Err(InvalidDate(Strip(p))) else Ok((Date(y, 1, 1), Date(y, 12, 31)))
  {
    var t := Strip(p);
    if DashCount(t) > 0 {
      DashCountWitness(t);
      assert false;
    }
    NormalizeDashesCount(t);
    YearForm(t, true, today);
    YearForm(t, false, today);
  }

  lemma {:induction false} DashCountWitness(s: string)
    requires DashCount(s) > 0
    ensures exists i :: 0 <= i < |s| && IsDash(s[i])
  {
    if !IsDash(s[0]) {
      DashCountWitness(s[1..]);
      var i :| 0 <= i < |s| - 1 && IsDash(s[1..][i]);
      assert IsDash(s[i + 1]);
    }
  }

  /** A period whose stripped text is two halves around a hyphen, en-dash or
      em-dash: the first half is parsed as a start date and the second as an
      end date, each after its own strip; the first failing half (the start
      first) fails the period. */
  lemma ParsePeriodRange(p: string, a: string, b: string, dash: char, today: Date)
    requires ValidDate(today)
    requires IsDash(dash) && NoDash(a) && NoDash(b)
    requires Strip(p) == a + [dash] + b
    ensures ParsePeriod(p, today) ==
      match ParseDate(a, true, today)
      case Err(e) => Err(e)
      case Ok(start) =>
        match ParseDate(b, false, today)
        case Err(e) => Err(e)
        case Ok(end) => Ok((start, end))
  {
    PeriodHalves(a, b, dash);
  }

  /** The text the range form splits: the dash becomes a hyphen, the result
      is not a bare year, and splitting gives back the two halves. */
  lemma PeriodHalves(a: string, b: string, dash: char)
    requires IsDash(dash) && NoDash(a) && NoDash(b)
    ensures NormalizeDashes(a + [dash] + b) == a + "-" + b
    ensures !IsYearText(a + "-" + b)
    ensures Split(a + "-" + b, '-') == [a, b]
  {
    NormalizedHalves(a, b, dash);
    var c := a + "-" + b;
    assert c[|a|] == '-';
    SplitHalves(a, b);
  }

  lemma NormalizedHalves(a: string, b: string, dash: char)
    requires IsDash(dash) && NoDash(a) && NoDash(b)
    ensures NormalizeDashes(a + [dash] + b) == a + "-" + b
  {
    NoDashCount(a);
    NoDashCount(b);
    NormalizeDashesCount(a);
    NormalizeDashesCount(b);
    NormalizeDashesConcat(a, [dash]);
    NormalizeDashesConcat(a + [dash], b);
    assert NormalizeDashes([dash]) == "-";
  }

  lemma SplitHalves(a: string, b: string)
    requires NoDash(a) && NoDash(b)
    ensures Split(a + "-" + b, '-') == [a, b]
  {
    assert [a, b][1..] == [b];
    assert Join([b], '-') == b;
    assert Join([a, b], '-') == a + "-" + b;
    SplitJoin([a, b], '-');
  }

  /** A text that is neither a bare year nor holds exactly one dash (of any
      of the three kinds) after stripping is not a period. */
  lemma ParsePeriodShape(p: string, today: Date)
    requires ValidDate(today)
    requires !IsYearText(NormalizeDashes(Strip(p)))
    requires DashCount(Strip(p)) != 1
    ensures ParsePeriod(p, today) == Err(InvalidPeriod(p))
  {
    NormalizeDashesCount(Strip(p));
  }
}
