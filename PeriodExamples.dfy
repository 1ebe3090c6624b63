/** Worked examples of the period parser, the periods a user types in the
    input sheet. */
module PeriodExamples {
  import opened Outcomes
  import opened Text
  import opened Dates
  import opened Period

  /** "2022" is the whole of 2022. */
  lemma ExampleWholeYear(today: Date)
    requires ValidDate(today)
    ensures ParsePeriod("2022", today) == Ok((Date(2022, 1, 1), Date(2022, 12, 31)))
  {
    YearDigits();
    assert IsYearText("2022");
    StripUnspaced("2022");
    ParsePeriodYear("2022", today);
  }

  /** The digits of "2022" read as 2022. */
  lemma YearDigits()
    ensures AllDigits("2022") && DigitsValue("2022") == 2022
  {
    var t := "2022";
    assert t[..3] == "202" && "202"[..2] == "20" && "20"[..1] == "2" && "2"[..0] == "";
    assert DigitsValue("2") == 2 && DigitsValue("20") == 20 && DigitsValue("202") == 202;
  }

  /** "not a date" has no dash and is not a period. */
  lemma ExampleNotADate(today: Date)
    requires ValidDate(today)
    ensures ParsePeriod("not a date", today) == Err(InvalidPeriod("not a date"))
  {
    var p := "not a date";
    assert |p| == 10 && !IsYearText(p);
    assert NoDash(p);
    StripUnspaced(p);
    NoDashCount(p);
    NormalizeDashesCount(p);
    ParsePeriodShape(p, today);
  }

  /** An empty text has none of the date shapes and is not "today". */
  lemma ExampleEmptyDate(isStart: bool, today: Date)
    requires ValidDate(today)
    ensures ParseDate("", isStart, today) == Err(UnsupportedFormat(""))
  {
    DateCharsNotToday("");
    assert Split("", '/') == [""];
  }

  /** "2020-" has an empty end half, so the period is an unsupported format
      rather than an open-ended one. */
  lemma ExampleOpenEnded(today: Date)
    requires ValidDate(today)
    ensures ParsePeriod("2020-", today) == Err(UnsupportedFormat(""))
  {
    var p := "2020-";
    assert p == "2020" + ['-'] + "";
    assert IsYearText("2020") && NoDash("2020");
    StripUnspaced(p);
    YearForm("2020", true, today);
    ExampleEmptyDate(false, today);
    ParsePeriodRange(p, "2020", "", '-', today);
  }

  /** A five-digit number is neither a year nor a field form. */
  lemma ExampleFiveDigits(isStart: bool, today: Date)
    requires ValidDate(today)
    ensures ParseDate("12345", isStart, today) == Err(UnsupportedFormat("12345"))
  {
    var t := "12345";
    assert DateChars(t) && !IsYearText(t);
    DateCharsPlain(t);
    assert Count(t, '/') == 0;
  }

  /** "Σήμερα" with a capital sigma. */
  const CAPITALISED_GREEK: string := "\U{03A3}\U{03AE}\U{03BC}\U{03B5}\U{03C1}\U{03B1}"

  /** Lower-casing maps the capital sigma to the small one. */
  lemma CapitalisedGreekLower()
    ensures Lower(CAPITALISED_GREEK) == TODAY_GREEK
  {
    var l := Lower(CAPITALISED_GREEK);
    assert l[0] == LowerChar('\U{03A3}') == '\U{03C3}';
    assert l[1] == LowerChar('\U{03AE}') == '\U{03AE}';
    assert l[2] == LowerChar('\U{03BC}') == '\U{03BC}';
    assert l[3] == LowerChar('\U{03B5}') == '\U{03B5}';
    assert l[4] == LowerChar('\U{03C1}') == '\U{03C1}';
    assert l[5] == LowerChar('\U{03B1}') == '\U{03B1}';
  }

  /** So the capitalised word still names today. */
  lemma CapitalisedGreekMentionsToday()
    ensures Strip(CAPITALISED_GREEK) == CAPITALISED_GREEK
    ensures MentionsToday(CAPITALISED_GREEK)
  {
    StripUnspaced(CAPITALISED_GREEK);
    CapitalisedGreekLower();
    assert TODAY_GREEK <= Lower(CAPITALISED_GREEK);
  }

  /** "Σήμερα", capitalised, is today as an end date. */
  lemma ExampleGreekToday(today: Date)
    requires ValidDate(today)
    ensures ParseDate(CAPITALISED_GREEK, false, today) == Ok(today)
  {
    CapitalisedGreekMentionsToday();
    ParseDateToday(CAPITALISED_GREEK, today);
  }
}
