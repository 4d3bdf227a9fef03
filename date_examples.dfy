/** Worked instances of the date display: the date of the first post of the
    bundled timeline, shown in its own zone and in UTC, a time whose display
    rolls over into the next year, and a text that is not a date. */
module DateExamples {
  import opened Wrappers
  import opened Decimal
  import opened Calendar
  import opened DateFormat

  const FirstPostLocal := DateTime(Date(2020, 9, 29), 14, 41, 0)

  /** The last half hour of 2020 at offset -08:00. */
  const NewYearLocal := DateTime(Date(2020, 12, 31), 23, 30, 0)

  /** The date of the first post of the bundled timeline. */
  const FirstPostDate: string := "2020-09-29T14:41:00-08:00"

  const NewYearDate: string := "2020-12-31T23:30:00-08:00"

  lemma Year2020()
    ensures Padded(2020, 4) == "2020"
  {
    assert Digits(2020) == "2020";
  }

  lemma FirstPostDatePart()
    ensures DatePart(FirstPostLocal) == "2020-09-29"
  {
    Year2020();
    assert Padded(9, 2) == "09";
    assert Padded(29, 2) == "29";
  }

  lemma FirstPostTimePart()
    ensures TimePart(FirstPostLocal) == "14:41:00"
  {
    assert Padded(14, 2) == "14";
    assert Padded(41, 2) == "41";
    assert Padded(0, 2) == "00";
  }

  lemma PacificOffset()
    ensures OffsetString(-480) == "-08:00"
  {
    assert Padded(8, 2) == "08";
    assert Padded(0, 2) == "00";
  }

  lemma FirstPostText()
    ensures FormatInternetDateTime(ParsedDate(FirstPostLocal, -480)) == FirstPostDate
  {
    FirstPostDatePart();
    FirstPostTimePart();
    PacificOffset();
  }

  lemma FirstPostParses()
    ensures ParseInternetDateTime(FirstPostDate) == Some(ParsedDate(FirstPostLocal, -480))
  {
    FirstPostText();
    ParseFormat(ParsedDate(FirstPostLocal, -480));
  }

  /** The display of a text that parses as p is the rendering of p's wall
      clock in the display zone. */
  lemma DisplayOfParsed(raw: string, p: ParsedDate, zone: int)
    requires ParseInternetDateTime(raw) == Some(p)
    ensures ValidParsedDate(p) && DisplayDate(raw, zone) == RenderDisplay(WallClock(p, zone))
  {
  }

  lemma RenderSep29(hour: int, minute: int, clock: string)
    requires 0 <= hour < 24 && 0 <= minute < 60
    requires Padded(hour, 2) + ":" + Padded(minute, 2) == clock
    ensures RenderDisplay(DateTime(Date(2020, 9, 29), hour, minute, 0)) == "Sep 29, 2020 " + clock
  {
    var t := DateTime(Date(2020, 9, 29), hour, minute, 0);
    Year2020();
    assert Digits(29) == "29";
    assert Clock(t) == clock;
    assert MonthAbbreviations[8] == "Sep";
    assert YearString(2020) == "2020";
    assert RenderDisplay(t) == "Sep" + " " + "29" + ", " + "2020" + " " + clock;
    assert "Sep" + " " + "29" + ", " + "2020" + " " == "Sep 29, 2020 ";
  }

  lemma FirstPostOwnWallClock()
    ensures WallClock(ParsedDate(FirstPostLocal, -480), -480) == FirstPostLocal
  {
    ShiftZero(FirstPostLocal);
  }

  /** Shown at offset -08:00, the zone it was written in. */
  lemma FirstPostInItsZone()
    ensures DisplayDate(FirstPostDate, -480) == "Sep 29, 2020 14:41"
  {
    FirstPostParses();
    DisplayOfParsed(FirstPostDate, ParsedDate(FirstPostLocal, -480), -480);
    FirstPostOwnWallClock();
    assert Padded(14, 2) + ":" + Padded(41, 2) == "14:41" by {
      assert Padded(14, 2) == "14";
      assert Padded(41, 2) == "41";
    }
    RenderSep29(14, 41, "14:41");
  }

  lemma FirstPostUtcWallClock()
    ensures WallClock(ParsedDate(FirstPostLocal, -480), 0) == DateTime(Date(2020, 9, 29), 22, 41, 0)
  {
    var total := 14 * 60 + 41 + 480;
    assert total == 1361 && total / MinutesPerDay == 0 && total % MinutesPerDay == 1361;
    assert 1361 / 60 == 22 && 1361 % 60 == 41;
  }

  /** Shown in UTC, eight hours later on the same day. */
  lemma FirstPostInUtc()
    ensures DisplayDate(FirstPostDate, 0) == "Sep 29, 2020 22:41"
  {
    FirstPostParses();
    DisplayOfParsed(FirstPostDate, ParsedDate(FirstPostLocal, -480), 0);
    FirstPostUtcWallClock();
    assert Padded(22, 2) + ":" + Padded(41, 2) == "22:41" by {
      assert Padded(22, 2) == "22";
      assert Padded(41, 2) == "41";
    }
    RenderSep29(22, 41, "22:41");
  }

  lemma NewYearDatePart()
    ensures DatePart(NewYearLocal) == "2020-12-31"
  {
    Year2020();
    assert Padded(12, 2) == "12";
    assert Padded(31, 2) == "31";
  }

  lemma NewYearTimePart()
    ensures TimePart(NewYearLocal) == "23:30:00"
  {
    assert Padded(23, 2) == "23";
    assert Padded(30, 2) == "30";
    assert Padded(0, 2) == "00";
  }

  lemma NewYearText()
    ensures FormatInternetDateTime(ParsedDate(NewYearLocal, -480)) == NewYearDate
  {
    NewYearDatePart();
    NewYearTimePart();
    PacificOffset();
  }

  lemma NewYearParses()
    ensures ParseInternetDateTime(NewYearDate) == Some(ParsedDate(NewYearLocal, -480))
  {
    NewYearText();
    ParseFormat(ParsedDate(NewYearLocal, -480));
  }

  /** Eight hours after 23:30 on December 31 is 07:30 on January 1 of the
      next year. */
  lemma NewYearUtcWallClock()
    ensures WallClock(ParsedDate(NewYearLocal, -480), 0) == DateTime(Date(2021, 1, 1), 7, 30, 0)
  {
    var total := 23 * 60 + 30 + 480;
    assert total == 1890 && total / MinutesPerDay == 1 && total % MinutesPerDay == 450;
    assert 450 / 60 == 7 && 450 % 60 == 30;
    assert AddDays(Date(2020, 12, 31), 1) == Date(2021, 1, 1);
  }

  lemma RenderJan1Of2021()
    ensures RenderDisplay(DateTime(Date(2021, 1, 1), 7, 30, 0)) == "Jan 1, 2021 07:30"
  {
    assert Padded(7, 2) == "07";
    assert Padded(30, 2) == "30";
    assert Digits(2021) == "2021";
    assert Digits(1) == "1";
  }

  /** Shown in UTC, the display rolls over into the next year. */
  lemma NewYearInUtc()
    ensures DisplayDate(NewYearDate, 0) == "Jan 1, 2021 07:30"
  {
    NewYearParses();
    DisplayOfParsed(NewYearDate, ParsedDate(NewYearLocal, -480), 0);
    NewYearUtcWallClock();
    RenderJan1Of2021();
  }

  /** Text that is not an Internet date-time is shown unchanged. */
  lemma NotADate(zone: int)
    ensures DisplayDate("not-a-date", zone) == "not-a-date"
  {
  }

  /** A date without an offset does not parse, so it is shown unchanged. */
  lemma NoOffset(zone: int)
    ensures DisplayDate("2020-09-29T14:41:00", zone) == "2020-09-29T14:41:00"
  {
  }
}
