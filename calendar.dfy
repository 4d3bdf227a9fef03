/** Gregorian calendar arithmetic for the date display: leap years, the
    lengths of months, stepping a date by days, and moving a wall-clock time
    by a number of minutes with the day, month and year rolling over. */
module Calendar {

  predicate IsLeapYear(y: int) {
    y % 4 == 0 && (y % 100 != 0 || y % 400 == 0)
  }

  function DaysInMonth(y: int, m: int): (n: int)
    requires 1 <= m <= 12
    ensures 28 <= n <= 31
    ensures m == 2 ==> (n == 29 <==> IsLeapYear(y))
  {
    if m == 2 then (if IsLeapYear(y) then 29 else 28)
    else if m == 4 || m == 6 || m == 9 || m == 11 then 30
    else 31
  }

  datatype Date = Date(year: int, month: int, day: int)

  predicate ValidDate(d: Date) {
    1 <= d.month <= 12 && 1 <= d.day <= DaysInMonth(d.year, d.month)
  }

  /** A wall-clock time: a date, and the hour, minute and second of that day. */
  datatype DateTime = DateTime(date: Date, hour: int, minute: int, second: int)

  predicate ValidDateTime(t: DateTime) {
    ValidDate(t.date) && 0 <= t.hour < 24 && 0 <= t.minute < 60 && 0 <= t.second < 60
  }

  function NextDay(d: Date): (r: Date)
    requires ValidDate(d)
    ensures ValidDate(r)
  {
    if d.day < DaysInMonth(d.year, d.month) then Date(d.year, d.month, d.day + 1)
    else if d.month < 12 then Date(d.year, d.month + 1, 1)
    else Date(d.year + 1, 1, 1)
  }

  function PrevDay(d: Date): (r: Date)
    requires ValidDate(d)
    ensures ValidDate(r)
  {
    if d.day > 1 then Date(d.year, d.month, d.day - 1)
    else if d.month > 1 then Date(d.year, d.month - 1, DaysInMonth(d.year, d.month - 1))
    else Date(d.year - 1, 12, 31)
  }

  lemma PrevNext(d: Date)
    requires ValidDate(d)
    ensures PrevDay(NextDay(d)) == d
  {
  }

  lemma NextPrev(d: Date)
    requires ValidDate(d)
    ensures NextDay(PrevDay(d)) == d
  {
  }

  /** The date n days after d (before it, for negative n). */
  function AddDays(d: Date, n: int): (r: Date)
    requires ValidDate(d)
    ensures ValidDate(r)
    decreases if n < 0 then -n else n
  {
    if n == 0 then d
    else if n > 0 then AddDays(NextDay(d), n - 1)
    else AddDays(PrevDay(d), n + 1)
  }

  /** Independent reference for the calendar: the number of leap years among
      the years from 0 up to, but not including, y (negated below 0). */
  function LeapYearsBefore(y: int): int {
    (y + 3) / 4 - (y + 99) / 100 + (y + 399) / 400
  }

  function DaysBeforeMonth(y: int, m: int): int
    requires 1 <= m <= 12
  {
    if m == 1 then 0 else DaysBeforeMonth(y, m - 1) + DaysInMonth(y, m - 1)
  }

  /** The day number of a date, counted from 0000-01-01 in the proleptic
      Gregorian calendar. */
  function DayNumber(d: Date): int
    requires ValidDate(d)
  {
    365 * d.year + LeapYearsBefore(d.year) + DaysBeforeMonth(d.year, d.month) + d.day - 1
  }

  /** Crossing a multiple of 4 raises the quotient by 4 by one. */
  lemma QuotientStep4(y: int)
    ensures (y + 4) / 4 - (y + 3) / 4 == if y % 4 == 0 then 1 else 0
  {
    assert y == 4 * (y / 4) + y % 4;
  }

  lemma QuotientStep100(y: int)
    ensures (y + 100) / 100 - (y + 99) / 100 == if y % 100 == 0 then 1 else 0
  {
    assert y == 100 * (y / 100) + y % 100;
  }

  lemma QuotientStep400(y: int)
    ensures (y + 400) / 400 - (y + 399) / 400 == if y % 400 == 0 then 1 else 0
  {
    assert y == 400 * (y / 400) + y % 400;
  }

  /** A multiple of 400 is a multiple of 100, and a multiple of 100 is a
      multiple of 4. */
  lemma MultipleOf400(y: int)
    requires y % 400 == 0
    ensures y % 100 == 0
  {
    assert y == 100 * (4 * (y / 400));
  }

  lemma MultipleOf100(y: int)
    requires y % 100 == 0
    ensures y % 4 == 0
  {
    assert y == 4 * (25 * (y / 100));
  }

  lemma LeapYearsStep(y: int)
    ensures LeapYearsBefore(y + 1) == LeapYearsBefore(y) + (if IsLeapYear(y) then 1 else 0)
  {
    QuotientStep4(y);
    QuotientStep100(y);
    QuotientStep400(y);
    var step := LeapYearsBefore(y + 1) - LeapYearsBefore(y);
    if y % 400 == 0 {
      MultipleOf400(y);
      MultipleOf100(y);
      assert IsLeapYear(y) && step == 1 - 1 + 1;
    } else if y % 100 == 0 {
      MultipleOf100(y);
      assert !IsLeapYear(y) && step == 1 - 1 + 0;
    } else if y % 4 == 0 {
      assert IsLeapYear(y) && step == 1 - 0 + 0;
    } else {
      assert !IsLeapYear(y) && step == 0;
    }
  }

  lemma DaysInYear(y: int)
    ensures DaysBeforeMonth(y, 12) + 31 == if IsLeapYear(y) then 366 else 365
  {
    var feb := DaysInMonth(y, 2);
    assert DaysBeforeMonth(y, 2) == 31;
    assert DaysBeforeMonth(y, 3) == 31 + feb;
    assert DaysBeforeMonth(y, 4) == 62 + feb;
    assert DaysBeforeMonth(y, 5) == 92 + feb;
    assert DaysBeforeMonth(y, 6) == 123 + feb;
    assert DaysBeforeMonth(y, 7) == 153 + feb;
    assert DaysBeforeMonth(y, 8) == 184 + feb;
    assert DaysBeforeMonth(y, 9) == 215 + feb;
    assert DaysBeforeMonth(y, 10) == 245 + feb;
    assert DaysBeforeMonth(y, 11) == 276 + feb;
    assert DaysBeforeMonth(y, 12) == 306 + feb;
  }

  /** The next day is the day whose number is one greater. */
  lemma NextDayNumber(d: Date)
    requires ValidDate(d)
    ensures DayNumber(NextDay(d)) == DayNumber(d) + 1
  {
    if d.day == DaysInMonth(d.year, d.month) && d.month == 12 {
      LeapYearsStep(d.year);
      DaysInYear(d.year);
    }
  }

  lemma PrevDayNumber(d: Date)
    requires ValidDate(d)
    ensures DayNumber(PrevDay(d)) == DayNumber(d) - 1
  {
    NextPrev(d);
    NextDayNumber(PrevDay(d));
  }

  /** The day number of January 1 of year y. */
  function YearStart(y: int): int {
    365 * y + LeapYearsBefore(y)
  }

  /** The next year starts as many days later as this year has. */
  lemma YearStartStep(y: int)
    ensures YearStart(y + 1) == YearStart(y) + DaysBeforeMonth(y, 12) + 31
  {
    LeapYearsStep(y);
    DaysInYear(y);
  }

  /** Every later year starts after the whole of year a. */
  lemma {:induction false} YearStartAfter(a: int, b: int)
    requires a < b
    ensures YearStart(a) + DaysBeforeMonth(a, 12) + 31 <= YearStart(b)
    decreases b - a
  {
    YearStartStep(a);
    if a + 1 < b {
      YearStartAfter(a + 1, b);
      DaysInYear(a + 1);
    }
  }

  /** Every later month of a year starts after the whole of month m1. */
  lemma {:induction false} MonthStartAfter(y: int, m1: int, m2: int)
    requires 1 <= m1 < m2 <= 12
    ensures DaysBeforeMonth(y, m1) + DaysInMonth(y, m1) <= DaysBeforeMonth(y, m2)
    decreases m2
  {
    if m1 + 1 < m2 {
      MonthStartAfter(y, m1, m2 - 1);
    }
  }

  /** A valid date lies inside its year: its day number is at least the
      year's start and below the next year's start. */
  lemma DayNumberInYear(d: Date)
    requires ValidDate(d)
    ensures YearStart(d.year) <= DayNumber(d) < YearStart(d.year) + DaysBeforeMonth(d.year, 12) + 31
  {
    if d.month > 1 {
      MonthStartAfter(d.year, 1, d.month);
    }
    if d.month < 12 {
      MonthStartAfter(d.year, d.month, 12);
    }
  }

  /** d1 comes before d2 in calendar order. */
  predicate Precedes(d1: Date, d2: Date) {
    d1.year < d2.year
    || (d1.year == d2.year && (d1.month < d2.month || (d1.month == d2.month && d1.day < d2.day)))
  }

  /** Day numbers follow calendar order. */
  lemma DayNumberOrder(d1: Date, d2: Date)
    requires ValidDate(d1) && ValidDate(d2) && Precedes(d1, d2)
    ensures DayNumber(d1) < DayNumber(d2)
  {
    if d1.year < d2.year {
      DayNumberInYear(d1);
      DayNumberInYear(d2);
      YearStartAfter(d1.year, d2.year);
    } else if d1.month < d2.month {
      MonthStartAfter(d1.year, d1.month, d2.month);
    }
  }

  /** Two valid dates have the same day number exactly when they are the
      same date. */
  lemma DayNumberInjective(a: Date, b: Date)
    requires ValidDate(a) && ValidDate(b)
    ensures DayNumber(a) == DayNumber(b) <==> a == b
  {
    if a != b {
      if Precedes(a, b) {
        DayNumberOrder(a, b);
      } else {
        DayNumberOrder(b, a);
      }
    }
  }

  /** Stepping n days moves the day number by exactly n. */
  lemma {:induction false} AddDaysNumber(d: Date, n: int)
    requires ValidDate(d)
    ensures DayNumber(AddDays(d, n)) == DayNumber(d) + n
    decreases if n < 0 then -n else n
  {
    if n > 0 {
      NextDayNumber(d);
      AddDaysNumber(NextDay(d), n - 1);
    } else if n < 0 {
      PrevDayNumber(d);
      AddDaysNumber(PrevDay(d), n + 1);
    }
  }

  lemma AddDaysAfterNext(d: Date, n: int)
    requires ValidDate(d)
    ensures AddDays(NextDay(d), n) == AddDays(d, n + 1)
  {
    if n < 0 {
      PrevNext(d);
    }
  }

  lemma AddDaysAfterPrev(d: Date, n: int)
    requires ValidDate(d)
    ensures AddDays(PrevDay(d), n) == AddDays(d, n - 1)
  {
    if n > 0 {
      NextPrev(d);
    }
  }

  /** Stepping a days and then b days is stepping a + b days. */
  lemma {:induction false} AddDaysAdd(d: Date, a: int, b: int)
    requires ValidDate(d)
    ensures AddDays(AddDays(d, a), b) == AddDays(d, a + b)
    decreases if a < 0 then -a else a
  {
    if a > 0 {
      AddDaysAdd(NextDay(d), a - 1, b);
      AddDaysAfterNext(d, a - 1 + b);
    } else if a < 0 {
      AddDaysAdd(PrevDay(d), a + 1, b);
      AddDaysAfterPrev(d, a + 1 + b);
    }
  }

  const MinutesPerDay: int := 1440

  /** The wall-clock time delta minutes after t (before it, for negative
      delta); the second is kept. */
  function ShiftMinutes(t: DateTime, delta: int): (r: DateTime)
    requires ValidDateTime(t)
    ensures ValidDateTime(r) && r.second == t.second
  {
    var total := t.hour * 60 + t.minute + delta;
    var rest := total % MinutesPerDay;
    DateTime(AddDays(t.date, total / MinutesPerDay), rest / 60, rest % 60, t.second)
  }

  /** The minute, counted from 0000-01-01T00:00 UTC, of the wall-clock time t
      read at a UTC offset of the given number of minutes. */
  function InstantMinute(t: DateTime, offset: int): int
    requires ValidDateTime(t)
  {
    DayNumber(t.date) * MinutesPerDay + t.hour * 60 + t.minute - offset
  }

  /** Two valid wall-clock times read at the same offset denote the same
      minute exactly when their dates, hours and minutes agree. */
  lemma InstantMinuteInjective(t1: DateTime, t2: DateTime, offset: int)
    requires ValidDateTime(t1) && ValidDateTime(t2)
    ensures InstantMinute(t1, offset) == InstantMinute(t2, offset)
            <==> t1.date == t2.date && t1.hour == t2.hour && t1.minute == t2.minute
  {
    DayNumberInjective(t1.date, t2.date);
    var n1, n2 := DayNumber(t1.date), DayNumber(t2.date);
    if n1 < n2 {
      assert n1 * MinutesPerDay + MinutesPerDay <= n2 * MinutesPerDay;
    } else if n2 < n1 {
      assert n2 * MinutesPerDay + MinutesPerDay <= n1 * MinutesPerDay;
    }
  }

  /** Moving the wall clock by delta minutes while moving the UTC offset by the
      same amount denotes the same instant. */
  lemma ShiftKeepsInstant(t: DateTime, offset: int, delta: int)
    requires ValidDateTime(t)
    ensures InstantMinute(ShiftMinutes(t, delta), offset + delta) == InstantMinute(t, offset)
  {
    var total := t.hour * 60 + t.minute + delta;
    AddDaysNumber(t.date, total / MinutesPerDay);
    var rest := total % MinutesPerDay;
    assert rest / 60 * 60 + rest % 60 == rest;
    assert total / MinutesPerDay * MinutesPerDay + rest == total;
  }

  /** Shifting by a and then by b is shifting by a + b. */
  lemma ShiftAdd(t: DateTime, a: int, b: int)
    requires ValidDateTime(t)
    ensures ShiftMinutes(ShiftMinutes(t, a), b) == ShiftMinutes(t, a + b)
  {
    var total := t.hour * 60 + t.minute + a;
    var rest := total % MinutesPerDay;
    assert rest / 60 * 60 + rest % 60 == rest;
    var total2 := rest + b;
    assert total + b == total / MinutesPerDay * MinutesPerDay + total2;
    assert (total + b) / MinutesPerDay == total / MinutesPerDay + total2 / MinutesPerDay;
    assert (total + b) % MinutesPerDay == total2 % MinutesPerDay;
    AddDaysAdd(t.date, total / MinutesPerDay, total2 / MinutesPerDay);
  }

  /** Shifting by zero minutes changes nothing. */
  lemma ShiftZero(t: DateTime)
    requires ValidDateTime(t)
    ensures ShiftMinutes(t, 0) == t
  {
    var total := t.hour * 60 + t.minute;
    assert total / MinutesPerDay == 0 && total % MinutesPerDay == total;
    assert total / 60 == t.hour && total % 60 == t.minute;
  }

  /** Shifting forward and back again restores the time. */
  lemma ShiftRoundTrip(t: DateTime, delta: int)
    requires ValidDateTime(t)
    ensures ShiftMinutes(ShiftMinutes(t, delta), -delta) == t
  {
    ShiftAdd(t, delta, -delta);
    ShiftZero(t);
  }
}
