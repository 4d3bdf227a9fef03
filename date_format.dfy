/** The date normaliser behind `TweetViewmodel.dateString`
    (ViewModal/TimelineViewModal.swift): the stored date is read as an
    Internet date-time (section 5.6 of RFC 3339, the default format of
    Foundation's ISO 8601 formatter: full date, `T`, full time with seconds,
    and a mandatory `Z` or `+hh:mm`/`-hh:mm` offset, no fractional seconds),
    and shown with the pattern `MMM d, yyyy HH:mm` in the display time zone,
    a fixed offset in minutes east of UTC. Unparsable text is shown as is. */
module DateFormat {
  import opened Wrappers
  import opened Decimal
  import opened Calendar

  /** A parsed date-time: the wall-clock time as written and its UTC offset
      in minutes east of UTC. */
  datatype ParsedDate = ParsedDate(local: DateTime, offset: int)

  predicate ValidOffset(offset: int) {
    -(23 * 60 + 59) <= offset <= 23 * 60 + 59
  }

  predicate ValidParsedDate(p: ParsedDate) {
    ValidDateTime(p.local) && ValidOffset(p.offset)
  }

  /** Whether the n characters of s from offset i are all digits. */
  predicate DigitsAt(s: string, i: nat, n: nat)
    requires i + n <= |s|
  {
    AllDigits(s[i..i + n])
  }

  function NumberAt(s: string, i: nat, n: nat): nat
    requires i + n <= |s| && DigitsAt(s, i, n)
  {
    Value(s[i..i + n])
  }

  /** The time-zone designator at offset 19: `Z`, or a sign, two digits of
      hours up to 23, a colon and two digits of minutes up to 59. */
  function ParseOffset(s: string): (r: Option<int>)
    requires |s| >= 20
    ensures r.Some? ==> ValidOffset(r.value)
  {
    if |s| == 20 && s[19] == 'Z' then Some(0)
    else if |s| == 25 && (s[19] == '+' || s[19] == '-') && s[22] == ':'
      && DigitsAt(s, 20, 2) && DigitsAt(s, 23, 2)
      && NumberAt(s, 20, 2) <= 23 && NumberAt(s, 23, 2) <= 59 then
      var minutes := NumberAt(s, 20, 2) * 60 + NumberAt(s, 23, 2);
      Some(if s[19] == '+' then minutes else -minutes)
    else None
  }

  /** `YYYY-MM-DDThh:mm:ss` followed by the time-zone designator, with every
      field in range for the calendar (month 1 to 12, a day the month has,
      hour up to 23, minute and second up to 59). */
  function ParseInternetDateTime(s: string): (r: Option<ParsedDate>)
    ensures r.Some? ==> ValidParsedDate(r.value)
  {
    if |s| < 20 then None
    else if !(s[4] == '-' && s[7] == '-' && s[10] == 'T' && s[13] == ':' && s[16] == ':') then None
    else if !(DigitsAt(s, 0, 4) && DigitsAt(s, 5, 2) && DigitsAt(s, 8, 2)
              && DigitsAt(s, 11, 2) && DigitsAt(s, 14, 2) && DigitsAt(s, 17, 2)) then None
    else
      var t := DateTime(Date(NumberAt(s, 0, 4), NumberAt(s, 5, 2), NumberAt(s, 8, 2)),
                        NumberAt(s, 11, 2), NumberAt(s, 14, 2), NumberAt(s, 17, 2));
      match ParseOffset(s)
      case None => None
      case Some(offset) =>
        if ValidDateTime(t) then Some(ParsedDate(t, offset)) else None
  }

  function OffsetString(offset: int): string
    requires ValidOffset(offset)
  {
    if offset == 0 then "Z"
    else
      var a := if offset < 0 then -offset else offset;
      [if offset < 0 then '-' else '+'] + Padded(a / 60, 2) + ":" + Padded(a % 60, 2)
  }

  lemma Padded2(n: nat)
    requires n < 100
    ensures |Padded(n, 2)| == 2 && Value(Padded(n, 2)) == n
  {
    DigitsBelow100(n);
    ValuePadded(n, 2);
  }

  lemma Padded4(n: nat)
    requires n < 10000
    ensures |Padded(n, 4)| == 4 && Value(Padded(n, 4)) == n
  {
    DigitsBelow10000(n);
    ValuePadded(n, 4);
  }

  lemma ParseOffsetString(prefix: string, offset: int)
    requires |prefix| == 19 && ValidOffset(offset)
    ensures ParseOffset(prefix + OffsetString(offset)) == Some(offset)
  {
    if offset != 0 {
      var a := if offset < 0 then -offset else offset;
      Padded2(a / 60);
      Padded2(a % 60);
      var s := prefix + OffsetString(offset);
      assert s[20..22] == Padded(a / 60, 2);
      assert s[23..25] == Padded(a % 60, 2);
    }
  }

  /** The slices of a concatenation of three parts are the parts. */
  lemma Slices3(a: string, b: string, c: string)
    ensures (a + b + c)[..|a|] == a
    ensures (a + b + c)[|a|..|a| + |b|] == b
    ensures (a + b + c)[|a| + |b|..] == c
  {
  }

  lemma SliceOfSlice(s: string, i: nat, j: nat, a: nat, b: nat)
    requires i <= j <= |s| && a <= b <= j - i
    ensures s[i..j][a..b] == s[i + a..i + b]
  {
    assert forall k :: 0 <= k < b - a ==> s[i..j][a..b][k] == s[i + a..i + b][k];
  }

  function DatePart(t: DateTime): string
    requires ValidDateTime(t) && 0 <= t.date.year
  {
    Padded(t.date.year, 4) + "-" + Padded(t.date.month, 2) + "-" + Padded(t.date.day, 2)
  }

  function TimePart(t: DateTime): string
    requires ValidDateTime(t)
  {
    Padded(t.hour, 2) + ":" + Padded(t.minute, 2) + ":" + Padded(t.second, 2)
  }

  /** The Internet date-time text of a parsed date with a four-digit year:
      `YYYY-MM-DD`, `T`, `hh:mm:ss`, and the offset (`Z` for UTC). */
  function FormatInternetDateTime(p: ParsedDate): (s: string)
    requires ValidParsedDate(p) && 0 <= p.local.date.year <= 9999
  {
    DatePart(p.local) + "T" + TimePart(p.local) + OffsetString(p.offset)
  }

  lemma DatePartFields(t: DateTime)
    requires ValidDateTime(t) && 0 <= t.date.year <= 9999
    ensures var d := DatePart(t);
      |d| == 10 && d[4] == '-' && d[7] == '-'
      && d[0..4] == Padded(t.date.year, 4) && d[5..7] == Padded(t.date.month, 2) && d[8..10] == Padded(t.date.day, 2)
  {
    Padded4(t.date.year);
    Padded2(t.date.month);
    Padded2(t.date.day);
    var y, mo, dd := Padded(t.date.year, 4), Padded(t.date.month, 2), Padded(t.date.day, 2);
    Slices3(y + "-", mo, "-" + dd);
  }

  lemma TimePartFields(t: DateTime)
    requires ValidDateTime(t)
    ensures var d := TimePart(t);
      |d| == 8 && d[2] == ':' && d[5] == ':'
      && d[0..2] == Padded(t.hour, 2) && d[3..5] == Padded(t.minute, 2) && d[6..8] == Padded(t.second, 2)
  {
    Padded2(t.hour);
    Padded2(t.minute);
    Padded2(t.second);
    var h, mi, se := Padded(t.hour, 2), Padded(t.minute, 2), Padded(t.second, 2);
    Slices3(h + ":", mi, ":" + se);
  }

  /** The date fields of a text that starts with the date part of t: the
      separators, and digit runs that read as t's year, month and day. */
  lemma DateFieldsAt(t: DateTime, s: string, rest: string)
    requires ValidDateTime(t) && 0 <= t.date.year <= 9999
    requires s == DatePart(t) + rest
    ensures |s| >= 10 && s[4] == '-' && s[7] == '-'
    ensures DigitsAt(s, 0, 4) && DigitsAt(s, 5, 2) && DigitsAt(s, 8, 2)
    ensures NumberAt(s, 0, 4) == t.date.year && NumberAt(s, 5, 2) == t.date.month
      && NumberAt(s, 8, 2) == t.date.day
  {
    DatePartFields(t);
    Padded4(t.date.year);
    Padded2(t.date.month);
    Padded2(t.date.day);
    var dp := DatePart(t);
    assert s[0..4] == dp[0..4];
    assert s[5..7] == dp[5..7];
    assert s[8..10] == dp[8..10];
  }

  /** The time fields of a text holding the time part of t from offset 11:
      the separators, and digit runs that read as t's hour, minute and
      second. */
  lemma TimeFieldsAt(t: DateTime, s: string, head: string, rest: string)
    requires ValidDateTime(t) && |head| == 11
    requires s == head + TimePart(t) + rest
    ensures |s| >= 19 && s[13] == ':' && s[16] == ':'
    ensures DigitsAt(s, 11, 2) && DigitsAt(s, 14, 2) && DigitsAt(s, 17, 2)
    ensures NumberAt(s, 11, 2) == t.hour && NumberAt(s, 14, 2) == t.minute
      && NumberAt(s, 17, 2) == t.second
  {
    TimePartFields(t);
    Padded2(t.hour);
    Padded2(t.minute);
    Padded2(t.second);
    var tp := TimePart(t);
    assert s[11..13] == tp[0..2];
    assert s[14..16] == tp[3..5];
    assert s[17..19] == tp[6..8];
  }

  /** A text whose separators and digit fields spell the valid t, with a
      designator read as offset, parses as t at offset. */
  lemma ParseFromFields(s: string, t: DateTime, offset: int)
    requires |s| >= 20 && s[4] == '-' && s[7] == '-' && s[10] == 'T' && s[13] == ':' && s[16] == ':'
    requires DigitsAt(s, 0, 4) && DigitsAt(s, 5, 2) && DigitsAt(s, 8, 2)
      && DigitsAt(s, 11, 2) && DigitsAt(s, 14, 2) && DigitsAt(s, 17, 2)
    requires t == DateTime(Date(NumberAt(s, 0, 4), NumberAt(s, 5, 2), NumberAt(s, 8, 2)),
                           NumberAt(s, 11, 2), NumberAt(s, 14, 2), NumberAt(s, 17, 2))
    requires ValidDateTime(t) && ParseOffset(s) == Some(offset)
    ensures ParseInternetDateTime(s) == Some(ParsedDate(t, offset))
  {
  }

  /** The date and time parts of t, `T` between them, then any designator
      that the offset reader takes as `offset`, parse back as t at offset. */
  lemma ParseWithDesignator(t: DateTime, offset: int, z: string)
    requires ValidDateTime(t) && 0 <= t.date.year <= 9999 && ValidOffset(offset)
    requires |z| >= 1 && ParseOffset(DatePart(t) + "T" + TimePart(t) + z) == Some(offset)
    ensures ParseInternetDateTime(DatePart(t) + "T" + TimePart(t) + z) == Some(ParsedDate(t, offset))
  {
    DatePartFields(t);
    TimePartFields(t);
    var dp, tp := DatePart(t), TimePart(t);
    var s := dp + "T" + tp + z;
    assert |dp| == 10 && |tp| == 8 && s[10] == 'T';
    assert s == dp + ("T" + tp + z);
    DateFieldsAt(t, s, "T" + tp + z);
    TimeFieldsAt(t, s, dp + "T", z);
    ParseFromFields(s, t, offset);
  }

  /** Parsing the text of a parsed date gives that date back. */
  lemma ParseFormat(p: ParsedDate)
    requires ValidParsedDate(p) && 0 <= p.local.date.year <= 9999
    ensures ParseInternetDateTime(FormatInternetDateTime(p)) == Some(p)
  {
    var t := p.local;
    DatePartFields(t);
    TimePartFields(t);
    ParseOffsetString(DatePart(t) + "T" + TimePart(t), p.offset);
    ParseWithDesignator(t, p.offset, OffsetString(p.offset));
  }

  /** A zero offset written `+00:00` or `-00:00` also parses. */
  lemma ParseZeroOffsetSpelled(t: DateTime, z: string)
    requires ValidDateTime(t) && 0 <= t.date.year <= 9999
    requires z == "+00:00" || z == "-00:00"
    ensures ParseInternetDateTime(DatePart(t) + "T" + TimePart(t) + z) == Some(ParsedDate(t, 0))
  {
    DatePartFields(t);
    TimePartFields(t);
    var prefix := DatePart(t) + "T" + TimePart(t);
    assert |prefix| == 19;
    ZeroDesignator(prefix, z);
    ParseWithDesignator(t, 0, z);
  }

  /** `+00:00` and `-00:00` after 19 characters read as a zero offset. */
  lemma ZeroDesignator(prefix: string, z: string)
    requires |prefix| == 19 && (z == "+00:00" || z == "-00:00")
    ensures ParseOffset(prefix + z) == Some(0)
  {
    var s := prefix + z;
    assert s[20..22] == z[1..3] == "00";
    assert s[23..25] == z[4..6] == "00";
    assert Value("00") == 0;
  }

  /** A digit field of width n read by the parser is the width-n padded
      numeral of the value it yields. */
  lemma FieldText(s: string, i: nat, n: nat)
    requires i + n <= |s| && 1 <= n && DigitsAt(s, i, n)
    ensures Padded(NumberAt(s, i, n), n) == s[i..i + n]
  {
    PaddedValue(s[i..i + n]);
  }

  /** The fields of a text the parser accepts: its length, separators, digit
      runs, the wall-clock time they spell and the offset read from the
      designator. */
  lemma ParseAccepted(s: string)
    requires ParseInternetDateTime(s).Some?
    ensures var p := ParseInternetDateTime(s).value;
      |s| >= 20 && s[4] == '-' && s[7] == '-' && s[10] == 'T' && s[13] == ':' && s[16] == ':'
      && DigitsAt(s, 0, 4) && DigitsAt(s, 5, 2) && DigitsAt(s, 8, 2)
      && DigitsAt(s, 11, 2) && DigitsAt(s, 14, 2) && DigitsAt(s, 17, 2)
      && p.local == DateTime(Date(NumberAt(s, 0, 4), NumberAt(s, 5, 2), NumberAt(s, 8, 2)),
                             NumberAt(s, 11, 2), NumberAt(s, 14, 2), NumberAt(s, 17, 2))
      && ParseOffset(s) == Some(p.offset)
  {
  }

  /** The first 19 characters of an accepted text are the date and time
      parts of the wall-clock time it yields, joined by `T`. */
  lemma ParsedDateAndTime(s: string)
    requires ParseInternetDateTime(s).Some?
    ensures var t := ParseInternetDateTime(s).value.local;
      t.date.year <= 9999 && s[..19] == DatePart(t) + "T" + TimePart(t)
  {
    ParseAccepted(s);
    var t := ParseInternetDateTime(s).value.local;
    ValueBelow(s[0..4]);
    assert Pow10(4) == 10000;
    FieldText(s, 0, 4);
    FieldText(s, 5, 2);
    FieldText(s, 8, 2);
    FieldText(s, 11, 2);
    FieldText(s, 14, 2);
    FieldText(s, 17, 2);
    assert s[..10] == s[0..4] + "-" + s[5..7] + "-" + s[8..10];
    assert s[11..19] == s[11..13] + ":" + s[14..16] + ":" + s[17..19];
    assert s[..19] == s[..10] + "T" + s[11..19];
  }

  /** Whether z is the formatter's designator for the valid offset, or, for
      a zero offset, `+00:00` or `-00:00`. */
  predicate DesignatorFor(z: string, offset: int) {
    ValidOffset(offset)
    && (z == OffsetString(offset) || (offset == 0 && (z == "+00:00" || z == "-00:00")))
  }

  /** The offset in minutes of `+hh:mm` or `-hh:mm`. */
  function SignedMinutes(sign: char, h: int, m: int): int {
    if sign == '+' then h * 60 + m else -(h * 60 + m)
  }

  /** A `+hh:mm` or `-hh:mm` designator with hh:mm below 24:00 is the
      formatter's text for its offset, or `+00:00`/`-00:00` for zero. */
  lemma SignedDesignator(s: string)
    requires |s| == 25 && (s[19] == '+' || s[19] == '-') && s[22] == ':'
    requires DigitsAt(s, 20, 2) && DigitsAt(s, 23, 2)
    requires NumberAt(s, 20, 2) <= 23 && NumberAt(s, 23, 2) <= 59
    ensures DesignatorFor(s[19..], SignedMinutes(s[19], NumberAt(s, 20, 2), NumberAt(s, 23, 2)))
  {
    DesignatorFields(s);
    DesignatorText(s[19], NumberAt(s, 20, 2), NumberAt(s, 23, 2), s[19..]);
  }

  /** A signed designator is its sign, its two digit fields padded back from
      their values, and the colon between them. */
  lemma DesignatorFields(s: string)
    requires |s| == 25 && s[22] == ':' && DigitsAt(s, 20, 2) && DigitsAt(s, 23, 2)
    ensures s[19..] == [s[19]] + Padded(NumberAt(s, 20, 2), 2) + ":" + Padded(NumberAt(s, 23, 2), 2)
  {
    FieldText(s, 20, 2);
    FieldText(s, 23, 2);
    assert s[19..] == [s[19]] + s[20..22] + ":" + s[23..25];
  }

  /** The designator `sign`, hh, `:`, mm for hh:mm below 24:00. */
  lemma DesignatorText(sign: char, h: nat, m: nat, z: string)
    requires (sign == '+' || sign == '-') && h <= 23 && m <= 59
    requires z == [sign] + Padded(h, 2) + ":" + Padded(m, 2)
    ensures DesignatorFor(z, SignedMinutes(sign, h, m))
  {
    var a := h * 60 + m;
    HoursAndMinutes(h, m);
    if a == 0 {
      assert h == 0 && m == 0;
      assert Padded(0, 2) == "00";
    } else {
      SignedOffsetString(sign, a);
    }
  }

  lemma HoursAndMinutes(h: nat, m: nat)
    requires m < 60
    ensures (h * 60 + m) / 60 == h && (h * 60 + m) % 60 == m
  {
  }

  /** The formatter's designator for a non-zero offset of a minutes, signed
      by `sign`. */
  lemma SignedOffsetString(sign: char, a: int)
    requires (sign == '+' || sign == '-') && 0 < a <= 23 * 60 + 59
    ensures var offset := if sign == '+' then a else -a;
      ValidOffset(offset) && OffsetString(offset) == [sign] + Padded(a / 60, 2) + ":" + Padded(a % 60, 2)
  {
  }

  /** The designator of an accepted text is the one the formatter writes for
      its offset, except that a zero offset may also be written `+00:00` or
      `-00:00`. */
  lemma ParsedDesignator(s: string)
    requires ParseInternetDateTime(s).Some?
    ensures var offset := ParseInternetDateTime(s).value.offset;
      s[19..] == OffsetString(offset)
      || (offset == 0 && (s[19..] == "+00:00" || s[19..] == "-00:00"))
  {
    ParseAccepted(s);
    if |s| == 20 && s[19] == 'Z' {
      assert s[19..] == "Z";
    } else {
      SignedDesignator(s);
    }
  }

  /** The texts the parser accepts are exactly the Internet date-time texts
      of a valid date-time with a four-digit year: its date part, `T`, its
      time part and the formatter's designator, or for a zero offset also
      `+00:00` or `-00:00`. */
  lemma AcceptedTexts(s: string, p: ParsedDate)
    ensures ParseInternetDateTime(s) == Some(p)
      <==> ValidParsedDate(p) && 0 <= p.local.date.year <= 9999
           && (s == FormatInternetDateTime(p)
               || (p.offset == 0 && (s == DatePart(p.local) + "T" + TimePart(p.local) + "+00:00"
                                     || s == DatePart(p.local) + "T" + TimePart(p.local) + "-00:00")))
  {
    if ParseInternetDateTime(s) == Some(p) {
      ParsedDateAndTime(s);
      ParsedDesignator(s);
      assert s == s[..19] + s[19..];
    } else if ValidParsedDate(p) && 0 <= p.local.date.year <= 9999 {
      if s == FormatInternetDateTime(p) {
        ParseFormat(p);
      } else if p.offset == 0 && s == DatePart(p.local) + "T" + TimePart(p.local) + "+00:00" {
        ParseZeroOffsetSpelled(p.local, "+00:00");
      } else if p.offset == 0 && s == DatePart(p.local) + "T" + TimePart(p.local) + "-00:00" {
        ParseZeroOffsetSpelled(p.local, "-00:00");
      }
    }
  }

  // ---- Display: the pattern "MMM d, yyyy HH:mm" ----

  const MonthAbbreviations: seq<string> :=
    ["Jan", "Feb", "Mar", "Apr", "May", "Jun", "Jul", "Aug", "Sep", "Oct", "Nov", "Dec"]

  /** The month whose abbreviation is `abbr`, searching from month i + 1. */
  function MonthFrom(abbr: string, i: nat): (r: Option<int>)
    requires i <= 12
    ensures r.Some? ==> 1 <= r.value <= 12 && MonthAbbreviations[r.value - 1] == abbr
    decreases 12 - i
  {
    if i == 12 then None
    else if MonthAbbreviations[i] == abbr then Some(i + 1)
    else MonthFrom(abbr, i + 1)
  }

  /** Two abbreviations that differ in some letter. */
  predicate Differ(a: string, b: string) {
    |a| == 3 && |b| == 3 && (a[0] != b[0] || a[1] != b[1] || a[2] != b[2])
  }

  /** Looking up the abbreviation of month m from any earlier month finds m. */
  lemma {:induction false} MonthFromFinds(m: int, i: nat)
    requires 1 <= m <= 12 && i <= m - 1
    ensures MonthFrom(MonthAbbreviations[m - 1], i) == Some(m)
    decreases m - 1 - i
  {
    if i < m - 1 {
      assert Differ(MonthAbbreviations[i], MonthAbbreviations[m - 1]);
      MonthFromFinds(m, i + 1);
    }
  }

  /** `yyyy`: the year with at least four digits. */
  function YearString(y: int): string {
    if y >= 0 then Padded(y, 4) else "-" + Padded(-y, 4)
  }

  /** The wall-clock time in the pattern `MMM d, yyyy HH:mm`. */
  function RenderDisplay(t: DateTime): string
    requires ValidDateTime(t)
  {
    MonthAbbreviations[t.date.month - 1] + " " + Digits(t.date.day) + ", " + YearString(t.date.year)
      + " " + Clock(t)
  }

  /** `HH:mm`: two-digit 24-hour hour, a colon, two-digit minute. */
  function Clock(t: DateTime): string
    requires ValidDateTime(t)
  {
    Padded(t.hour, 2) + ":" + Padded(t.minute, 2)
  }

  /** What a display string shows: month, day, year, hour and minute. */
  datatype DisplayFields = DisplayFields(month: int, day: int, year: int, hour: int, minute: int)

  function FieldsOf(t: DateTime): DisplayFields {
    DisplayFields(t.date.month, t.date.day, t.date.year, t.hour, t.minute)
  }

  /** Reads a display string with a four-digit year back into its fields: a
      month abbreviation, a space, a day of one or two digits, a comma and a
      space, four digits of year, a space, two digits of hour, a colon and two
      digits of minute. */
  function ParseDisplay(s: string): Option<DisplayFields> {
    if !(|s| == 17 || |s| == 18) then None
    else
      var d := |s| - 16;
      if !(s[3] == ' ' && s[4 + d] == ',' && s[5 + d] == ' ' && s[10 + d] == ' ' && s[13 + d] == ':') then None
      else if !(DigitsAt(s, 4, d) && DigitsAt(s, 6 + d, 4) && DigitsAt(s, 11 + d, 2) && DigitsAt(s, 14 + d, 2)) then None
      else if d == 2 && s[4] == '0' then None
      else
        match MonthFrom(s[..3], 0)
        case None => None
        case Some(m) =>
          Some(DisplayFields(m, NumberAt(s, 4, d), NumberAt(s, 6 + d, 4), NumberAt(s, 11 + d, 2), NumberAt(s, 14 + d, 2)))
  }

  /** A run of digits x found at offset i of s is a digit field there, and
      reads as the value of x. */
  lemma FieldAt(s: string, i: nat, x: string)
    requires i + |x| <= |s| && s[i..i + |x|] == x && AllDigits(x)
    ensures DigitsAt(s, i, |x|) && NumberAt(s, i, |x|) == Value(x)
  {
  }

  /** A string whose separators, month abbreviation and digit fields spell
      the fields f reads back as f. */
  lemma ParseFromDisplayFields(s: string, d: nat, f: DisplayFields)
    requires (d == 1 || d == 2) && |s| == 16 + d
    requires s[3] == ' ' && s[4 + d] == ',' && s[5 + d] == ' ' && s[10 + d] == ' ' && s[13 + d] == ':'
    requires DigitsAt(s, 4, d) && DigitsAt(s, 6 + d, 4) && DigitsAt(s, 11 + d, 2) && DigitsAt(s, 14 + d, 2)
    requires d == 2 ==> s[4] != '0'
    requires MonthFrom(s[..3], 0) == Some(f.month)
    requires f == DisplayFields(f.month, NumberAt(s, 4, d), NumberAt(s, 6 + d, 4),
                                NumberAt(s, 11 + d, 2), NumberAt(s, 14 + d, 2))
    ensures ParseDisplay(s) == Some(f)
  {
  }

  /** A string laid out as a display string reads back as its fields. */
  lemma ParseDisplayLayout(s: string, t: DateTime, d: nat)
    requires ValidDateTime(t) && 0 <= t.date.year <= 9999
    requires d == |Digits(t.date.day)| && |s| == 16 + d
    requires s[..3] == MonthAbbreviations[t.date.month - 1]
    requires s[3] == ' ' && s[4 + d] == ',' && s[5 + d] == ' ' && s[10 + d] == ' ' && s[13 + d] == ':'
    requires s[4..4 + d] == Digits(t.date.day)
    requires s[6 + d..10 + d] == Padded(t.date.year, 4)
    requires s[11 + d..13 + d] == Padded(t.hour, 2)
    requires s[14 + d..16 + d] == Padded(t.minute, 2)
    ensures ParseDisplay(s) == Some(FieldsOf(t))
  {
    ValueOfDigits(t.date.day);
    DigitsBelow100(t.date.day);
    Padded4(t.date.year);
    Padded2(t.hour);
    Padded2(t.minute);
    MonthFromFinds(t.date.month, 0);
    FieldAt(s, 4, Digits(t.date.day));
    FieldAt(s, 6 + d, Padded(t.date.year, 4));
    FieldAt(s, 11 + d, Padded(t.hour, 2));
    FieldAt(s, 14 + d, Padded(t.minute, 2));
    assert d == 2 ==> s[4] == Digits(t.date.day)[0];
    ParseFromDisplayFields(s, d, FieldsOf(t));
  }

  /** The rendering of t: the month abbreviation, a space, the unpadded day,
      a comma and a space, the year, a space and the clock, at the offsets
      the display reader expects. */
  lemma RenderedLayout(t: DateTime)
    requires ValidDateTime(t) && 0 <= t.date.year <= 9999
    ensures var s, d := RenderDisplay(t), |Digits(t.date.day)|;
      |s| == 16 + d
      && s[..3] == MonthAbbreviations[t.date.month - 1]
      && s[3] == ' ' && s[4 + d] == ',' && s[5 + d] == ' ' && s[10 + d] == ' '
      && s[4..4 + d] == Digits(t.date.day)
      && s[6 + d..10 + d] == Padded(t.date.year, 4)
      && s[11 + d..] == Clock(t)
  {
    var day := Digits(t.date.day);
    DigitsBelow100(t.date.day);
    Padded4(t.date.year);
    ClockLayout(t);
    var mon := MonthAbbreviations[t.date.month - 1];
    var year := Padded(t.date.year, 4);
    var s := RenderDisplay(t);
    var head := mon + " " + day + ", ";
    assert |mon| == 3;
    assert s == head + year + " " + Clock(t);
    Slices3(head, year, " " + Clock(t));
    Slices3(mon + " ", day, ", ");
  }

  /** `HH:mm` is five characters: two digits of hour, a colon and two digits
      of minute. */
  lemma ClockLayout(t: DateTime)
    requires ValidDateTime(t)
    ensures var c := Clock(t);
      |c| == 5 && c[..2] == Padded(t.hour, 2) && c[2] == ':' && c[3..] == Padded(t.minute, 2)
  {
    Padded2(t.hour);
    Padded2(t.minute);
    Slices3(Padded(t.hour, 2), ":", Padded(t.minute, 2));
  }

  /** The clock of t at the end of a display string whose day has d digits. */
  lemma ClockAt(s: string, d: nat, t: DateTime)
    requires ValidDateTime(t) && |s| == 16 + d && s[11 + d..] == Clock(t)
    ensures s[11 + d..13 + d] == Padded(t.hour, 2) && s[13 + d] == ':'
      && s[14 + d..16 + d] == Padded(t.minute, 2)
  {
    ClockLayout(t);
    var c := s[11 + d..];
    assert s[11 + d..13 + d] == c[..2];
    assert s[14 + d..16 + d] == c[3..];
  }

  /** The rendering of t is laid out as the display reader expects. */
  lemma RenderedFields(t: DateTime, s: string, d: nat)
    requires ValidDateTime(t) && 0 <= t.date.year <= 9999
    requires s == RenderDisplay(t) && d == |Digits(t.date.day)|
    ensures |s| == 16 + d
    ensures s[..3] == MonthAbbreviations[t.date.month - 1]
    ensures s[3] == ' ' && s[4 + d] == ',' && s[5 + d] == ' ' && s[10 + d] == ' ' && s[13 + d] == ':'
    ensures s[4..4 + d] == Digits(t.date.day)
    ensures s[6 + d..10 + d] == Padded(t.date.year, 4)
    ensures s[11 + d..13 + d] == Padded(t.hour, 2)
    ensures s[14 + d..16 + d] == Padded(t.minute, 2)
  {
    RenderedLayout(t);
    ClockAt(s, d, t);
  }

  /** A rendered wall-clock time with a four-digit year reads back as its
      month, day, year, hour and minute. */
  lemma ParseRenderDisplay(t: DateTime)
    requires ValidDateTime(t) && 0 <= t.date.year <= 9999
    ensures ParseDisplay(RenderDisplay(t)) == Some(FieldsOf(t))
  {
    var s, d := RenderDisplay(t), |Digits(t.date.day)|;
    RenderedFields(t, s, d);
    ParseDisplayLayout(s, t, d);
  }

  /** The wall-clock time in the display zone of the instant a parsed date
      denotes; its instant is the parsed one, and its second is kept. */
  function WallClock(p: ParsedDate, zone: int): (t: DateTime)
    requires ValidParsedDate(p)
    ensures ValidDateTime(t) && t.second == p.local.second
    ensures InstantMinute(t, zone) == InstantMinute(p.local, p.offset)
  {
    ShiftKeepsInstant(p.local, p.offset, zone - p.offset);
    ShiftMinutes(p.local, zone - p.offset)
  }

  /** `dateString`: the stored text shown in the display zone, or the text
      itself when it is not an Internet date-time. */
  function DisplayDate(raw: string, zone: int): (r: string)
    ensures ParseInternetDateTime(raw).None? ==> r == raw
  {
    match ParseInternetDateTime(raw)
    case None => raw
    case Some(p) => RenderDisplay(WallClock(p, zone))
  }

  /** On a successful parse the display string shows the month, day, year,
      hour and minute of a wall-clock time in the display zone that denotes
      the parsed instant; and those are the fields of every valid wall-clock
      time that denotes that instant in the display zone, so the shown date is
      the only one possible. */
  lemma DisplayDateShowsInstant(raw: string, zone: int)
    requires ParseInternetDateTime(raw).Some?
    requires 0 <= WallClock(ParseInternetDateTime(raw).value, zone).date.year <= 9999
    ensures var p := ParseInternetDateTime(raw).value;
            var t := WallClock(p, zone);
            ParseDisplay(DisplayDate(raw, zone)) == Some(FieldsOf(t))
            && InstantMinute(t, zone) == InstantMinute(p.local, p.offset)
    ensures var p := ParseInternetDateTime(raw).value;
            forall u :: ValidDateTime(u) && InstantMinute(u, zone) == InstantMinute(p.local, p.offset)
              ==> ParseDisplay(DisplayDate(raw, zone)) == Some(FieldsOf(u))
  {
    var p := ParseInternetDateTime(raw).value;
    var t := WallClock(p, zone);
    ParseRenderDisplay(t);
    forall u | ValidDateTime(u) && InstantMinute(u, zone) == InstantMinute(p.local, p.offset)
      ensures FieldsOf(u) == FieldsOf(t)
    {
      InstantMinuteInjective(u, t, zone);
    }
  }

  /** When the display zone is the zone the text was written in, the display
      shows the written wall-clock time. */
  lemma DisplayInWrittenZone(raw: string)
    requires ParseInternetDateTime(raw).Some?
    ensures var p := ParseInternetDateTime(raw).value;
            DisplayDate(raw, p.offset) == RenderDisplay(p.local)
  {
    var p := ParseInternetDateTime(raw).value;
    ShiftZero(p.local);
    assert WallClock(p, p.offset) == p.local;
  }
}
