/** Date-times written with the fixed pattern `%d/%m/%Y %H:%M:%S`
    ("25/12/2023 14:30:00"): the reading the transform applies to the
    `datehour` column, and the writing that reading inverts. */
module DateTimes {
  import opened Cells
  import opened Text

  datatype DateTime = DateTime(year: nat, month: nat, day: nat, hour: nat, minute: nat, second: nat)

  /** The date-time stored for a missing `date_hour` after `fillna(0)`:
      `to_datetime(0)` is the Unix epoch. */
  const EPOCH: DateTime := DateTime(1970, 1, 1, 0, 0, 0)

  predicate IsLeapYear(year: nat)
  {
    year % 4 == 0 && (year % 100 != 0 || year % 400 == 0)
  }

  function DaysInMonth(year: nat, month: nat): nat
  {
    if month == 2 then (if IsLeapYear(year) then 29 else 28)
    else if month == 4 || month == 6 || month == 9 || month == 11 then 30
    else 31
  }

  /** Position of a date-time in time order, at a one-second resolution. */
  function Instant(d: DateTime): int
  {
    ((((d.year * 13 + d.month) * 32 + d.day) * 24 + d.hour) * 60 + d.minute) * 60 + d.second
  }

  /** The first and the last whole second a nanosecond pandas timestamp can
      hold (1677-09-21 00:12:43.145224193 to 2262-04-11 23:47:16.854775807). */
  const FIRST_TIMESTAMP: DateTime := DateTime(1677, 9, 21, 0, 12, 44)
  const LAST_TIMESTAMP: DateTime := DateTime(2262, 4, 11, 23, 47, 16)

  /** A calendar date-time that a pandas timestamp can represent. */
  predicate ValidDateTime(d: DateTime)
  {
    && 1 <= d.month <= 12
    && 1 <= d.day <= DaysInMonth(d.year, d.month)
    && d.hour < 24 && d.minute < 60 && d.second < 60
    && Instant(FIRST_TIMESTAMP) <= Instant(d) <= Instant(LAST_TIMESTAMP)
  }

  /** The six fields of a date-time laid out as "DD/MM/YYYY HH:MM:SS". */
  function Layout(day: string, month: string, year: string, hour: string, minute: string, second: string): string
  {
    day + "/" + month + "/" + year + " " + hour + ":" + minute + ":" + second
  }

  /** Writes `d` with the fixed pattern, each field zero-padded. */
  function Format(d: DateTime): string
  {
    Layout(ShowDigits(d.day, 2), ShowDigits(d.month, 2), ShowDigits(d.year, 4),
           ShowDigits(d.hour, 2), ShowDigits(d.minute, 2), ShowDigits(d.second, 2))
  }

  /** Text of the pattern's shape: 19 characters, digits where the fields
      go and the pattern's own separators between them. */
  predicate Shaped(s: string)
  {
    && |s| == 19
    && s[2] == '/' && s[5] == '/' && s[10] == ' ' && s[13] == ':' && s[16] == ':'
    && AllDigits(s[0..2]) && AllDigits(s[3..5]) && AllDigits(s[6..10])
    && AllDigits(s[11..13]) && AllDigits(s[14..16]) && AllDigits(s[17..19])
  }

  /** The fields a shaped text spells out. */
  function Fields(s: string): DateTime
    requires Shaped(s)
  {
    DateTime(DigitsValue(s[6..10]), DigitsValue(s[3..5]), DigitsValue(s[0..2]),
             DigitsValue(s[11..13]), DigitsValue(s[14..16]), DigitsValue(s[17..19]))
  }

  /** The coercing date-time conversion with the fixed pattern: a
      date-time when the text has exactly the pattern's shape and names a
      representable calendar date-time, missing otherwise. */
  function Parse(s: string): (r: Option<DateTime>)
    ensures r.Some? ==> ValidDateTime(r.value)
  {
    if Shaped(s) && ValidDateTime(Fields(s)) then Some(Fields(s)) else None
  }

  /** Whatever the reading accepts is written back by `Format` character
      for character. */
  lemma ParseThenFormat(s: string)
    requires Parse(s).Some?
    ensures Format(Parse(s).value) == s
  {
    FormatFields(s);
  }

  /** A shaped text is the layout of its own slices. */
  lemma LayoutOfSlices(s: string)
    requires |s| == 19
    requires s[2] == '/' && s[5] == '/' && s[10] == ' ' && s[13] == ':' && s[16] == ':'
    ensures Layout(s[0..2], s[3..5], s[6..10], s[11..13], s[14..16], s[17..19]) == s
  {
    var t := Layout(s[0..2], s[3..5], s[6..10], s[11..13], s[14..16], s[17..19]);
    assert |t| == 19;
    forall i | 0 <= i < 19
      ensures t[i] == s[i]
    {
    }
  }

  /** Writing the fields of a shaped text gives the text back. */
  lemma FormatFields(s: string)
    requires Shaped(s)
    ensures Format(Fields(s)) == s
  {
    ReadThenShow(s[0..2]);
    ReadThenShow(s[3..5]);
    ReadThenShow(s[6..10]);
    ReadThenShow(s[11..13]);
    ReadThenShow(s[14..16]);
    ReadThenShow(s[17..19]);
    LayoutOfSlices(s);
  }

  /** The slices of a layout are its fields. */
  lemma SlicesOfLayout(day: string, month: string, year: string, hour: string, minute: string, second: string)
    requires |day| == 2 && |month| == 2 && |year| == 4 && |hour| == 2 && |minute| == 2 && |second| == 2
    ensures var s := Layout(day, month, year, hour, minute, second);
      && |s| == 19
      && s[2] == '/' && s[5] == '/' && s[10] == ' ' && s[13] == ':' && s[16] == ':'
      && s[0..2] == day && s[3..5] == month && s[6..10] == year
      && s[11..13] == hour && s[14..16] == minute && s[17..19] == second
  {
  }

  /** Reading back written fields recovers them, and the reading accepts
      them exactly when they name a representable date-time. */
  lemma ParseFormat(d: DateTime)
    requires d.day < 100 && d.month < 100 && d.year < 10000
    requires d.hour < 100 && d.minute < 100 && d.second < 100
    ensures Parse(Format(d)) == if ValidDateTime(d) then Some(d) else None
  {
    SlicesOfLayout(ShowDigits(d.day, 2), ShowDigits(d.month, 2), ShowDigits(d.year, 4),
                   ShowDigits(d.hour, 2), ShowDigits(d.minute, 2), ShowDigits(d.second, 2));
    ShowThenRead(d.day, 2);
    ShowThenRead(d.month, 2);
    ShowThenRead(d.year, 4);
    ShowThenRead(d.hour, 2);
    ShowThenRead(d.minute, 2);
    ShowThenRead(d.second, 2);
    assert Shaped(Format(d));
    assert Fields(Format(d)) == d;
  }

  /** Every representable date-time survives writing and reading back. */
  lemma ValidRoundTrip(d: DateTime)
    requires ValidDateTime(d)
    ensures Parse(Format(d)) == Some(d)
  {
    assert d.year < 10000 by {
      assert Instant(d) <= Instant(LAST_TIMESTAMP);
    }
    ParseFormat(d);
  }

  lemma ShowSmallDigits()
    ensures ShowDigits(29, 2) == "29" && ShowDigits(2, 2) == "02"
    ensures ShowDigits(10, 2) == "10" && ShowDigits(0, 2) == "00"
  {
    assert ShowDigits(2, 1) == "2";
    assert ShowDigits(0, 1) == "0";
    assert ShowDigits(1, 1) == "1";
  }

  lemma ShowCentury()
    ensures ShowDigits(202, 3) == "202"
  {
    assert ShowDigits(2, 1) == "2";
    assert ShowDigits(20, 2) == "20";
  }

  lemma ShowYears()
    ensures ShowDigits(2023, 4) == "2023" && ShowDigits(2024, 4) == "2024"
  {
    ShowCentury();
    assert ShowDigits(2023, 4) == ShowDigits(202, 3) + [DigitChar(3)];
    assert ShowDigits(2024, 4) == ShowDigits(202, 3) + [DigitChar(4)];
  }

  /** The 29th of February is refused outside leap years ... */
  lemma February29In2023()
    ensures Parse("29/02/2023 10:00:00") == None
  {
    var d := DateTime(2023, 2, 29, 10, 0, 0);
    assert Format(d) == "29/02/2023 10:00:00" by {
      ShowSmallDigits();
      ShowYears();
      assert Format(d) == Layout("29", "02", "2023", "10", "00", "00");
    }
    ParseFormat(d);
  }

  /** ... and read in leap years. */
  lemma February29In2024()
    ensures Parse("29/02/2024 10:00:00") == Some(DateTime(2024, 2, 29, 10, 0, 0))
  {
    var d := DateTime(2024, 2, 29, 10, 0, 0);
    assert ValidDateTime(d) by {
      assert IsLeapYear(2024);
    }
    assert Format(d) == "29/02/2024 10:00:00" by {
      ShowSmallDigits();
      ShowYears();
      assert Format(d) == Layout("29", "02", "2024", "10", "00", "00");
    }
    ParseFormat(d);
  }
}
