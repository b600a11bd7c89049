/** Birth dates (the DATA NASC column): calendar dates, the texts that
    `to_datetime(format='%d/%m/%Y')` accepts for them, their display form
    dd/mm/yyyy, and the chronological order used as the last ranking key. */
module Dates {
  import opened Wrappers
  import opened Text

  datatype Date = Date(year: int, month: int, day: int)

  /** Gregorian leap years. */
  predicate IsLeapYear(y: int)
  {
    y % 4 == 0 && (y % 100 != 0 || y % 400 == 0)
  }

  function DaysInMonth(y: int, m: int): (n: int)
    requires 1 <= m <= 12
    ensures 28 <= n <= 31
    ensures n == 29 <==> m == 2 && IsLeapYear(y)
  {
    if m == 2 then (if IsLeapYear(y) then 29 else 28)
    else if m == 4 || m == 6 || m == 9 || m == 11 then 30
    else 31
  }

  /** A date that exists in the calendar and whose year has four digits. */
  predicate IsValid(d: Date)
  {
    1 <= d.year <= 9999 && 1 <= d.month <= 12 && 1 <= d.day <= DaysInMonth(d.year, d.month)
  }

  type CalendarDate = d: Date | IsValid(d) witness Date(2000, 1, 1)

  /** strftime('%d/%m/%Y') (app.py:259): zero-padded day and month, four-digit year. */
  function Format(d: CalendarDate): string
  {
    Padded(d.day, 2) + "/" + Padded(d.month, 2) + "/" + Padded(d.year, 4)
  }

  // ---------------------------------------------------------------------
  // Reading a cell (app.py:19). The pattern of '%d' takes a day written
  // with two digits, one digit, or a space and one digit; '%m' a month
  // with two digits or one; '%Y' exactly four digits; nothing may follow.
  // ---------------------------------------------------------------------

  /** The three fields of a text shaped day/month/year. */
  datatype DateFields = DateFields(day: string, month: string, year: string)

  /** Cut a text at its two slashes, when the day and the month have one or
      two characters and the year four. */
  function Split(s: string): Option<DateFields>
  {
    var dl := if |s| > 1 && s[1] == '/' then 1 else 2;
    var ml := if |s| > dl + 2 && s[dl + 2] == '/' then 1 else 2;
    if |s| == dl + ml + 6 && s[dl] == '/' && s[dl + ml + 1] == '/'
    then Some(DateFields(s[..dl], s[dl + 1..dl + 1 + ml], s[dl + ml + 2..]))
    else None
  }

  function DayValue(t: string): Option<int>
  {
    if |t| == 2 && AllDigits(t) then Some(DecimalValue(t))
    else if |t| == 1 && AllDigits(t) then Some(DecimalValue(t))
    else if |t| == 2 && t[0] == ' ' && AllDigits(t[1..]) then Some(DecimalValue(t[1..]))
    else None
  }

  function MonthValue(t: string): Option<int>
  {
    if (|t| == 1 || |t| == 2) && AllDigits(t) then Some(DecimalValue(t)) else None
  }

  /** to_datetime(format='%d/%m/%Y') on one text cell: the date the text
      names, or None when the text does not fit the pattern or names no
      calendar date (both make the conversion raise). */
  function Parse(s: string): Option<CalendarDate>
  {
    match Split(s)
    case None => None
    case Some(f) =>
      match (DayValue(f.day), MonthValue(f.month))
      case (Some(d), Some(m)) =>
        if |f.year| == 4 && AllDigits(f.year) then
          var date := Date(DecimalValue(f.year), m, d);
          if IsValid(date) then Some(date) else None
        else None
      case _ => None
  }

  /** The ways '%d' may spell day `n`: two digits, or for 1..9 one digit,
      alone or after a space. */
  predicate DaySpelling(t: string, n: int)
  {
    (|t| == 2 && AllDigits(t) && DecimalValue(t) == n)
    || (1 <= n <= 9 && (t == [DigitChar(n)] || t == [' ', DigitChar(n)]))
  }

  /** The ways '%m' may spell month `n`: two digits, or for 1..9 one digit. */
  predicate MonthSpelling(t: string, n: int)
  {
    (|t| == 2 && AllDigits(t) && DecimalValue(t) == n)
    || (1 <= n <= 9 && t == [DigitChar(n)])
  }

  /** A text zero-padded in the dd/mm/yyyy shape. */
  predicate ZeroPadded(s: string)
  {
    |s| == 10 && s[2] == '/' && s[5] == '/'
    && AllDigits(s[0..2]) && AllDigits(s[3..5]) && AllDigits(s[6..10])
  }

  lemma DigitCharValue(n: nat)
    requires n < 10
    ensures AllDigits([DigitChar(n)]) && DecimalValue([DigitChar(n)]) == n
  {
    assert [DigitChar(n)][..0] == [];
  }

  /** Joining three fields with slashes and cutting the text again gives the
      fields back, when day and month have one or two characters, neither
      ending in a slash, and the year four. */
  lemma SplitJoin(dt: string, mt: string, yt: string)
    requires (|dt| == 1 || (|dt| == 2 && dt[1] != '/'))
    requires (|mt| == 1 || (|mt| == 2 && mt[1] != '/'))
    requires |yt| == 4
    ensures Split(dt + "/" + mt + "/" + yt) == Some(DateFields(dt, mt, yt))
  {
    var s := dt + "/" + mt + "/" + yt;
    var dl := |dt|;
    var ml := |mt|;
    assert s[dl] == '/' && s[dl + ml + 1] == '/';
    assert dl == 2 ==> s[1] == dt[1];
    assert ml == 2 ==> s[dl + 2] == mt[1];
    assert s[..dl] == dt;
    assert s[dl + 1..dl + 1 + ml] == mt;
    assert s[dl + ml + 2..] == yt;
  }

  /** A cut text is its fields joined by slashes. */
  lemma SplitParts(s: string)
    requires Split(s).Some?
    ensures var f := Split(s).value; s == f.day + "/" + f.month + "/" + f.year
  {
  }

  lemma DaySpellingValue(t: string, n: int)
    requires DaySpelling(t, n)
    ensures DayValue(t) == Some(n)
    ensures |t| == 1 || (|t| == 2 && t[1] != '/')
  {
    if |t| == 2 && AllDigits(t) && DecimalValue(t) == n {
    } else if t == [DigitChar(n)] {
      DigitCharValue(n);
    } else {
      assert t[1..] == [DigitChar(n)];
      assert !IsDigit(t[0]);
      DigitCharValue(n);
    }
  }

  lemma MonthSpellingValue(t: string, n: int)
    requires MonthSpelling(t, n)
    ensures MonthValue(t) == Some(n)
    ensures |t| == 1 || (|t| == 2 && t[1] != '/')
  {
    if |t| == 1 {
      DigitCharValue(n);
    }
  }

  lemma DayValueSpelling(t: string, n: int)
    requires DayValue(t) == Some(n) && 1 <= n
    ensures DaySpelling(t, n)
  {
    if |t| == 2 && AllDigits(t) {
    } else if |t| == 1 {
      DecimalValueBound(t);
      DigitCharValue(n);
      assert t[0] == DigitChar(n);
    } else {
      DecimalValueBound(t[1..]);
      DigitCharValue(n);
      assert t[1..][0] == DigitChar(n);
      assert t == [' ', DigitChar(n)];
    }
  }

  lemma MonthValueSpelling(t: string, n: int)
    requires MonthValue(t) == Some(n) && 1 <= n
    ensures MonthSpelling(t, n)
  {
    if |t| == 1 {
      DecimalValueBound(t);
      DigitCharValue(n);
      assert t[0] == DigitChar(n);
    }
  }

  /** Every spelling of a calendar date that the pattern allows is read as
      that date. */
  lemma SpellingParses(dt: string, mt: string, d: CalendarDate)
    requires DaySpelling(dt, d.day) && MonthSpelling(mt, d.month)
    ensures Parse(dt + "/" + mt + "/" + Padded(d.year, 4)) == Some(d)
  {
    DaySpellingValue(dt, d.day);
    MonthSpellingValue(mt, d.month);
    SplitJoin(dt, mt, Padded(d.year, 4));
    DecimalValueOfPadded(d.year, 4);
  }

  /** Reading the display form back gives the date. */
  lemma ParseFormat(d: CalendarDate)
    ensures Parse(Format(d)) == Some(d)
  {
    DecimalValueOfPadded(d.day, 2);
    DecimalValueOfPadded(d.month, 2);
    SpellingParses(Padded(d.day, 2), Padded(d.month, 2), d);
  }

  /** Conversely, every text the parser accepts is a spelling of the date it
      yields: day and month in one of the allowed forms, a four-digit year. */
  lemma ParsedSpelling(s: string)
    requires Parse(s).Some?
    ensures Split(s).Some?
    ensures var f := Split(s).value; var d := Parse(s).value;
      && s == f.day + "/" + f.month + "/" + f.year
      && DaySpelling(f.day, d.day) && MonthSpelling(f.month, d.month)
      && f.year == Padded(d.year, 4)
  {
    var f := Split(s).value;
    var d := Parse(s).value;
    SplitParts(s);
    PaddedDecimalValue(f.year);
    DayValueSpelling(f.day, d.day);
    MonthValueSpelling(f.month, d.month);
  }

  /** A zero-padded text is cut at its two slashes. */
  lemma SplitZeroPadded(s: string)
    requires ZeroPadded(s)
    ensures Split(s) == Some(DateFields(s[0..2], s[3..5], s[6..10]))
  {
    assert IsDigit(s[0..2][1]) && IsDigit(s[3..5][1]);
    SplitJoin(s[0..2], s[3..5], s[6..10]);
    assert s == s[0..2] + "/" + s[3..5] + "/" + s[6..10];
  }

  /** A cell already written zero-padded is exactly the display form of the
      date it names. */
  lemma PaddedCellIsFormat(s: string)
    requires ZeroPadded(s) && Parse(s).Some?
    ensures Format(Parse(s).value) == s
  {
    SplitZeroPadded(s);
    PaddedDecimalValue(s[0..2]);
    PaddedDecimalValue(s[3..5]);
    PaddedDecimalValue(s[6..10]);
    assert s == s[0..2] + "/" + s[3..5] + "/" + s[6..10];
  }

  /** The display form is zero-padded. */
  lemma FormatIsZeroPadded(d: CalendarDate)
    ensures ZeroPadded(Format(d))
  {
    var s := Format(d);
    assert s[0..2] == Padded(d.day, 2);
    assert s[3..5] == Padded(d.month, 2);
    assert s[6..10] == Padded(d.year, 4);
  }

  /** Chronological: `a` is strictly earlier than `b`. */
  predicate Earlier(a: Date, b: Date)
  {
    a.year < b.year
    || (a.year == b.year && a.month < b.month)
    || (a.year == b.year && a.month == b.month && a.day < b.day)
  }
}
