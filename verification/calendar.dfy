/**
 * Proleptic Gregorian calendar dates as Python's `datetime.date` holds them
 * (years 1 through 9999), the day-number ordering behind `timedelta`
 * arithmetic, and the `YYYY-MM-DD` rendering of `strftime('%Y-%m-%d')`
 * (the extended calendar-date form of section 4.1.2.2 of ISO 8601:2004).
 */
module Calendar {
  import opened Wrappers
  import opened Decimal
  import Order

  datatype Date = Date(year: int, month: int, day: int)

  /** `datetime.MINYEAR` and `datetime.MAXYEAR`. */
  const MinYear: int := 1
  const MaxYear: int := 9999

  /** The first day a `datetime.date` can hold; it has no predecessor. */
  const FirstDay: Date := Date(MinYear, 1, 1)

  predicate IsLeapYear(y: int) {
    y % 4 == 0 && (y % 100 != 0 || y % 400 == 0)
  }

  function DaysInMonth(y: int, m: int): int
    requires 1 <= m <= 12
  {
    if m == 2 then (if IsLeapYear(y) then 29 else 28)
    else if m == 4 || m == 6 || m == 9 || m == 11 then 30
    else 31
  }

  function YearLength(y: int): int {
    if IsLeapYear(y) then 366 else 365
  }

  /** A date `datetime.date(year, month, day)` accepts. */
  predicate Valid(d: Date) {
    && MinYear <= d.year <= MaxYear
    && 1 <= d.month <= 12
    && 1 <= d.day <= DaysInMonth(d.year, d.month)
  }

  /** Chronological order: `<` on `datetime.date`. */
  predicate Before(a: Date, b: Date) {
    || a.year < b.year
    || (a.year == b.year && a.month < b.month)
    || (a.year == b.year && a.month == b.month && a.day < b.day)
  }

  lemma BeforeIsStrictTotalOrder()
    ensures Order.StrictTotalOrder(Before)
  {
  }

  function DaysBeforeYear(y: int): nat
    decreases y
  {
    if y <= MinYear then 0 else DaysBeforeYear(y - 1) + YearLength(y - 1)
  }

  function DaysBeforeMonth(y: int, m: int): nat
    requires 1 <= m <= 12
    decreases m
  {
    if m == 1 then 0 else DaysBeforeMonth(y, m - 1) + DaysInMonth(y, m - 1)
  }

  /** The day number of `date.toordinal()`: 0001-01-01 is day 1, and each
      following day is one more. */
  function Ordinal(d: Date): int
    requires Valid(d)
  {
    DaysBeforeYear(d.year) + DaysBeforeMonth(d.year, d.month) + d.day
  }

  lemma MonthsFillYear(y: int)
    ensures DaysBeforeMonth(y, 12) + DaysInMonth(y, 12) == YearLength(y)
  {
  }

  lemma {:induction false} MonthsPrecede(y: int, m1: int, m2: int)
    requires 1 <= m1 < m2 <= 12
    ensures DaysBeforeMonth(y, m1) + DaysInMonth(y, m1) <= DaysBeforeMonth(y, m2)
    decreases m2
  {
    if m1 < m2 - 1 {
      MonthsPrecede(y, m1, m2 - 1);
    }
  }

  lemma {:induction false} YearsPrecede(y1: int, y2: int)
    requires MinYear <= y1 < y2
    ensures DaysBeforeYear(y1) + YearLength(y1) <= DaysBeforeYear(y2)
    decreases y2
  {
    if y1 < y2 - 1 {
      YearsPrecede(y1, y2 - 1);
    }
  }

  /** A valid date's day number falls inside its year. */
  lemma DayInYear(d: Date)
    requires Valid(d)
    ensures DaysBeforeYear(d.year) < Ordinal(d) <= DaysBeforeYear(d.year) + YearLength(d.year)
  {
    if d.month < 12 {
      MonthsPrecede(d.year, d.month, 12);
    }
    MonthsFillYear(d.year);
  }

  /** Chronological order is day-number order, in both directions. */
  lemma OrdinalOrder(a: Date, b: Date)
    requires Valid(a) && Valid(b)
    ensures Before(a, b) <==> Ordinal(a) < Ordinal(b)
  {
    if Before(a, b) {
      OrdinalMonotone(a, b);
    } else if a != b {
      OrdinalMonotone(b, a);
    }
  }

  lemma OrdinalMonotone(a: Date, b: Date)
    requires Valid(a) && Valid(b) && Before(a, b)
    ensures Ordinal(a) < Ordinal(b)
  {
    if a.year < b.year {
      DayInYear(a);
      DayInYear(b);
      YearsPrecede(a.year, b.year);
    } else if a.month < b.month {
      MonthsPrecede(a.year, a.month, b.month);
    }
  }

  /** The day before `d`, `d - timedelta(days=1)`: one day number less,
      across month, year and leap-day boundaries. */
  function Predecessor(d: Date): (r: Date)
    requires Valid(d) && d != FirstDay
    ensures Valid(r)
    ensures Ordinal(r) + 1 == Ordinal(d)
  {
    if d.day > 1 then
      Date(d.year, d.month, d.day - 1)
    else if d.month > 1 then
      Date(d.year, d.month - 1, DaysInMonth(d.year, d.month - 1))
    else
      MonthsFillYear(d.year - 1);
      Date(d.year - 1, 12, 31)
  }

  /** The predecessor is the latest valid date before `d`: no valid date
      lies strictly between the two. */
  lemma PredecessorIsImmediate(d: Date, e: Date)
    requires Valid(d) && d != FirstDay && Valid(e)
    ensures Before(Predecessor(d), d)
    ensures Before(e, d) <==> e == Predecessor(d) || Before(e, Predecessor(d))
  {
    var p := Predecessor(d);
    OrdinalOrder(p, d);
    OrdinalOrder(e, d);
    OrdinalOrder(e, p);
    if e != p && !Before(e, p) {
      OrdinalOrder(p, e);
    }
  }

  /** `strftime('%Y-%m-%d')`: ten characters, a dash after the year and after
      the month, and digit fields that read as the year, month and day. */
  function FormatIso(d: Date): (s: string)
    requires Valid(d)
    ensures |s| == 10 && s[4] == '-' && s[7] == '-'
    ensures AllDigits(s[..4]) && AllDigits(s[5..7]) && AllDigits(s[8..])
    ensures Number(s[..4]) == d.year && Number(s[5..7]) == d.month && Number(s[8..]) == d.day
  {
    var y, m, dd := Digits(d.year, 4), Digits(d.month, 2), Digits(d.day, 2);
    var s := y + "-" + m + "-" + dd;
    assert s[..4] == y && s[5..7] == m && s[8..] == dd;
    NumberOfDigits(d.year, 4);
    NumberOfDigits(d.month, 2);
    NumberOfDigits(d.day, 2);
    s
  }

  /** Reads a `YYYY-MM-DD` string back; only the rendering of a valid date
      is accepted, so a parsed date formats back to the very same string. */
  function ParseIso(s: string): (r: Option<Date>)
    ensures r.Some? ==> Valid(r.value) && FormatIso(r.value) == s
  {
    if |s| == 10 && s[4] == '-' && s[7] == '-'
       && AllDigits(s[..4]) && AllDigits(s[5..7]) && AllDigits(s[8..])
    then
      var d := Date(Number(s[..4]), Number(s[5..7]), Number(s[8..]));
      if Valid(d) then
        DigitsOfNumber(s[..4]);
        DigitsOfNumber(s[5..7]);
        DigitsOfNumber(s[8..]);
        assert s == s[..4] + "-" + s[5..7] + "-" + s[8..];
        Some(d)
      else None
    else None
  }

  /** Every valid date survives rendering and reading back unchanged. */
  lemma IsoRoundTrip(d: Date)
    requires Valid(d)
    ensures ParseIso(FormatIso(d)) == Some(d)
  {
  }
}
