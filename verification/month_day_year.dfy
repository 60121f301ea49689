/**
 * `datetime.strptime(token, '%b-%d-%y')` in the C locale, the parser both
 * scripts apply to FinViz date tokens such as `Jan-05-24`.
 *
 * CPython compiles the format into the regular expression
 * `(?P<b>jan|feb|...|dec)-(?P<d>3[01]|[12]\d|0[1-9]|[1-9]| [1-9])-(?P<y>\d\d)`,
 * matches it case-insensitively, demands that the match reach the end of the
 * token, maps a two-digit year of 68 or less into the 2000s and any other
 * into the 1900s, and finally lets `datetime` reject a day the month does
 * not have. Every way this can fail is a `ValueError`, modelled as `None`.
 */
module MonthDayYear {
  import opened Wrappers
  import opened Text
  import opened Decimal
  import opened Calendar

  /** The `%b` names as `_strptime` compares them, lower-cased; January first. */
  const Abbreviations: seq<string> :=
    ["jan", "feb", "mar", "apr", "may", "jun", "jul", "aug", "sep", "oct", "nov", "dec"]

  /** The `%b` names as `strftime` renders them and FinViz prints them. */
  const Names: seq<string> :=
    ["Jan", "Feb", "Mar", "Apr", "May", "Jun", "Jul", "Aug", "Sep", "Oct", "Nov", "Dec"]

  /** The first and last year a two-digit `%y` can stand for. */
  const PivotFirstYear: int := 1969
  const PivotLastYear: int := 2068

  /** The month a lower-cased `%b` token names. */
  function MonthOf(tok: string): (r: Option<int>)
    ensures r.Some? ==> 1 <= r.value <= 12 && Abbreviations[r.value - 1] == tok
    ensures forall m :: 1 <= m <= 12 && Abbreviations[m - 1] == tok ==> r == Some(m)
  {
    if tok == "jan" then Some(1)
    else if tok == "feb" then Some(2)
    else if tok == "mar" then Some(3)
    else if tok == "apr" then Some(4)
    else if tok == "may" then Some(5)
    else if tok == "jun" then Some(6)
    else if tok == "jul" then Some(7)
    else if tok == "aug" then Some(8)
    else if tok == "sep" then Some(9)
    else if tok == "oct" then Some(10)
    else if tok == "nov" then Some(11)
    else if tok == "dec" then Some(12)
    else None
  }

  /** The spellings `%d` accepts for a day of the month: two digits, and for
      days below ten also one digit or a space and one digit. */
  function DayForms(day: int): set<string>
    requires 1 <= day <= 31
  {
    {Digits(day, 2)}
    + (if day <= 9 then {[DigitChar(day)], [' ', DigitChar(day)]} else {})
  }

  /** The alternatives of the `%d` group `3[01]|[12]\d|0[1-9]|[1-9]| [1-9]`,
      tried in order, each with the day it reads. */
  function DayPattern(tok: string): Option<int> {
    if |tok| == 2 && tok[0] == '3' && '0' <= tok[1] <= '1' then Some(30 + DigitValue(tok[1]))
    else if |tok| == 2 && '1' <= tok[0] <= '2' && IsDigit(tok[1]) then Some(10 * DigitValue(tok[0]) + DigitValue(tok[1]))
    else if |tok| == 2 && tok[0] == '0' && '1' <= tok[1] <= '9' then Some(DigitValue(tok[1]))
    else if |tok| == 1 && '1' <= tok[0] <= '9' then Some(DigitValue(tok[0]))
    else if |tok| == 2 && tok[0] == ' ' && '1' <= tok[1] <= '9' then Some(DigitValue(tok[1]))
    else None
  }

  /** `%d`: accepts exactly the spellings of the days 1 to 31 and reads each
      as its day. */
  function DayOf(tok: string): (r: Option<int>)
    ensures r.Some? ==> 1 <= r.value <= 31 && tok in DayForms(r.value)
    ensures forall day {:trigger DayForms(day)} :: 1 <= day <= 31 && tok in DayForms(day) ==> r == Some(day)
  {
    DayPatternSound(tok);
    DayPatternComplete(tok);
    DayPattern(tok)
  }

  /** Every day the pattern reads is a day of the month, spelled one of its ways. */
  lemma DayPatternSound(tok: string)
    ensures DayPattern(tok).Some? ==> 1 <= DayPattern(tok).value <= 31 && tok in DayForms(DayPattern(tok).value)
  {
    var r := DayPattern(tok);
    if r.Some? {
      var day := r.value;
      if |tok| == 2 && tok[0] != ' ' {
        assert AllDigits(tok);
        DigitsOfNumber(tok);
        assert tok[..1] == [tok[0]];
        assert Number(tok) == day;
        assert tok == Digits(day, 2);
      } else if |tok| == 1 {
        assert tok == [DigitChar(day)];
      } else {
        assert tok == [' ', DigitChar(day)];
      }
    }
  }

  /** Every spelling of every day is read by the pattern as that day. */
  lemma DayPatternComplete(tok: string)
    ensures forall day {:trigger DayForms(day)} :: 1 <= day <= 31 && tok in DayForms(day) ==> DayPattern(tok) == Some(day)
  {
    forall day | 1 <= day <= 31 && tok in DayForms(day)
      ensures DayPattern(tok) == Some(day)
    {
      if tok == Digits(day, 2) {
        DayPatternTwoDigits(day);
      } else {
        DayPatternShort(day);
      }
    }
  }

  lemma DayPatternTwoDigits(day: int)
    requires 1 <= day <= 31
    ensures DayPattern(Digits(day, 2)) == Some(day)
  {
    var tok := Digits(day, 2);
    assert tok == Digits(day / 10, 1) + [DigitChar(day % 10)];
    assert Digits(day / 10, 1) == Digits(day / 100, 0) + [DigitChar(day / 10 % 10)];
    assert tok == [DigitChar(day / 10), DigitChar(day % 10)];
  }

  lemma DayPatternShort(day: int)
    requires 1 <= day <= 9
    ensures DayPattern([DigitChar(day)]) == Some(day)
    ensures DayPattern([' ', DigitChar(day)]) == Some(day)
  {
  }

  /** The `%y` century rule: 69..99 are 1969..1999, 00..68 are 2000..2068. */
  function CenturyPivot(yy: int): int {
    if yy <= 68 then 2000 + yy else 1900 + yy
  }

  /** `datetime.strptime(s, '%b-%d-%y')`, `None` where it raises `ValueError`. */
  function ParseMonthDayYear(s: string): (r: Option<Date>)
    ensures r.Some? ==> Valid(r.value)
    ensures r.Some? ==> PivotFirstYear <= r.value.year <= PivotLastYear
  {
    var t := Lower(s);
    if 8 <= |t| <= 9 && t[3] == '-' && t[|t| - 3] == '-' && AllDigits(t[|t| - 2..]) then
      match (MonthOf(t[..3]), DayOf(t[4..|t| - 3]))
      case (Some(m), Some(day)) =>
        var d := Date(CenturyPivot(Number(t[|t| - 2..])), m, day);
        DigitsOfNumber(t[|t| - 2..]);
        assert Pow10(2) == 100;
        if Valid(d) then Some(d) else None
      case _ => None
    else None
  }

  /** The lower-cased tokens that name `d`. */
  ghost function Spellings(d: Date): set<string>
    requires 1 <= d.month <= 12 && 1 <= d.day <= 31
  {
    set f | f in DayForms(d.day) :: Abbreviations[d.month - 1] + "-" + f + "-" + Digits(d.year % 100, 2)
  }

  /** The parser accepts a token exactly when, ignoring letter case, it
      spells a valid date of the years 1969..2068, and then yields that date. */
  lemma ParseMonthDayYearSpec(s: string, d: Date)
    ensures ParseMonthDayYear(s) == Some(d) <==>
      && Valid(d) && PivotFirstYear <= d.year <= PivotLastYear
      && Lower(s) in Spellings(d)
  {
    if ParseMonthDayYear(s) == Some(d) {
      ParsedIsSpelling(s, d);
    }
    if && Valid(d) && PivotFirstYear <= d.year <= PivotLastYear && Lower(s) in Spellings(d) {
      SpellingParses(s, d);
    }
  }

  lemma ParsedIsSpelling(s: string, d: Date)
    requires ParseMonthDayYear(s) == Some(d)
    ensures 1 <= d.month <= 12 && 1 <= d.day <= 31
    ensures Lower(s) in Spellings(d)
  {
    ParsedParts(s, d);
    PartsSpell(Lower(s), d);
  }

  /** The fields the parser read `d` from. */
  predicate Parts(t: string, d: Date) {
    && 8 <= |t| <= 9 && t[3] == '-' && t[|t| - 3] == '-'
    && AllDigits(t[|t| - 2..])
    && MonthOf(t[..3]) == Some(d.month)
    && DayOf(t[4..|t| - 3]) == Some(d.day)
    && CenturyPivot(Number(t[|t| - 2..])) == d.year
  }

  lemma ParsedParts(s: string, d: Date)
    requires ParseMonthDayYear(s) == Some(d)
    ensures Valid(d) && Parts(Lower(s), d)
  {
  }

  lemma PartsSpell(t: string, d: Date)
    requires Parts(t, d)
    ensures 1 <= d.month <= 12 && 1 <= d.day <= 31
    ensures t in Spellings(d)
  {
    var f := t[4..|t| - 3];
    YearDigits(t[|t| - 2..], d.year);
    Fields(t);
    Spelled(d, f);
  }

  /** A token with dashes at both places is its three fields, dash-joined. */
  lemma Fields(t: string)
    requires 8 <= |t| <= 9 && t[3] == '-' && t[|t| - 3] == '-'
    ensures t == t[..3] + "-" + t[4..|t| - 3] + "-" + t[|t| - 2..]
  {
  }

  lemma Spelled(d: Date, f: string)
    requires 1 <= d.month <= 12 && 1 <= d.day <= 31
    requires f in DayForms(d.day)
    ensures Abbreviations[d.month - 1] + "-" + f + "-" + Digits(d.year % 100, 2) in Spellings(d)
  {
  }

  /** Two digits read through the century rule print back as the same two
      digits of the year. */
  lemma YearDigits(yy: string, year: int)
    requires |yy| == 2 && AllDigits(yy) && CenturyPivot(Number(yy)) == year
    ensures Digits(year % 100, 2) == yy
  {
    var n := Number(yy);
    DigitsOfNumber(yy);
    assert Pow10(2) == 100;
    if n <= 68 {
      assert year == 2000 + n;
    } else {
      assert year == 1900 + n;
    }
    assert year % 100 == n;
  }

  /** A year of the window is the century rule applied to its last two digits. */
  lemma CenturyOfYear(year: int)
    requires PivotFirstYear <= year <= PivotLastYear
    ensures CenturyPivot(year % 100) == year
  {
    if year < 2000 {
      assert year % 100 == year - 1900;
    } else {
      assert year % 100 == year - 2000;
    }
  }

  lemma SpellingParses(s: string, d: Date)
    requires Valid(d) && PivotFirstYear <= d.year <= PivotLastYear
    requires Lower(s) in Spellings(d)
    ensures ParseMonthDayYear(s) == Some(d)
  {
    SpellingParts(Lower(s), d);
    ParseOfParts(s, d);
  }

  lemma SpellingParts(t: string, d: Date)
    requires Valid(d) && PivotFirstYear <= d.year <= PivotLastYear
    requires t in Spellings(d)
    ensures Parts(t, d)
  {
    var yy := Digits(d.year % 100, 2);
    var f := SpellingWitness(t, d);
    var abbr := Abbreviations[d.month - 1];
    assert |abbr| == 3 && 1 <= |f| <= 2;
    JoinedFields(t, abbr, f, yy);
    assert MonthOf(abbr) == Some(d.month);
    assert DayOf(f) == Some(d.day);
    NumberOfDigits(d.year % 100, 2);
    CenturyOfYear(d.year);
  }

  /** Where the three fields of a dash-joined token sit. */
  lemma JoinedFields(t: string, abbr: string, f: string, yy: string)
    requires |abbr| == 3 && 1 <= |f| <= 2 && |yy| == 2
    requires t == abbr + "-" + f + "-" + yy
    ensures 8 <= |t| <= 9 && t[3] == '-' && t[|t| - 3] == '-'
    ensures t[..3] == abbr && t[4..|t| - 3] == f && t[|t| - 2..] == yy
  {
    assert t[..3] == abbr;
    assert t[4..|t| - 3] == f;
    assert t[|t| - 2..] == yy;
  }

  lemma SpellingWitness(t: string, d: Date) returns (f: string)
    requires 1 <= d.month <= 12 && 1 <= d.day <= 31
    requires t in Spellings(d)
    ensures f in DayForms(d.day)
    ensures t == Abbreviations[d.month - 1] + "-" + f + "-" + Digits(d.year % 100, 2)
  {
    f :| f in DayForms(d.day) && t == Abbreviations[d.month - 1] + "-" + f + "-" + Digits(d.year % 100, 2);
  }

  lemma ParseOfParts(s: string, d: Date)
    requires Valid(d) && Parts(Lower(s), d)
    ensures ParseMonthDayYear(s) == Some(d)
  {
  }

  /** How FinViz prints a date: `Jan-05-24`. */
  function FormatMonthDayYear(d: Date): string
    requires 1 <= d.month <= 12 && 1 <= d.day <= 31
  {
    Names[d.month - 1] + "-" + Digits(d.day, 2) + "-" + Digits(d.year % 100, 2)
  }

  /** Every date of the years 1969..2068 printed the FinViz way parses back. */
  lemma MonthDayYearRoundTrip(d: Date)
    requires Valid(d) && PivotFirstYear <= d.year <= PivotLastYear
    ensures ParseMonthDayYear(FormatMonthDayYear(d)) == Some(d)
  {
    var s := FormatMonthDayYear(d);
    var spelled := Abbreviations[d.month - 1] + "-" + Digits(d.day, 2) + "-" + Digits(d.year % 100, 2);
    assert Lower(s) == spelled by {
      assert Lower(Names[d.month - 1]) == Abbreviations[d.month - 1];
    }
    assert Digits(d.day, 2) in DayForms(d.day);
    assert spelled in Spellings(d);
    ParseMonthDayYearSpec(s, d);
  }
}
