/**
 * Worked examples of the date labels `main.py` reads: one row of each kind,
 * stated over the model. Each concrete cell's reading as two words is a
 * lemma of its own, and so is each concrete date and its rendering; the row
 * lemmas then take those facts as hypotheses.
 */
module WorkedExamples {
  import opened Wrappers
  import opened Text
  import opened Calendar
  import opened Decimal
  import opened MonthDayYear
  import M = MainNormalize

  /** A cell holding two words with one space between them, and no
      whitespace around them, is read as exactly those two words. */
  lemma TwoWordCell(cell: string, first: string, second: string)
    requires cell == first + [' '] + second
    requires ' ' !in first && ' ' !in second
    requires |first| > 0 && !IsSpace(first[0])
    requires |second| > 0 && !IsSpace(second[|second| - 1])
    ensures Strip(cell) == cell
    ensures M.Words(cell, first, second, "")
  {
    CellIsStripped(cell, first, second);
    CellWords(cell, first, second);
  }

  lemma CellIsStripped(cell: string, first: string, second: string)
    requires cell == first + [' '] + second
    requires |first| > 0 && !IsSpace(first[0])
    requires |second| > 0 && !IsSpace(second[|second| - 1])
    ensures Strip(cell) == cell
  {
    assert cell[0] == first[0] && cell[|cell| - 1] == second[|second| - 1];
    StripTrimmed(cell);
  }

  lemma CellWords(cell: string, first: string, second: string)
    requires cell == first + [' '] + second
    requires ' ' !in first && ' ' !in second
    ensures M.Words(cell, first, second, "")
  {
    var empty: string := [];
    assert first + [' '] + second + empty == cell;
  }

  /** The ISO text of a date is its three zero-padded fields joined by dashes. */
  lemma IsoText(d: Date)
    requires Valid(d)
    ensures FormatIso(d) == Digits(d.year, 4) + "-" + Digits(d.month, 2) + "-" + Digits(d.day, 2)
  {
    var s := FormatIso(d);
    DigitsOfNumber(s[..4]);
    DigitsOfNumber(s[5..7]);
    DigitsOfNumber(s[8..]);
    assert s == s[..4] + "-" + s[5..7] + "-" + s[8..];
  }

  /** The dates of the examples below, as `strftime('%Y-%m-%d')` prints them. */
  lemma June1Iso()
    ensures FormatIso(Date(2024, 6, 1)) == "2024-06-01"
  {
    IsoText(Date(2024, 6, 1));
    Year2024();
    TwoDigits(6, "06");
    TwoDigits(1, "01");
  }

  lemma May31Iso()
    ensures FormatIso(Date(2024, 5, 31)) == "2024-05-31"
  {
    IsoText(Date(2024, 5, 31));
    Year2024();
    TwoDigits(5, "05");
    TwoDigits(31, "31");
  }

  lemma January5Iso()
    ensures FormatIso(Date(2024, 1, 5)) == "2024-01-05"
  {
    IsoText(Date(2024, 1, 5));
    Year2024();
    TwoDigits(1, "01");
    TwoDigits(5, "05");
  }

  lemma Year2024()
    ensures Digits(2024, 4) == "2024"
  {
  }

  /** A two-digit field is its tens digit followed by its units digit. */
  lemma TwoDigits(n: nat, s: string)
    requires n < 100 && |s| == 2 && s[0] == DigitChar(n / 10) && s[1] == DigitChar(n % 10)
    ensures Digits(n, 2) == s
  {
  }

  /** The day before 2024-06-01 is 2024-05-31, across the month boundary. */
  lemma June1Yesterday()
    ensures Valid(Date(2024, 6, 1)) && Date(2024, 6, 1) != FirstDay
    ensures Predecessor(Date(2024, 6, 1)) == Date(2024, 5, 31)
  {
  }

  /** FinViz prints 2024-01-05 as `Jan-05-24`. */
  lemma ExampleToken()
    ensures FormatMonthDayYear(Date(2024, 1, 5)) == "Jan-05-24"
  {
  }

  /** The cells of the examples below are read as their two words. */
  lemma TodayCell()
    ensures Strip("Today 10:30AM") == "Today 10:30AM"
    ensures M.Words("Today 10:30AM", M.TodayWord, "10:30AM", "")
  {
    TwoWordCell("Today 10:30AM", "Today", "10:30AM");
  }

  lemma YesterdayCell()
    ensures Strip("Yesterday 09:00AM") == "Yesterday 09:00AM"
    ensures M.Words("Yesterday 09:00AM", M.YesterdayWord, "09:00AM", "")
  {
    TwoWordCell("Yesterday 09:00AM", "Yesterday", "09:00AM");
  }

  lemma AbsoluteCell()
    ensures Strip("Jan-05-24 08:00AM") == "Jan-05-24 08:00AM"
    ensures M.Words("Jan-05-24 08:00AM", "Jan-05-24", "08:00AM", "")
  {
    TwoWordCell("Jan-05-24 08:00AM", "Jan-05-24", "08:00AM");
  }

  lemma MalformedCell()
    ensures Strip("Foo-05-24 08:00AM") == "Foo-05-24 08:00AM"
    ensures M.Words("Foo-05-24 08:00AM", "Foo-05-24", "08:00AM", "")
  {
    TwoWordCell("Foo-05-24 08:00AM", "Foo-05-24", "08:00AM");
  }

  /** A `Today 10:30AM` cell (`TodayCell`) is dated the day it is read, at
      10:30AM; read on 2024-06-01 that is `2024-06-01` (`June1Iso`). */
  lemma TodayExample(today: Date, cell: string)
    requires Valid(today)
    requires Strip(cell) == cell && M.Words(cell, M.TodayWord, "10:30AM", "")
    ensures M.ParseRow(today, "X", M.Row(Some("headline"), Some(cell)))
         == Success(Some(M.Entry("X", FormatIso(today), "10:30AM", "headline")))
  {
    M.TodayWordSpec(today, "X", "headline", cell, "10:30AM", "");
  }

  /** A `Yesterday 09:00AM` cell (`YesterdayCell`) is dated the day before
      the day it is read, at 09:00AM; read on 2024-06-01 that is `2024-05-31`
      (`June1Yesterday`, `May31Iso`). */
  lemma YesterdayExample(today: Date, cell: string)
    requires Valid(today) && today != FirstDay
    requires Strip(cell) == cell && M.Words(cell, M.YesterdayWord, "09:00AM", "")
    ensures M.ParseRow(today, "X", M.Row(Some("headline"), Some(cell)))
         == Success(Some(M.Entry("X", FormatIso(Predecessor(today)), "09:00AM", "headline")))
  {
    M.YesterdayWordSpec(today, "X", "headline", cell, "09:00AM", "");
  }

  /** A cell whose first word is a date as FinViz prints it, such as
      `Jan-05-24 08:00AM` (`AbsoluteCell`, `ExampleTokenParses`), is dated
      that date whatever the day it is read; here `2024-01-05` (`January5Iso`). */
  lemma AbsoluteExample(today: Date, cell: string, token: string, d: Date)
    requires Valid(today)
    requires |token| >= 4 && token[3] == '-' && ParseMonthDayYear(token) == Some(d)
    requires Strip(cell) == cell && M.Words(cell, token, "08:00AM", "")
    ensures M.ParseRow(today, "X", M.Row(Some("headline"), Some(cell)))
         == Success(Some(M.Entry("X", FormatIso(d), "08:00AM", "headline")))
  {
    NotAKeyword(token);
    M.DateWordSpec(today, "X", "headline", cell, token, "08:00AM", "");
  }

  /** `Jan-05-24` is read as 2024-01-05. */
  lemma ExampleTokenParses()
    ensures ParseMonthDayYear("Jan-05-24") == Some(Date(2024, 1, 5))
  {
    ExampleToken();
    MonthDayYearRoundTrip(Date(2024, 1, 5));
  }

  /** A word with a dash after three letters is neither keyword. */
  lemma NotAKeyword(token: string)
    requires |token| >= 4 && token[3] == '-'
    ensures token != M.TodayWord && token != M.YesterdayWord
  {
  }

  /** A `Foo-05-24 08:00AM` cell (`MalformedCell`) names no month: the row
      is dropped rather than failing the run. */
  lemma MalformedExample(today: Date, cell: string, token: string)
    requires Valid(today)
    requires |token| == 9 && token[..4] == "Foo-"
    requires Strip(cell) == cell && M.Words(cell, token, "08:00AM", "")
    ensures M.ParseRow(today, "X", M.Row(Some("headline"), Some(cell))) == Success(None)
  {
    NotAKeyword(token);
    NamesNoMonth(token);
    M.DateWordSpec(today, "X", "headline", cell, token, "08:00AM", "");
  }

  /** `Foo` is no month abbreviation, so such a token does not parse. */
  lemma NamesNoMonth(token: string)
    requires |token| == 9 && token[..4] == "Foo-"
    ensures ParseMonthDayYear(token).None?
  {
    assert Lower(token)[..3] == "foo";
  }
}
