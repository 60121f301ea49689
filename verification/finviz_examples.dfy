/**
 * Worked examples of the carry-forward loop of `finviz.py` (lines 47-64),
 * first on raw table rows read through `Read`, then over readings so that no
 * date token has to be parsed: a time-only row takes the date of the row above
 * it, a row whose date token does not parse falls back to that date too, and
 * rows before any date are dropped.
 */
module FinvizExamples {
  import opened Wrappers
  import opened Text
  import opened Calendar
  import opened MonthDayYear
  import opened Records
  import F = FinvizNormalize

  /** A run over a single row that cannot fail is that row's step. */
  lemma RunOne(ticker: string, last: Option<Date>, row: F.Reading)
    requires !row.Unpackable?
    ensures F.Run(ticker, last, [row]) == Success(F.StepRow(ticker, last, row).value)
  {
    assert [row][1..] == [];
    var s := F.StepRow(ticker, last, row).value;
    assert s.emitted + [] == s.emitted;
  }

  /** A dated headline followed by a time-only one: both are filed under the
      first row's date, which stays the current date afterwards. */
  lemma CarryForward(d: Date, token: string, time1: string, title1: string, time2: string, title2: string)
    ensures F.Run("X", None, [F.Dated(token, Some(d), time1, title1), F.TimeOnly(time2, title2)])
         == Success(F.Step([Record("X", d, time1, title1), Record("X", d, time2, title2)], Some(d)))
  {
    var first := F.Dated(token, Some(d), time1, title1);
    var second := F.TimeOnly(time2, title2);
    var rows := [first, second];
    assert rows[1..] == [second];
    RunOne("X", Some(d), second);
    var a := Record("X", d, time1, title1);
    var b := Record("X", d, time2, title2);
    assert F.StepRow("X", None, first) == Success(F.Step([a], Some(d)));
    assert F.StepRow("X", Some(d), second) == Success(F.Step([b], Some(d)));
    assert F.Run("X", Some(d), rows[1..]) == Success(F.Step([b], Some(d)));
    assert F.Run("X", None, rows) == Success(F.Step([a] + [b], Some(d)));
    assert [a] + [b] == [a, b];
  }

  /** A label whose date token does not parse (the `except` of
      finviz.py:57-58) is filed under the date already in hand: here a
      `Today` token, which `%b-%d-%y` rejects, after a token that parses. */
  lemma FallbackExample(token: string, d: Date)
    requires ParseMonthDayYear(token) == Some(d)
    ensures F.Run("X", None, [F.Dated(token, Some(d), "09:00AM", "a"), F.Dated("Today", ParseMonthDayYear("Today"), "10:00AM", "b")])
         == Success(F.Step([Record("X", d, "09:00AM", "a"), Record("X", d, "10:00AM", "b")], Some(d)))
  {
    assert ParseMonthDayYear("Today") == None;
    var first := F.Dated(token, Some(d), "09:00AM", "a");
    var second := F.Dated("Today", None, "10:00AM", "b");
    var rows := [first, second];
    assert rows[1..] == [second];
    RunOne("X", Some(d), second);
    var a := Record("X", d, "09:00AM", "a");
    var b := Record("X", d, "10:00AM", "b");
    assert F.StepRow("X", None, first) == Success(F.Step([a], Some(d)));
    assert F.StepRow("X", Some(d), second) == Success(F.Step([b], Some(d)));
    assert F.Run("X", Some(d), rows[1..]) == Success(F.Step([b], Some(d)));
    assert F.Run("X", None, rows) == Success(F.Step([a] + [b], Some(d)));
    assert [a] + [b] == [a, b];
  }

  /** A time-only headline before any date is dropped (finviz.py:61-62 with
      `last_date` still `None`). */
  lemma NoDateYetExample()
    ensures F.Run("X", None, [F.TimeOnly("10:00AM", "b")]) == Success(F.Step([], None))
  {
    RunOne("X", None, F.TimeOnly("10:00AM", "b"));
    assert F.StepRow("X", None, F.TimeOnly("10:00AM", "b")) == Success(F.Step([], None));
  }

  /** A label of two space-free words, one space apart, is read as a date
      token and a time, with the token sent through `strptime`. */
  lemma ReadTwoWords(row: F.Row, token: string, time: string)
    requires |row.cells| >= 2
    requires Strip(row.cells[0]) == token + [' '] + time
    requires ' ' !in token && ' ' !in time
    ensures F.Read(row) == F.Dated(token, ParseMonthDayYear(token), time, Strip(row.cells[1]))
  {
    var dateTime := Strip(row.cells[0]);
    SplitAfterFirstPiece(token, ' ', time);
    SplitWithoutSeparator(time, ' ');
    assert Split(dateTime, ' ') == [token, time];
    var r := F.Read(row);
    assert r.Dated?;
    SplitAfterFirstPiece(r.token, ' ', r.time);
    SplitWithoutSeparator(r.time, ' ');
  }

  /** The cells of the example rows are already stripped. */
  lemma FirstLabel()
    ensures Strip("Jun-01-24 09:00AM") == "Jun-01-24 09:00AM"
  {
    StripTrimmed("Jun-01-24 09:00AM");
  }

  lemma FirstLabelWords()
    ensures "Jun-01-24 09:00AM" == "Jun-01-24" + [' '] + "09:00AM"
    ensures ' ' !in "Jun-01-24" && ' ' !in "09:00AM"
  {
  }

  lemma FirstTitle()
    ensures Strip("Stocks rally") == "Stocks rally"
  {
    StripTrimmed("Stocks rally");
  }

  lemma SecondLabel()
    ensures Strip("10:15AM") == "10:15AM"
  {
    StripTrimmed("10:15AM");
  }

  lemma SecondTitle()
    ensures Strip("Fed speaks") == "Fed speaks"
  {
    StripTrimmed("Fed speaks");
  }

  /** `Jun-01-24` is read as 2024-06-01. */
  lemma June1Token()
    ensures ParseMonthDayYear("Jun-01-24") == Some(Date(2024, 6, 1))
  {
    assert FormatMonthDayYear(Date(2024, 6, 1)) == "Jun-01-24";
    MonthDayYearRoundTrip(Date(2024, 6, 1));
  }

  /** A table of two raw rows: a `DATE TIME` label whose date parses, then a
      bare time. Both headlines are filed under the parsed date, with the
      stripped titles. For the rows `Jun-01-24 09:00AM` / `Stocks rally` and
      `10:15AM` / `Fed speaks` (`FirstLabel`, `FirstLabelWords`, `June1Token`,
      `SecondLabel`, `FirstTitle`, `SecondTitle`) the date is 2024-06-01. */
  lemma RawRowsExample(label1: string, title1: string, label2: string, title2: string,
                       token: string, time1: string, time2: string, d: Date)
    requires Strip(label1) == token + [' '] + time1 && ' ' !in token && ' ' !in time1
    requires ParseMonthDayYear(token) == Some(d)
    requires Strip(label2) == time2 && ' ' !in time2
    ensures F.NormalizeTable(F.NewsTable("X", [F.Row([label1, title1]), F.Row([label2, title2])]))
         == Success([Record("X", d, time1, Strip(title1)), Record("X", d, time2, Strip(title2))])
  {
    var rows := [F.Row([label1, title1]), F.Row([label2, title2])];
    var readings := [F.Dated(token, Some(d), time1, Strip(title1)), F.TimeOnly(time2, Strip(title2))];
    ReadTwoWords(rows[0], token, time1);
    assert F.Read(rows[1]) == F.TimeOnly(time2, Strip(title2));
    ReadAllOfTwo(rows[0], rows[1]);
    CarryForward(d, token, time1, Strip(title1), time2, Strip(title2));
    TableOfRun(F.NewsTable("X", rows), readings);
  }

  lemma ReadAllOfTwo(r0: F.Row, r1: F.Row)
    ensures F.ReadAll([r0, r1]) == [F.Read(r0), F.Read(r1)]
  {
    var r := F.ReadAll([r0, r1]);
    assert |r| == 2 && r[0] == F.Read(r0) && r[1] == F.Read(r1);
  }

  /** A table whose readings run without error yields the records of the run. */
  lemma TableOfRun(table: F.NewsTable, readings: seq<F.Reading>)
    requires F.ReadAll(table.rows) == readings
    requires F.Run(table.ticker, None, readings).Success?
    ensures F.NormalizeTable(table) == Success(F.Run(table.ticker, None, readings).value.emitted)
  {
    F.RunFailsOnFirstUnpackable(table.ticker, None, readings);
  }
}
