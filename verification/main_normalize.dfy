/**
 * The headline parser of `main.py` (lines 35-63). Unlike the `finviz.py`
 * variant it keeps no state between rows: each row is dated on its own from
 * its label, against the day the script runs. A one-word label is a time of
 * today; otherwise the first word is `Today`, `Yesterday` or a `%b-%d-%y`
 * date, and the second word is the time. Dates are rendered as `YYYY-MM-DD`
 * text and read back by `pd.to_datetime(..., errors='coerce')`, and rows whose
 * date does not read back are dropped.
 */
module MainNormalize {
  import opened Wrappers
  import opened Text
  import opened Calendar
  import opened MonthDayYear
  import opened Records

  /** One `<tr>` of the news table: the text of its first `<a>` (`row.a`) and
      of its first `<td>` (`row.td`), `None` where the row has no such tag. */
  datatype Row = Row(anchor: Option<string>, cell: Option<string>)

  /** One entry of `news_tables`: a ticker and its table's rows in page order. */
  datatype NewsTable = NewsTable(ticker: string, rows: seq<Row>)

  /** One entry of `parsed_data`: the date is still the text `strftime` made. */
  datatype Entry = Entry(ticker: string, date: string, time: string, title: string)

  /** `datetime.today() - timedelta(days=1)` raises `OverflowError` on the
      first day `datetime` can hold; nothing catches it. */
  datatype Error = DateOverflow

  const TodayWord: string := "Today"
  const YesterdayWord: string := "Yesterday"

  /** The date the leading word of a two-word label names (main.py:47-56):
      `None` when `strptime` raises `ValueError` and the row is skipped. */
  function KeywordDate(today: Date, keyword: string): (r: Result<Option<Date>, Error>)
    requires Valid(today)
    ensures r.Failure? <==> keyword == YesterdayWord && today == FirstDay
    ensures r.Success? && r.value.Some? ==> Valid(r.value.value)
    ensures r.Success? && r.value.None? ==>
      keyword != TodayWord && keyword != YesterdayWord && ParseMonthDayYear(keyword).None?
  {
    if keyword == TodayWord then Success(Some(today))
    else if keyword == YesterdayWord then
      if today == FirstDay then Failure(DateOverflow) else Success(Some(Predecessor(today)))
    else Success(ParseMonthDayYear(keyword))
  }

  /** One iteration of the loop of main.py:39-58: at most one entry. Rows
      without an anchor or a cell are skipped; the title is the anchor's text
      as it stands; the label is the cell's stripped text split at spaces. */
  function ParseRow(today: Date, ticker: string, row: Row): (r: Result<Option<Entry>, Error>)
    requires Valid(today)
    ensures row.anchor.None? || row.cell.None? ==> r == Success(None)
    ensures r.Failure? ==> today == FirstDay
    ensures r.Success? && r.value.Some? ==>
      && r.value.value.ticker == ticker
      && r.value.value.title == row.anchor.value
      && ' ' !in r.value.value.time
  {
    if row.anchor.None? || row.cell.None? then Success(None)
    else
      var title := row.anchor.value;
      var words := Split(Strip(row.cell.value), ' ');
      if |words| == 1 then
        Success(Some(Entry(ticker, FormatIso(today), words[0], title)))
      else DatedEntry(today, ticker, title, words[0], words[1])
  }

  /** The entry of a label whose first two words are `keyword` and `time`:
      dated as the keyword says, skipped when it names no date, and failing
      when computing yesterday overflows. */
  function DatedEntry(today: Date, ticker: string, title: string, keyword: string, time: string)
    : (r: Result<Option<Entry>, Error>)
    requires Valid(today)
    ensures keyword == TodayWord ==> r == Success(Some(Entry(ticker, FormatIso(today), time, title)))
    ensures keyword == YesterdayWord && today != FirstDay ==>
      r == Success(Some(Entry(ticker, FormatIso(Predecessor(today)), time, title)))
    ensures keyword == YesterdayWord && today == FirstDay ==> r == Failure(DateOverflow)
    ensures keyword != TodayWord && keyword != YesterdayWord && ParseMonthDayYear(keyword).Some? ==>
      r == Success(Some(Entry(ticker, FormatIso(ParseMonthDayYear(keyword).value), time, title)))
    ensures keyword != TodayWord && keyword != YesterdayWord && ParseMonthDayYear(keyword).None? ==>
      r == Success(None)
  {
    var date :- KeywordDate(today, keyword);
    match date
    case None => Success(None)
    case Some(d) => Success(Some(Entry(ticker, FormatIso(d), time, title)))
  }

  /** A label of two or more words: the first word, a space, the second word,
      and then nothing or further words after another space. */
  ghost predicate Words(text: string, first: string, second: string, tail: string) {
    && text == first + [' '] + second + tail
    && ' ' !in first && ' ' !in second
    && (tail == [] || tail[0] == ' ')
  }

  /** Every label holding a space has such a decomposition. */
  lemma {:induction false} LabelHasWords(text: string)
    requires ' ' in text
    ensures exists first, second, tail :: Words(text, first, second, tail)
  {
    var parts := Split(text, ' ');
    assert |parts| >= 2;
    if |parts| == 2 {
      assert Join(parts[1..], ' ') == parts[1];
      assert Words(text, parts[0], parts[1], []);
    } else {
      assert Join(parts, ' ') == parts[0] + [' '] + parts[1] + [' '] + Join(parts[2..], ' ') by {
        assert parts[1..][1..] == parts[2..];
      }
      assert Words(text, parts[0], parts[1], [' '] + Join(parts[2..], ' '));
    }
  }

  /** Splitting a decomposed label at spaces gives its first two words first. */
  lemma WordsSplit(text: string, first: string, second: string, tail: string)
    requires Words(text, first, second, tail)
    ensures |Split(text, ' ')| >= 2
    ensures Split(text, ' ')[0] == first && Split(text, ' ')[1] == second
  {
    assert text == first + [' '] + (second + tail);
    SplitAfterFirstPiece(first, ' ', second + tail);
    if tail == [] {
      assert second + tail == second;
      SplitWithoutSeparator(second, ' ');
    } else {
      assert second + tail == second + [' '] + tail[1..];
      SplitAfterFirstPiece(second, ' ', tail[1..]);
    }
  }

  /** A one-word label (main.py:43-45) is a time of today: the entry gets
      today's date and the whole label as its time. */
  lemma OneWordIsToday(today: Date, ticker: string, title: string, cell: string)
    requires Valid(today)
    requires ' ' !in Strip(cell)
    ensures ParseRow(today, ticker, Row(Some(title), Some(cell)))
         == Success(Some(Entry(ticker, FormatIso(today), Strip(cell), title)))
  {
    SplitWithoutSeparator(Strip(cell), ' ');
  }

  /** A label of two or more words (main.py:46-57): the date comes from the
      first word alone, the time is exactly the second word, and whatever
      follows is ignored. */
  lemma TwoWordsRow(today: Date, ticker: string, title: string, cell: string,
                    first: string, second: string, tail: string)
    requires Valid(today)
    requires Words(Strip(cell), first, second, tail)
    ensures ParseRow(today, ticker, Row(Some(title), Some(cell)))
         == DatedEntry(today, ticker, title, first, second)
  {
    WordsSplit(Strip(cell), first, second, tail);
  }

  /** `Today TIME` is dated today, whatever follows the time. */
  lemma TodayWordSpec(today: Date, ticker: string, title: string, cell: string, second: string, tail: string)
    requires Valid(today)
    requires Words(Strip(cell), TodayWord, second, tail)
    ensures ParseRow(today, ticker, Row(Some(title), Some(cell)))
         == Success(Some(Entry(ticker, FormatIso(today), second, title)))
  {
    TwoWordsRow(today, ticker, title, cell, TodayWord, second, tail);
  }

  /** `Yesterday TIME` is dated the calendar day before today, across month,
      year and leap-day boundaries; on the first day `datetime` can hold the
      subtraction overflows. */
  lemma YesterdayWordSpec(today: Date, ticker: string, title: string, cell: string, second: string, tail: string)
    requires Valid(today)
    requires Words(Strip(cell), YesterdayWord, second, tail)
    ensures today != FirstDay ==>
      ParseRow(today, ticker, Row(Some(title), Some(cell)))
      == Success(Some(Entry(ticker, FormatIso(Predecessor(today)), second, title)))
    ensures today == FirstDay ==> ParseRow(today, ticker, Row(Some(title), Some(cell))) == Failure(DateOverflow)
  {
    TwoWordsRow(today, ticker, title, cell, YesterdayWord, second, tail);
  }

  /** Any other first word is a `%b-%d-%y` date; when it does not parse the
      row is dropped, and nothing else is affected. */
  lemma DateWordSpec(today: Date, ticker: string, title: string, cell: string,
                     first: string, second: string, tail: string)
    requires Valid(today)
    requires Words(Strip(cell), first, second, tail)
    requires first != TodayWord && first != YesterdayWord
    ensures ParseMonthDayYear(first).Some? ==>
      ParseRow(today, ticker, Row(Some(title), Some(cell)))
      == Success(Some(Entry(ticker, FormatIso(ParseMonthDayYear(first).value), second, title)))
    ensures ParseMonthDayYear(first).None? ==> ParseRow(today, ticker, Row(Some(title), Some(cell))) == Success(None)
  {
    TwoWordsRow(today, ticker, title, cell, first, second, tail);
  }

  /** The dates a row can be given: today, the day before, or a date the
      two-digit-year parser can produce, always as the ISO text of a valid date. */
  lemma {:induction false} RowDates(today: Date, ticker: string, row: Row)
    requires Valid(today)
    requires ParseRow(today, ticker, row).Success? && ParseRow(today, ticker, row).value.Some?
    ensures exists d ::
      && Valid(d) && ParseRow(today, ticker, row).value.value.date == FormatIso(d)
      && (d == today || (today != FirstDay && d == Predecessor(today))
          || PivotFirstYear <= d.year <= PivotLastYear)
  {
    var words := Split(Strip(row.cell.value), ' ');
    if |words| != 1 {
      var d := KeywordDate(today, words[0]).value.value;
      assert ParseRow(today, ticker, row).value.value.date == FormatIso(d);
    }
  }

  /** The loop over one ticker's rows. */
  function ParseTable(today: Date, ticker: string, rows: seq<Row>): (r: Result<seq<Entry>, Error>)
    requires Valid(today)
    ensures r.Failure? ==> today == FirstDay
    ensures r.Success? ==> |r.value| <= |rows|
    ensures r.Success? ==> forall i :: 0 <= i < |r.value| ==> r.value[i].ticker == ticker
    decreases |rows|
  {
    if |rows| == 0 then Success([])
    else
      var first :- ParseRow(today, ticker, rows[0]);
      var rest :- ParseTable(today, ticker, rows[1..]);
      Success((if first.Some? then [first.value] else []) + rest)
  }

  /** No state is carried between rows: the rows of `a + b` give the entries
      of `a` followed by those of `b`, and the first error wins. */
  lemma {:induction false} ParseTableAppend(today: Date, ticker: string, a: seq<Row>, b: seq<Row>)
    requires Valid(today)
    ensures ParseTable(today, ticker, a + b)
         == Then(ParseTable(today, ticker, a), ParseTable(today, ticker, b))
    decreases |a|
  {
    if |a| == 0 {
      assert a + b == b;
      ThenUnit(ParseTable(today, ticker, b));
    } else {
      assert (a + b)[0] == a[0];
      assert (a + b)[1..] == a[1..] + b;
      ParseTableAppend(today, ticker, a[1..], b);
      var x := ParseRow(today, ticker, a[0]);
      var one: Result<seq<Entry>, Error> :=
        if x.Failure? then Failure(x.error) else Success(if x.value.Some? then [x.value.value] else []);
      assert ParseTable(today, ticker, a + b) == Then(one, ParseTable(today, ticker, a[1..] + b));
      assert ParseTable(today, ticker, a) == Then(one, ParseTable(today, ticker, a[1..]));
      ThenAssociative(one, ParseTable(today, ticker, a[1..]), ParseTable(today, ticker, b));
    }
  }

  /** `parsed_data` for all tickers, in table order. */
  function Parse(today: Date, tables: seq<NewsTable>): (r: Result<seq<Entry>, Error>)
    requires Valid(today)
    ensures r.Failure? ==> today == FirstDay
    decreases |tables|
  {
    if |tables| == 0 then Success([])
    else Then(ParseTable(today, tables[0].ticker, tables[0].rows), Parse(today, tables[1..]))
  }

  /** Tickers are processed independently: the tables of `a + b` give the
      entries of `a` followed by those of `b`. */
  lemma {:induction false} ParseAppend(today: Date, a: seq<NewsTable>, b: seq<NewsTable>)
    requires Valid(today)
    ensures Parse(today, a + b) == Then(Parse(today, a), Parse(today, b))
    decreases |a|
  {
    if |a| == 0 {
      assert a + b == b;
      ThenUnit(Parse(today, b));
    } else {
      var x := ParseTable(today, a[0].ticker, a[0].rows);
      assert (a + b)[0] == a[0];
      assert (a + b)[1..] == a[1..] + b;
      assert Parse(today, a + b) == Then(x, Parse(today, a[1..] + b));
      ParseAppend(today, a[1..], b);
      ThenAssociative(x, Parse(today, a[1..]), Parse(today, b));
      assert Parse(today, a) == Then(x, Parse(today, a[1..]));
    }
  }

  /** Every entry carries the ticker of one of the tables. */
  lemma {:induction false} ParseTickers(today: Date, tables: seq<NewsTable>)
    requires Valid(today)
    ensures Parse(today, tables).Success? ==> forall i :: 0 <= i < |Parse(today, tables).value| ==>
      exists j :: 0 <= j < |tables| && tables[j].ticker == Parse(today, tables).value[i].ticker
    decreases |tables|
  {
    if |tables| > 0 && Parse(today, tables).Success? {
      ParseTickers(today, tables[1..]);
      var head := ParseTable(today, tables[0].ticker, tables[0].rows).value;
      var rest := Parse(today, tables[1..]).value;
      forall i | 0 <= i < |Parse(today, tables).value|
        ensures exists j :: 0 <= j < |tables| && tables[j].ticker == Parse(today, tables).value[i].ticker
      {
        if i < |head| {
          assert Parse(today, tables).value[i] == head[i];
        } else {
          assert Parse(today, tables).value[i] == rest[i - |head|];
          var j :| 0 <= j < |tables[1..]| && tables[1..][j].ticker == rest[i - |head|].ticker;
          assert tables[j + 1] == tables[1..][j];
        }
      }
    }
  }

  // ---------------------------------------------------------------------------
  // main.py:61-63: the DataFrame's date column is read back as dates

  /** The whole days `pandas.Timestamp` can hold: its minimum is
      1677-09-21 00:12:43.145224193, so that day's midnight is already out of
      range, and its maximum is 2262-04-11 23:47:16.854775807. */
  const TimestampFirstDay: Date := Date(1677, 9, 22)
  const TimestampLastDay: Date := Date(2262, 4, 11)

  predicate InTimestampRange(d: Date) {
    !Before(d, TimestampFirstDay) && !Before(TimestampLastDay, d)
  }

  /** `pd.to_datetime(s, errors='coerce').date()` for the `YYYY-MM-DD` text
      the loop produces: the date it spells, or `None` (`NaT`) when it is
      outside what a `Timestamp` can hold. */
  function ReadDate(s: string): (r: Option<Date>)
    ensures r.Some? ==> Valid(r.value) && InTimestampRange(r.value) && FormatIso(r.value) == s
  {
    match ParseIso(s)
    case Some(d) => if InTimestampRange(d) then Some(d) else None
    case None => None
  }

  /** main.py:61-63: build the frame, coerce the date column, and drop the
      rows whose date became `NaT`. */
  function Frame(entries: seq<Entry>): (r: seq<Record>)
    ensures |r| <= |entries|
    ensures forall i :: 0 <= i < |r| ==> exists j :: 0 <= j < |entries| && Renders(entries[j], r[i])
    decreases |entries|
  {
    if |entries| == 0 then []
    else
      var e := entries[0];
      var rest := Frame(entries[1..]);
      assert forall j :: 0 <= j < |entries| - 1 ==> entries[1..][j] == entries[j + 1];
      match ReadDate(e.date)
      case Some(d) => [Record(e.ticker, d, e.time, e.title)] + rest
      case None => rest
  }

  /** One entry is kept exactly when its date text reads back, and then
      with the date it reads back as. */
  lemma FrameOne(e: Entry)
    ensures Frame([e]) == if ReadDate(e.date).Some? then [Record(e.ticker, ReadDate(e.date).value, e.time, e.title)] else []
  {
    assert [e][1..] == [];
  }

  /** `dropna` treats every entry on its own and keeps the order: the frame
      of `a + b` is the frame of `a` followed by the frame of `b`. */
  lemma {:induction false} FrameAppend(a: seq<Entry>, b: seq<Entry>)
    ensures Frame(a + b) == Frame(a) + Frame(b)
    decreases |a|
  {
    if |a| == 0 {
      assert a + b == b;
    } else {
      assert (a + b)[0] == a[0];
      assert (a + b)[1..] == a[1..] + b;
      FrameAppend(a[1..], b);
    }
  }

  /** `record` is `entry` with its date text read as the date it spells. */
  predicate Renders(entry: Entry, record: Record) {
    && Valid(record.date)
    && entry.date == FormatIso(record.date)
    && entry.ticker == record.ticker && entry.time == record.time && entry.title == record.title
  }

  /** Entries whose dates are the ISO text of dates a `Timestamp` can hold
      all survive the coercion, in order, each with the very date rendered. */
  lemma {:induction false} FrameKeepsRendered(entries: seq<Entry>, dates: seq<Date>)
    requires |dates| == |entries|
    requires forall i :: 0 <= i < |entries| ==>
      Valid(dates[i]) && InTimestampRange(dates[i]) && entries[i].date == FormatIso(dates[i])
    ensures |Frame(entries)| == |entries|
    ensures forall i :: 0 <= i < |entries| ==>
      Frame(entries)[i] == Record(entries[i].ticker, dates[i], entries[i].time, entries[i].title)
    decreases |entries|
  {
    if |entries| > 0 {
      var e := entries[0];
      ReadDateOfIso(dates[0]);
      var head := Record(e.ticker, dates[0], e.time, e.title);
      assert Frame(entries) == [head] + Frame(entries[1..]);
      FrameKeepsRendered(entries[1..], dates[1..]);
    }
  }

  /** The ISO text of a date a `Timestamp` can hold reads back as that date. */
  lemma ReadDateOfIso(d: Date)
    requires Valid(d) && InTimestampRange(d)
    ensures ReadDate(FormatIso(d)) == Some(d)
  {
    IsoRoundTrip(d);
  }

  /** The days on which the coercion can drop nothing: today and yesterday
      both lie in the `Timestamp` range. */
  predicate SafeToday(today: Date) {
    Valid(today) && Before(TimestampFirstDay, today) && !Before(TimestampLastDay, today)
  }

  /** Every entry the loop produces on a safe day reads back as the date it
      was rendered from, so `dropna` removes no row. */
  lemma {:induction false} EntriesReadBack(today: Date, tables: seq<NewsTable>)
    requires SafeToday(today)
    requires Parse(today, tables).Success?
    ensures |Frame(Parse(today, tables).value)| == |Parse(today, tables).value|
  {
    var entries := Parse(today, tables).value;
    var dates := seq(|entries|, i requires 0 <= i < |entries| => EntryDate(today, tables, i));
    FrameKeepsRendered(entries, dates);
  }

  /** The date entry `i` was rendered from, in the `Timestamp` range. */
  ghost function EntryDate(today: Date, tables: seq<NewsTable>, i: int): (d: Date)
    requires SafeToday(today)
    requires Parse(today, tables).Success? && 0 <= i < |Parse(today, tables).value|
    ensures Valid(d) && InTimestampRange(d) && Parse(today, tables).value[i].date == FormatIso(d)
  {
    ParseDates(today, tables, i);
    var d :| Valid(d) && InTimestampRange(d) && Parse(today, tables).value[i].date == FormatIso(d);
    d
  }

  lemma {:induction false} ParseDates(today: Date, tables: seq<NewsTable>, i: int)
    requires SafeToday(today)
    requires Parse(today, tables).Success? && 0 <= i < |Parse(today, tables).value|
    ensures exists d :: Valid(d) && InTimestampRange(d) && Parse(today, tables).value[i].date == FormatIso(d)
    decreases |tables|
  {
    var head := ParseTable(today, tables[0].ticker, tables[0].rows).value;
    if i < |head| {
      TableDates(today, tables[0].ticker, tables[0].rows, i);
    } else {
      ParseDates(today, tables[1..], i - |head|);
    }
  }

  lemma {:induction false} TableDates(today: Date, ticker: string, rows: seq<Row>, i: int)
    requires SafeToday(today)
    requires ParseTable(today, ticker, rows).Success? && 0 <= i < |ParseTable(today, ticker, rows).value|
    ensures exists d :: Valid(d) && InTimestampRange(d) && ParseTable(today, ticker, rows).value[i].date == FormatIso(d)
    decreases |rows|
  {
    ParseTableCons(today, ticker, rows);
    if ParseRow(today, ticker, rows[0]).value.Some? && i == 0 {
      HeadDate(today, ticker, rows);
    } else {
      var j := TailIndex(today, ticker, rows, i);
      TableDates(today, ticker, rows[1..], j);
    }
  }

  /** The first entry of a run that starts with one is that row's entry. */
  lemma HeadDate(today: Date, ticker: string, rows: seq<Row>)
    requires SafeToday(today)
    requires ParseTable(today, ticker, rows).Success? && |rows| > 0
    requires ParseRow(today, ticker, rows[0]).Success? && ParseRow(today, ticker, rows[0]).value.Some?
    ensures |ParseTable(today, ticker, rows).value| > 0
    ensures exists d :: Valid(d) && InTimestampRange(d) && ParseTable(today, ticker, rows).value[0].date == FormatIso(d)
  {
    ParseTableCons(today, ticker, rows);
    RowDateInRange(today, ticker, rows[0]);
  }

  /** Every other entry of a run is an entry of the run over the later rows. */
  lemma TailIndex(today: Date, ticker: string, rows: seq<Row>, i: int) returns (j: int)
    requires Valid(today)
    requires ParseTable(today, ticker, rows).Success? && 0 <= i < |ParseTable(today, ticker, rows).value|
    requires ParseRow(today, ticker, rows[0]).Success?
    requires ParseRow(today, ticker, rows[0]).value.None? || i > 0
    ensures ParseTable(today, ticker, rows[1..]).Success?
    ensures 0 <= j < |ParseTable(today, ticker, rows[1..]).value|
    ensures ParseTable(today, ticker, rows).value[i] == ParseTable(today, ticker, rows[1..]).value[j]
  {
    ParseTableCons(today, ticker, rows);
    j := if ParseRow(today, ticker, rows[0]).value.Some? then i - 1 else i;
  }

  /** A successful run is the first row's entry, if any, then the rest's. */
  lemma ParseTableCons(today: Date, ticker: string, rows: seq<Row>)
    requires Valid(today)
    requires ParseTable(today, ticker, rows).Success? && |rows| > 0
    ensures ParseRow(today, ticker, rows[0]).Success?
    ensures ParseTable(today, ticker, rows[1..]).Success?
    ensures var first := ParseRow(today, ticker, rows[0]).value;
      ParseTable(today, ticker, rows).value
      == (if first.Some? then [first.value] else []) + ParseTable(today, ticker, rows[1..]).value
  {
  }

  /** On a safe day every entry's date is the ISO text of a date in range. */
  lemma RowDateInRange(today: Date, ticker: string, row: Row)
    requires SafeToday(today)
    requires ParseRow(today, ticker, row).Success? && ParseRow(today, ticker, row).value.Some?
    ensures exists d :: Valid(d) && InTimestampRange(d) && ParseRow(today, ticker, row).value.value.date == FormatIso(d)
  {
    RowDates(today, ticker, row);
    var d :| && Valid(d) && ParseRow(today, ticker, row).value.value.date == FormatIso(d)
      && (d == today || (today != FirstDay && d == Predecessor(today))
          || PivotFirstYear <= d.year <= PivotLastYear);
    CandidateInRange(today, d);
  }

  /** Today, yesterday and every date of the years 1969..2068 are in range
      on a safe day. */
  lemma CandidateInRange(today: Date, d: Date)
    requires SafeToday(today) && Valid(d)
    requires d == today || (today != FirstDay && d == Predecessor(today))
             || PivotFirstYear <= d.year <= PivotLastYear
    ensures InTimestampRange(d)
  {
    if today != FirstDay && d == Predecessor(today) {
      PredecessorIsImmediate(today, TimestampFirstDay);
    }
  }
}
