/**
 * The headline parser of `finviz.py` (lines 42-64). Each ticker's news table
 * is read row by row with one piece of state, `last_date`, which starts out
 * as `None` for every ticker. A label `"DATE TIME"` whose date token parses
 * sets the date; any other label (a bare time, or a date token that does not
 * parse) takes `last_date`; a row is kept only once some date is known.
 * There is no `Today`/`Yesterday` handling in this variant: such a token is
 * simply a date token that does not parse.
 */
module FinvizNormalize {
  import opened Wrappers
  import opened Text
  import opened Calendar
  import opened MonthDayYear
  import opened Records

  /** One `<tr>` of a ticker's news table, as the texts of its `<td>` cells. */
  datatype Row = Row(cells: seq<string>)

  /** One entry of `news_tables`: a ticker and its table's rows in page order. */
  datatype NewsTable = NewsTable(ticker: string, rows: seq<Row>)

  /** `date_str, time_str = date_time.split(' ')` raises `ValueError` when the
      label holds two or more spaces; it is outside the `try`, so it ends the
      whole run. */
  datatype Error = TooManyValuesToUnpack(ticker: string, dateTime: string)

  /** How the loop body sees a row once it has read it. */
  datatype Reading =
    | Skipped
    | TimeOnly(time: string, title: string)
    | Dated(token: string, date: Option<Date>, time: string, title: string)
    | Unpackable(dateTime: string)

  /** finviz.py:48-56: fewer than two cells skip the row; otherwise the
      stripped first cell is the label and the stripped second the title. A
      label with one space is unpacked into a date token and a time, and the
      token goes through `strptime`; two or more spaces fail the unpacking. */
  function Read(row: Row): (r: Reading)
    ensures r.Skipped? <==> |row.cells| < 2
    ensures r.TimeOnly? <==> |row.cells| >= 2 && ' ' !in Strip(row.cells[0])
    ensures r.Dated? <==> |row.cells| >= 2 && Count(Strip(row.cells[0]), ' ') == 1
    ensures r.Dated? ==> r.token + [' '] + r.time == Strip(row.cells[0])
    ensures r.Dated? ==> ' ' !in r.token && ' ' !in r.time
    ensures r.Dated? ==> r.date == ParseMonthDayYear(r.token)
    ensures r.TimeOnly? ==> r.time == Strip(row.cells[0])
    ensures r.TimeOnly? || r.Dated? ==> r.title == Strip(row.cells[1])
    ensures r.Unpackable? ==> r.dateTime == Strip(row.cells[0])
  {
    if |row.cells| < 2 then Skipped
    else
      var dateTime := Strip(row.cells[0]);
      var title := Strip(row.cells[1]);
      if ' ' !in dateTime then
        SplitWithoutSeparator(dateTime, ' ');
        TimeOnly(dateTime, title)
      else
        var parts := Split(dateTime, ' ');
        if |parts| == 2 then
          assert Join(parts, ' ') == parts[0] + [' '] + parts[1];
          Dated(parts[0], ParseMonthDayYear(parts[0]), parts[1], title)
        else Unpackable(dateTime)
  }

  /** Every row of a table, read. */
  function ReadAll(rows: seq<Row>): (r: seq<Reading>)
    ensures |r| == |rows|
    ensures forall k :: 0 <= k < |rows| ==> r[k] == Read(rows[k])
  {
    seq(|rows|, k requires 0 <= k < |rows| => Read(rows[k]))
  }

  /** Rows are read independently of one another: reading two runs of rows
      one after the other is reading their concatenation. */
  lemma ReadAllAppend(a: seq<Row>, b: seq<Row>)
    ensures ReadAll(a + b) == ReadAll(a) + ReadAll(b)
  {
    assert forall k :: 0 <= k < |b| ==> (a + b)[|a| + k] == b[k];
  }

  /** The date a row supplies by itself: its date token, when it parses. */
  function Resolved(reading: Reading): Option<Date> {
    if reading.Dated? then reading.date else None
  }

  /** The record a row contributes when `date` is the date it is given. */
  function Emit(ticker: string, date: Option<Date>, reading: Reading): seq<Record> {
    match reading
    case TimeOnly(time, title) =>
      if date.Some? then [Record(ticker, date.value, time, title)] else []
    case Dated(_, _, time, title) =>
      if date.Some? then [Record(ticker, date.value, time, title)] else []
    case _ => []
  }

  /** What one iteration produces: the records appended and the new `last_date`. */
  datatype Step = Step(emitted: seq<Record>, last: Option<Date>)

  /** One iteration of the loop of finviz.py:47-64. A row's own parsed date
      replaces `last_date`; every other row leaves it alone; a kept row gets
      the resulting date, and a row is kept only if that date exists. */
  function StepRow(ticker: string, last: Option<Date>, reading: Reading): (r: Result<Step, Error>)
    ensures r.Failure? <==> reading.Unpackable?
    ensures r.Failure? ==> r.error == TooManyValuesToUnpack(ticker, reading.dateTime)
    ensures r.Success? ==> r.value.last == (if Resolved(reading).Some? then Resolved(reading) else last)
    ensures r.Success? ==> r.value.emitted == Emit(ticker, r.value.last, reading)
  {
    match reading
    case Skipped => Success(Step([], last))
    case Unpackable(dateTime) => Failure(TooManyValuesToUnpack(ticker, dateTime))
    case TimeOnly(time, title) =>
      Success(Step(if last.Some? then [Record(ticker, last.value, time, title)] else [], last))
    case Dated(_, parsed, time, title) =>
      var date := match parsed case Some(d) => Some(d) case None => last;
      Success(Step(if date.Some? then [Record(ticker, date.value, time, title)] else [], date))
  }

  /** The loop over one ticker's rows, threading `last_date` from `last`:
      at most one record per row, each under this ticker; it fails only when
      some label cannot be unpacked. */
  function Run(ticker: string, last: Option<Date>, rows: seq<Reading>): (r: Result<Step, Error>)
    ensures r.Failure? ==> exists k :: 0 <= k < |rows| && rows[k].Unpackable?
    ensures r.Success? ==> |r.value.emitted| <= |rows|
    ensures r.Success? ==> forall i :: 0 <= i < |r.value.emitted| ==> r.value.emitted[i].ticker == ticker
    decreases |rows|
  {
    if |rows| == 0 then Success(Step([], last))
    else
      var first :- StepRow(ticker, last, rows[0]);
      var rest :- Run(ticker, first.last, rows[1..]);
      assert forall k :: 0 <= k < |rows| - 1 ==> rows[1..][k] == rows[k + 1];
      Success(Step(first.emitted + rest.emitted, rest.last))
  }

  /** The records of one ticker: `last_date = None` starts every ticker. The
      table succeeds exactly when no label has two or more spaces, and its
      records are then the stateless description started from `None`. */
  function NormalizeTable(table: NewsTable): (r: Result<seq<Record>, Error>)
    ensures r.Success? <==> Unpacks(ReadAll(table.rows))
    ensures r.Success? ==> r.value == Expected(table.ticker, None, ReadAll(table.rows))
  {
    var readings := ReadAll(table.rows);
    RunFailsOnFirstUnpackable(table.ticker, None, readings);
    if Unpacks(readings) then
      RunIsExpected(table.ticker, None, readings);
      Success(Run(table.ticker, None, readings).value.emitted)
    else
      Failure(Run(table.ticker, None, readings).error)
  }

  /** `parsed_data` for all tickers, in table order, or the error that ends
      the script: it succeeds exactly when every table does, and an error is
      the error of one of the tables. */
  function Normalize(tables: seq<NewsTable>): (r: Result<seq<Record>, Error>)
    ensures r.Success? <==> forall i :: 0 <= i < |tables| ==> NormalizeTable(tables[i]).Success?
    ensures r.Failure? ==> exists i :: 0 <= i < |tables| && NormalizeTable(tables[i]) == Failure(r.error)
    decreases |tables|
  {
    if |tables| == 0 then Success([])
    else
      var rest := Normalize(tables[1..]);
      NormalizeCons(tables, rest);
      Then(NormalizeTable(tables[0]), rest)
  }

  /** The contract of `Normalize` carries over from the tail to the whole. */
  lemma NormalizeCons(tables: seq<NewsTable>, rest: Result<seq<Record>, Error>)
    requires |tables| > 0
    requires rest.Success? <==> forall i :: 0 <= i < |tables[1..]| ==> NormalizeTable(tables[1..][i]).Success?
    requires rest.Failure? ==> exists i :: 0 <= i < |tables[1..]| && NormalizeTable(tables[1..][i]) == Failure(rest.error)
    ensures var r := Then(NormalizeTable(tables[0]), rest);
      (r.Success? <==> forall i :: 0 <= i < |tables| ==> NormalizeTable(tables[i]).Success?)
      && (r.Failure? ==> exists i :: 0 <= i < |tables| && NormalizeTable(tables[i]) == Failure(r.error))
  {
    var head := NormalizeTable(tables[0]);
    if head.Success? && rest.Failure? {
      TailFailure(tables, NormalizeTable, rest.error);
    }
    if head.Success? && rest.Success? {
      AllSucceed(tables, NormalizeTable);
    }
    if (forall i :: 0 <= i < |tables| ==> NormalizeTable(tables[i]).Success?) {
      TailSucceeds(tables, NormalizeTable);
    }
  }

  lemma TailFailure(tables: seq<NewsTable>, f: NewsTable -> Result<seq<Record>, Error>, e: Error)
    requires |tables| > 0
    requires exists i :: 0 <= i < |tables[1..]| && f(tables[1..][i]) == Failure(e)
    ensures exists i :: 0 <= i < |tables| && f(tables[i]) == Failure(e)
  {
    var i :| 0 <= i < |tables[1..]| && f(tables[1..][i]) == Failure(e);
    assert tables[1..][i] == tables[i + 1];
  }

  lemma AllSucceed(tables: seq<NewsTable>, f: NewsTable -> Result<seq<Record>, Error>)
    requires |tables| > 0 && f(tables[0]).Success?
    requires forall i :: 0 <= i < |tables[1..]| ==> f(tables[1..][i]).Success?
    ensures forall i :: 0 <= i < |tables| ==> f(tables[i]).Success?
  {
    forall i | 0 < i < |tables|
      ensures f(tables[i]).Success?
    {
      assert tables[i] == tables[1..][i - 1];
    }
  }

  lemma TailSucceeds(tables: seq<NewsTable>, f: NewsTable -> Result<seq<Record>, Error>)
    requires |tables| > 0
    requires forall i :: 0 <= i < |tables| ==> f(tables[i]).Success?
    ensures forall i :: 0 <= i < |tables[1..]| ==> f(tables[1..][i]).Success?
  {
    forall i | 0 <= i < |tables[1..]|
      ensures f(tables[1..][i]).Success?
    {
      assert tables[1..][i] == tables[i + 1];
    }
  }

  // ---------------------------------------------------------------------------
  // A stateless description of the same loop

  /** The most recent date a row of `rows` supplies by itself. */
  function Latest(rows: seq<Reading>): Option<Date>
    decreases |rows|
  {
    if |rows| == 0 then None
    else if Resolved(rows[|rows| - 1]).Some? then Resolved(rows[|rows| - 1])
    else Latest(rows[..|rows| - 1])
  }

  /** `Latest` is `None` exactly when no row supplies a date, and otherwise
      the date of a row that no later row overrides. */
  lemma {:induction false} LatestSpec(rows: seq<Reading>)
    ensures Latest(rows).None? <==> forall k :: 0 <= k < |rows| ==> Resolved(rows[k]).None?
    ensures Latest(rows).Some? ==>
      exists k ::
        && 0 <= k < |rows| && Resolved(rows[k]) == Latest(rows)
        && (forall j :: k < j < |rows| ==> Resolved(rows[j]).None?)
    decreases |rows|
  {
    if |rows| > 0 {
      var prefix := rows[..|rows| - 1];
      LatestSpec(prefix);
      assert forall k :: 0 <= k < |rows| - 1 ==> rows[k] == prefix[k];
      if Resolved(rows[|rows| - 1]).None? && Latest(rows).Some? {
        var k :| 0 <= k < |prefix| && Resolved(prefix[k]) == Latest(rows)
          && forall j :: k < j < |prefix| ==> Resolved(prefix[j]).None?;
        assert Resolved(rows[k]) == Latest(rows);
      }
    }
  }

  /** The date in effect after `rows` when `initial` was in effect before:
      the latest date the rows supply, else `initial`. */
  function Carried(initial: Option<Date>, rows: seq<Reading>): Option<Date> {
    if Latest(rows).Some? then Latest(rows) else initial
  }

  /** Each usable row, in order, paired with the date in effect at it. */
  function Expected(ticker: string, initial: Option<Date>, rows: seq<Reading>): (r: seq<Record>)
    ensures |r| <= |rows|
    ensures forall i :: 0 <= i < |r| ==> r[i].ticker == ticker
    decreases |rows|
  {
    if |rows| == 0 then []
    else Expected(ticker, initial, rows[..|rows| - 1])
         + Emit(ticker, Carried(initial, rows), rows[|rows| - 1])
  }

  /** No row makes the unpacking raise. */
  predicate Unpacks(rows: seq<Reading>) {
    forall k :: 0 <= k < |rows| ==> !rows[k].Unpackable?
  }

  lemma {:induction false} CarriedCons(initial: Option<Date>, row: Reading, rows: seq<Reading>)
    ensures Carried(initial, [row] + rows) == Carried(Carried(initial, [row]), rows)
    decreases |rows|
  {
    var s := [row] + rows;
    if |rows| == 0 {
      assert s == [row];
    } else {
      assert s[..|s| - 1] == [row] + rows[..|rows| - 1];
      assert s[|s| - 1] == rows[|rows| - 1];
      CarriedCons(initial, row, rows[..|rows| - 1]);
    }
  }

  lemma {:induction false} ExpectedCons(ticker: string, initial: Option<Date>, row: Reading, rows: seq<Reading>)
    ensures Expected(ticker, initial, [row] + rows)
         == Emit(ticker, Carried(initial, [row]), row) + Expected(ticker, Carried(initial, [row]), rows)
    decreases |rows|
  {
    var s := [row] + rows;
    var next := Carried(initial, [row]);
    if |rows| == 0 {
      assert s == [row];
      assert [row][..0] == [];
    } else {
      var prefix := rows[..|rows| - 1];
      assert s[..|s| - 1] == [row] + prefix;
      assert s[|s| - 1] == rows[|rows| - 1];
      ExpectedCons(ticker, initial, row, prefix);
      CarriedCons(initial, row, rows);
    }
  }

  /** The loop agrees with the stateless description: when no label makes
      the unpacking raise, the records are the usable rows in page order,
      each dated by the most recent date supplied at or before it (or the
      starting date), and rows before any date are dropped; the final
      `last_date` is the most recent date supplied. */
  lemma {:induction false} RunIsExpected(ticker: string, initial: Option<Date>, rows: seq<Reading>)
    requires Unpacks(rows)
    ensures Run(ticker, initial, rows)
         == Success(Step(Expected(ticker, initial, rows), Carried(initial, rows)))
    decreases |rows|
  {
    if |rows| == 0 {
    } else {
      var row := rows[0];
      var rest := rows[1..];
      assert rows == [row] + rest;
      assert [row][..0] == [];
      var next := Carried(initial, [row]);
      assert Latest([row]) == Resolved(row);
      assert !row.Unpackable?;
      assert Unpacks(rest) by {
        assert forall k :: 0 <= k < |rest| ==> rest[k] == rows[k + 1];
      }
      RunIsExpected(ticker, next, rest);
      ExpectedCons(ticker, initial, row, rest);
      CarriedCons(initial, row, rest);
    }
  }

  /** The run fails exactly when some row's label has two or more spaces,
      and then it reports the first such row. */
  lemma {:induction false} RunFailsOnFirstUnpackable(ticker: string, initial: Option<Date>, rows: seq<Reading>)
    ensures Run(ticker, initial, rows).Failure? <==> !Unpacks(rows)
    ensures Run(ticker, initial, rows).Failure? ==> exists k ::
      && 0 <= k < |rows| && rows[k].Unpackable? && Unpacks(rows[..k])
      && Run(ticker, initial, rows).error == TooManyValuesToUnpack(ticker, rows[k].dateTime)
    decreases |rows|
  {
    if |rows| > 0 {
      var first := StepRow(ticker, initial, rows[0]);
      if first.Success? {
        var rest := rows[1..];
        RunFailsOnFirstUnpackable(ticker, first.value.last, rest);
        assert forall k :: 0 <= k < |rest| ==> rest[k] == rows[k + 1];
        if Run(ticker, first.value.last, rest).Failure? {
          var k :| && 0 <= k < |rest| && rest[k].Unpackable? && Unpacks(rest[..k])
                   && Run(ticker, first.value.last, rest).error == TooManyValuesToUnpack(ticker, rest[k].dateTime);
          var pre := rows[..k + 1];
          assert pre == [rows[0]] + rest[..k];
          assert Unpacks(pre);
          assert rows[k + 1] == rest[k];
        }
      } else {
        assert Unpacks(rows[..0]);
      }
    }
  }

  /** Every record a ticker yields carries that ticker and a date one of that
      same ticker's rows supplied: `last_date` is reset per ticker, so no date
      leaks from one ticker to another. */
  lemma {:induction false} ExpectedDatesFromOwnRows(ticker: string, rows: seq<Reading>, i: int)
    requires 0 <= i < |Expected(ticker, None, rows)|
    ensures Expected(ticker, None, rows)[i].ticker == ticker
    ensures exists k :: 0 <= k < |rows| && Resolved(rows[k]) == Some(Expected(ticker, None, rows)[i].date)
    decreases |rows|
  {
    var prefix := rows[..|rows| - 1];
    var before := Expected(ticker, None, prefix);
    assert forall k :: 0 <= k < |prefix| ==> prefix[k] == rows[k];
    if i < |before| {
      ExpectedDatesFromOwnRows(ticker, prefix, i);
    } else {
      assert Carried(None, rows) == Latest(rows);
      LatestSpec(rows);
    }
  }

  /** Tickers are processed independently: the tables of `a + b` give the
      records of `a` followed by those of `b`, and the first error wins. */
  lemma {:induction false} NormalizeAppend(a: seq<NewsTable>, b: seq<NewsTable>)
    ensures Normalize(a + b) == Then(Normalize(a), Normalize(b))
    decreases |a|
  {
    if |a| == 0 {
      assert a + b == b;
      ThenUnit(Normalize(b));
    } else {
      var x := NormalizeTable(a[0]);
      assert (a + b)[0] == a[0];
      assert (a + b)[1..] == a[1..] + b;
      assert Normalize(a + b) == Then(x, Normalize(a[1..] + b));
      NormalizeAppend(a[1..], b);
      ThenAssociative(x, Normalize(a[1..]), Normalize(b));
      assert Normalize(a) == Then(x, Normalize(a[1..]));
    }
  }

  /** Every record of the run carries the ticker of one of the tables. */
  lemma {:induction false} NormalizeTickers(tables: seq<NewsTable>)
    ensures Normalize(tables).Success? ==> forall i :: 0 <= i < |Normalize(tables).value| ==>
      exists j :: 0 <= j < |tables| && tables[j].ticker == Normalize(tables).value[i].ticker
    decreases |tables|
  {
    if |tables| > 0 && Normalize(tables).Success? {
      NormalizeTickers(tables[1..]);
      var head := NormalizeTable(tables[0]).value;
      var rest := Normalize(tables[1..]).value;
      forall i | 0 <= i < |Normalize(tables).value|
        ensures exists j :: 0 <= j < |tables| && tables[j].ticker == Normalize(tables).value[i].ticker
      {
        if i < |head| {
          assert Normalize(tables).value[i] == head[i];
        } else {
          assert Normalize(tables).value[i] == rest[i - |head|];
          var j :| 0 <= j < |tables[1..]| && tables[1..][j].ticker == rest[i - |head|].ticker;
          assert tables[j + 1] == tables[1..][j];
        }
      }
    }
  }
}
