/**
 * The two scripts end to end, from the news tables to the table of mean
 * scores, with the sentiment scorer as a parameter.
 */
module Pipeline {
  import opened Wrappers
  import opened Text
  import opened Calendar
  import opened MonthDayYear
  import opened Records
  import opened Aggregate
  import F = FinvizNormalize
  import M = MainNormalize

  /** finviz.py:42-75: parse every ticker's table with carry-forward, score
      each headline, and pivot the per-(ticker, date) means. */
  function FinvizTable(tables: seq<F.NewsTable>, scorer: string -> real): (r: Result<Table, F.Error>)
    ensures r.Success? <==> F.Normalize(tables).Success?
    ensures r.Success? ==> forall k :: k in r.value.cells ==>
      exists i :: 0 <= i < |tables| && tables[i].ticker == k.ticker
  {
    var records :- F.Normalize(tables);
    var rows := Score(records, scorer);
    F.NormalizeTickers(tables);
    forall k | k in Pivot(rows).cells
      ensures exists i :: 0 <= i < |tables| && tables[i].ticker == k.ticker
    {
      var j :| 0 <= j < |rows| && KeyOf(rows[j]) == k;
      assert records[j].ticker == k.ticker;
    }
    Success(Pivot(rows))
  }

  /** main.py:35-72: parse every ticker's table against `today`, read the
      dates back, score each headline, and pivot the per-(ticker, date) means. */
  function MainTable(today: Date, tables: seq<M.NewsTable>, scorer: string -> real): (r: Result<Table, M.Error>)
    requires Valid(today)
    ensures r.Success? <==> M.Parse(today, tables).Success?
    ensures r.Failure? ==> today == FirstDay
  {
    var entries :- M.Parse(today, tables);
    Success(Pivot(Score(M.Frame(entries), scorer)))
  }
}
