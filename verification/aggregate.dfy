/**
 * The aggregation both scripts end with: every record gets the score of its
 * title, the scores are grouped by (ticker, date) and averaged
 * (`df.groupby(['ticker', 'date'])['compound'].mean()`), and the means are laid
 * out as a table with one row per date and one column per ticker
 * (`unstack`). A (ticker, date) pair without records has no cell: pandas
 * shows `NaN` there, never `0`.
 */
module Aggregate {
  import opened Calendar
  import opened Records
  import opened Order

  /** A record reduced to what the grouping needs: its key and its score. */
  datatype Scored = Scored(ticker: string, date: Date, score: real)

  /** A group key: the `(ticker, date)` index of the grouped frame. */
  datatype Key = Key(ticker: string, date: Date)

  function KeyOf(row: Scored): Key {
    Key(row.ticker, row.date)
  }

  /** `df['compound'] = df['title'].apply(scorer)`: every record scored by its
      title alone, in frame order. */
  function Score(records: seq<Record>, scorer: string -> real): (r: seq<Scored>)
    ensures |r| == |records|
    ensures forall i :: 0 <= i < |r| ==>
      r[i] == Scored(records[i].ticker, records[i].date, scorer(records[i].title))
  {
    seq(|records|, i requires 0 <= i < |records| => Scored(records[i].ticker, records[i].date, scorer(records[i].title)))
  }

  /** Scoring treats every record on its own: the scores of `a + b` are
      those of `a` followed by those of `b`. */
  lemma ScoreAppend(a: seq<Record>, b: seq<Record>, scorer: string -> real)
    ensures Score(a + b, scorer) == Score(a, scorer) + Score(b, scorer)
  {
    assert forall k :: 0 <= k < |b| ==> (a + b)[|a| + k] == b[k];
  }

  /** Reordering the records reorders their scores the same way: the scored
      rows of two permutations of a frame are permutations of each other. */
  lemma {:induction false} ScorePermutation(a: seq<Record>, b: seq<Record>, scorer: string -> real)
    requires multiset(a) == multiset(b)
    ensures multiset(Score(a, scorer)) == multiset(Score(b, scorer))
    decreases |a|
  {
    if |a| == 0 {
      assert |b| == |multiset(b)| == 0;
    } else {
      assert a[0] in multiset(a);
      var j := IndexOf(b, a[0]);
      RemoveAt(b, j);
      RemoveAt(a, 0);
      assert a[..0] + a[1..] == a[1..];
      ScorePermutation(a[1..], b[..j] + b[j + 1..], scorer);
      ScoreSameRemoved(a, b, j, scorer);
    }
  }

  /** Two frames whose scores agree once one equal record is left out of
      each have the same scores. */
  lemma ScoreSameRemoved(a: seq<Record>, b: seq<Record>, j: int, scorer: string -> real)
    requires |a| > 0 && 0 <= j < |b| && b[j] == a[0]
    requires multiset(Score(a[1..], scorer)) == multiset(Score(b[..j] + b[j + 1..], scorer))
    ensures multiset(Score(a, scorer)) == multiset(Score(b, scorer))
  {
    var sa, sb := Score(a, scorer), Score(b, scorer);
    ScoreRemove(a, 0, a[1..], scorer);
    ScoreRemove(b, j, b[..j] + b[j + 1..], scorer);
    assert sa[0] == sb[j];
    calc {
      multiset(sa);
      multiset(Score(a[1..], scorer)) + multiset{sa[0]};
      multiset(Score(b[..j] + b[j + 1..], scorer)) + multiset{sb[j]};
      multiset(sb);
    }
  }

  /** Scoring all but one record scores the others and leaves that one out. */
  lemma ScoreRemove(s: seq<Record>, j: int, rest: seq<Record>, scorer: string -> real)
    requires 0 <= j < |s| && rest == s[..j] + s[j + 1..]
    ensures multiset(Score(s, scorer)) == multiset(Score(rest, scorer)) + multiset{Score(s, scorer)[j]}
  {
    var r := Score(s, scorer);
    assert Score(rest, scorer) == r[..j] + r[j + 1..];
    RemoveAt(r, j);
  }

  // ---------------------------------------------------------------------------
  // Reference definition: the scores of one group, and their mean

  /** The scores of exactly the rows with key `k`, in row order. */
  function Select(rows: seq<Scored>, k: Key): seq<real>
    decreases |rows|
  {
    if |rows| == 0 then []
    else Select(rows[..|rows| - 1], k) + (if KeyOf(rows[|rows| - 1]) == k then [rows[|rows| - 1].score] else [])
  }

  function Total(xs: seq<real>): real
    decreases |xs|
  {
    if |xs| == 0 then 0.0 else Total(xs[..|xs| - 1]) + xs[|xs| - 1]
  }

  /** The arithmetic mean of a non-empty list of scores. */
  function Mean(xs: seq<real>): real
    requires |xs| > 0
  {
    Total(xs) / |xs| as real
  }

  lemma {:induction false} SelectAppend(a: seq<Scored>, b: seq<Scored>, k: Key)
    ensures Select(a + b, k) == Select(a, k) + Select(b, k)
    decreases |b|
  {
    if |b| == 0 {
      assert a + b == a;
    } else {
      assert (a + b)[..|a + b| - 1] == a + b[..|b| - 1];
      SelectAppend(a, b[..|b| - 1], k);
    }
  }

  lemma {:induction false} TotalAppend(u: seq<real>, v: seq<real>)
    ensures Total(u + v) == Total(u) + Total(v)
    decreases |v|
  {
    if |v| == 0 {
      assert u + v == u;
    } else {
      assert (u + v)[..|u + v| - 1] == u + v[..|v| - 1];
      TotalAppend(u, v[..|v| - 1]);
    }
  }

  /** Row `i` lies in the group of its own key. */
  lemma {:induction false} SelectHasRow(rows: seq<Scored>, i: int)
    requires 0 <= i < |rows|
    ensures |Select(rows, KeyOf(rows[i]))| > 0
  {
    var k := KeyOf(rows[i]);
    assert rows == rows[..i] + [rows[i]] + rows[i + 1..];
    SelectAppend(rows[..i] + [rows[i]], rows[i + 1..], k);
    SelectAppend(rows[..i], [rows[i]], k);
    assert [rows[i]][..0] == [];
  }

  /** A non-empty group has a row with its key. */
  lemma {:induction false} SelectHasWitness(rows: seq<Scored>, k: Key)
    requires |Select(rows, k)| > 0
    ensures exists i :: 0 <= i < |rows| && KeyOf(rows[i]) == k
    decreases |rows|
  {
    if KeyOf(rows[|rows| - 1]) != k {
      SelectHasWitness(rows[..|rows| - 1], k);
      var i :| 0 <= i < |rows| - 1 && KeyOf(rows[..|rows| - 1][i]) == k;
      assert rows[i] == rows[..|rows| - 1][i];
    }
  }

  /** Taking row `j` out of a sequence takes its score, if it has key `k`,
      out of the group of `k`. */
  lemma SelectRemove(b: seq<Scored>, j: int, k: Key)
    requires 0 <= j < |b|
    ensures var rest := Select(b[..j] + b[j + 1..], k);
      var own := if KeyOf(b[j]) == k then 1 else 0;
      && |Select(b, k)| == |rest| + own
      && Total(Select(b, k)) == Total(rest) + (if own == 1 then b[j].score else 0.0)
  {
    var x := b[j];
    assert b == b[..j] + [x] + b[j + 1..];
    SelectAppend(b[..j] + [x], b[j + 1..], k);
    SelectAppend(b[..j], [x], k);
    SelectAppend(b[..j], b[j + 1..], k);
    assert [x][..0] == [];
    var sx := Select([x], k);
    TotalAppend(Select(b[..j], k) + sx, Select(b[j + 1..], k));
    TotalAppend(Select(b[..j], k), sx);
    TotalAppend(Select(b[..j], k), Select(b[j + 1..], k));
    assert sx == [] || sx == [x.score];
    assert Total([x.score]) == x.score by {
      assert [x.score][..0] == [];
    }
  }

  /** A group's size and total depend only on which rows there are, not on
      their order. */
  lemma {:induction false} SelectPermutation(a: seq<Scored>, b: seq<Scored>, k: Key)
    requires multiset(a) == multiset(b)
    ensures |Select(a, k)| == |Select(b, k)|
    ensures Total(Select(a, k)) == Total(Select(b, k))
    decreases |a|
  {
    if |a| == 0 {
      assert |b| == |multiset(b)| == 0;
    } else {
      var x := a[|a| - 1];
      var a' := a[..|a| - 1];
      var j := IndexOf(b, x);
      var b' := b[..j] + b[j + 1..];
      RemoveAt(a, |a| - 1);
      RemoveAt(b, j);
      assert a[..|a| - 1] + a[|a|..] == a';
      SelectPermutation(a', b', k);
      SelectRemove(b, j, k);
      SelectRemove(a, |a| - 1, k);
    }
  }

  /** Where an element of a sequence sits. */
  lemma IndexOf<T>(s: seq<T>, x: T) returns (j: int)
    requires x in multiset(s)
    ensures 0 <= j < |s| && s[j] == x
  {
    j :| 0 <= j < |s| && s[j] == x;
  }

  /** Dropping position `j` drops one copy of its element. */
  lemma RemoveAt<T>(s: seq<T>, j: int)
    requires 0 <= j < |s|
    ensures multiset(s[..j] + s[j + 1..]) == multiset(s) - multiset{s[j]}
  {
    assert s == s[..j] + [s[j]] + s[j + 1..];
  }

  // ---------------------------------------------------------------------------
  // The grouping, computed in one pass with a running sum and count per key

  /** The running sum and count of one group. */
  datatype Tally = Tally(sum: real, count: nat)

  /** One pass over the rows: a key is present exactly when some row has it,
      and holds the total and the number of that group's scores. */
  function Tallies(rows: seq<Scored>): (m: map<Key, Tally>)
    ensures forall k :: k in m <==> |Select(rows, k)| > 0
    ensures forall k :: k in m ==> m[k] == Tally(Total(Select(rows, k)), |Select(rows, k)|)
    decreases |rows|
  {
    if |rows| == 0 then map[]
    else
      var m := Tallies(rows[..|rows| - 1]);
      TallyStep(rows, m);
      Add(m, rows[|rows| - 1])
  }

  /** Counts one more row into the tally of its key. */
  function Add(m: map<Key, Tally>, x: Scored): map<Key, Tally> {
    var t := if KeyOf(x) in m then m[KeyOf(x)] else Tally(0.0, 0);
    m[KeyOf(x) := Tally(t.sum + x.score, t.count + 1)]
  }

  /** Counting the last row into the tallies of the rows before it gives the
      tallies of all the rows. */
  lemma TallyStep(rows: seq<Scored>, m: map<Key, Tally>)
    requires |rows| > 0
    requires forall k :: k in m <==> |Select(rows[..|rows| - 1], k)| > 0
    requires forall k :: k in m ==>
      m[k] == Tally(Total(Select(rows[..|rows| - 1], k)), |Select(rows[..|rows| - 1], k)|)
    ensures forall k :: k in Add(m, rows[|rows| - 1]) <==> |Select(rows, k)| > 0
    ensures forall k :: k in Add(m, rows[|rows| - 1]) ==>
      Add(m, rows[|rows| - 1])[k] == Tally(Total(Select(rows, k)), |Select(rows, k)|)
  {
    var p := rows[..|rows| - 1];
    var x := rows[|rows| - 1];
    var m' := Add(m, x);
    forall k
      ensures k in m' <==> |Select(rows, k)| > 0
      ensures k in m' ==> m'[k] == Tally(Total(Select(rows, k)), |Select(rows, k)|)
    {
      if k == KeyOf(x) {
        var s := Select(p, k);
        assert Select(rows, k) == s + [x.score];
        assert (s + [x.score])[..|s|] == s;
        assert Total(s + [x.score]) == Total(s) + x.score;
      } else {
        assert Select(rows, k) == Select(p, k) + [];
        assert Select(p, k) + [] == Select(p, k);
      }
    }
  }

  /** `groupby(['ticker', 'date'])['compound'].mean()`: a mean for exactly the
      keys some row has, each the mean of exactly the scores with that key. */
  function GroupMean(rows: seq<Scored>): (m: map<Key, real>)
    ensures forall k :: k in m <==> exists i :: 0 <= i < |rows| && KeyOf(rows[i]) == k
    ensures forall k :: k in m <==> |Select(rows, k)| > 0
    ensures forall k :: k in m ==> |Select(rows, k)| > 0 && m[k] == Mean(Select(rows, k))
  {
    var t := Tallies(rows);
    var m := map k | k in t :: t[k].sum / t[k].count as real;
    forall k
      ensures k in m <==> exists i :: 0 <= i < |rows| && KeyOf(rows[i]) == k
    {
      if k in m {
        SelectHasWitness(rows, k);
      }
      if exists i :: 0 <= i < |rows| && KeyOf(rows[i]) == k {
        var i :| 0 <= i < |rows| && KeyOf(rows[i]) == k;
        SelectHasRow(rows, i);
      }
    }
    m
  }

  /** The grouped means do not depend on the order of the rows. */
  lemma GroupMeanPermutation(a: seq<Scored>, b: seq<Scored>)
    requires multiset(a) == multiset(b)
    ensures GroupMean(a) == GroupMean(b)
  {
    var ma := GroupMean(a);
    var mb := GroupMean(b);
    forall k
      ensures k in ma <==> k in mb
      ensures k in ma ==> ma[k] == mb[k]
    {
      GroupMeanAt(a, b, k);
    }
    assert ma.Keys == mb.Keys;
  }

  lemma GroupMeanAt(a: seq<Scored>, b: seq<Scored>, k: Key)
    requires multiset(a) == multiset(b)
    ensures k in GroupMean(a) <==> k in GroupMean(b)
    ensures k in GroupMean(a) ==> GroupMean(a)[k] == GroupMean(b)[k]
  {
    SelectPermutation(a, b, k);
  }

  // ---------------------------------------------------------------------------
  // The pivoted table

  /** `mean_df` after `unstack`: the dates as rows and the tickers as columns,
      both sorted ascending, and a cell only where a group exists. */
  datatype Table = Table(dates: seq<Date>, tickers: seq<string>, cells: map<Key, real>)

  /** Build the table of the grouped means. */
  function Pivot(rows: seq<Scored>): (r: Table)
    ensures Ascending(r.dates, Before)
    ensures forall d :: d in r.dates <==> exists i :: 0 <= i < |rows| && rows[i].date == d
    ensures Ascending(r.tickers, StringLess)
    ensures forall t :: t in r.tickers <==> exists i :: 0 <= i < |rows| && rows[i].ticker == t
    ensures forall k :: k in r.cells <==> exists i :: 0 <= i < |rows| && KeyOf(rows[i]) == k
    ensures forall k :: k in r.cells ==> |Select(rows, k)| > 0 && r.cells[k] == Mean(Select(rows, k))
  {
    BeforeIsStrictTotalOrder();
    StringLessIsStrictTotalOrder();
    var r := Table(SortDistinct(Dates(rows), Before), SortDistinct(Tickers(rows), StringLess), GroupMean(rows));
    r
  }

  /** The date of every row, in row order. */
  function Dates(rows: seq<Scored>): (r: seq<Date>)
    ensures forall d :: d in r <==> exists i :: 0 <= i < |rows| && rows[i].date == d
  {
    var dates := seq(|rows|, i requires 0 <= i < |rows| => rows[i].date);
    forall d
      ensures d in dates <==> exists i :: 0 <= i < |rows| && rows[i].date == d
    {
      if d in dates {
        var i :| 0 <= i < |dates| && dates[i] == d;
      }
      if exists i :: 0 <= i < |rows| && rows[i].date == d {
        var i :| 0 <= i < |rows| && rows[i].date == d;
        assert dates[i] == d;
      }
    }
    dates
  }

  /** The ticker of every row, in row order. */
  function Tickers(rows: seq<Scored>): (r: seq<string>)
    ensures forall t :: t in r <==> exists i :: 0 <= i < |rows| && rows[i].ticker == t
  {
    var tickers := seq(|rows|, i requires 0 <= i < |rows| => rows[i].ticker);
    forall t
      ensures t in tickers <==> exists i :: 0 <= i < |rows| && rows[i].ticker == t
    {
      if t in tickers {
        var i :| 0 <= i < |tickers| && tickers[i] == t;
      }
      if exists i :: 0 <= i < |rows| && rows[i].ticker == t {
        var i :| 0 <= i < |rows| && rows[i].ticker == t;
        assert tickers[i] == t;
      }
    }
    tickers
  }

  /** The table does not depend on the order of the rows: axes, cells and
      means are the same for every permutation. */
  lemma PivotPermutation(a: seq<Scored>, b: seq<Scored>)
    requires multiset(a) == multiset(b)
    ensures Pivot(a) == Pivot(b)
  {
    var pa := Pivot(a);
    var pb := Pivot(b);
    BeforeIsStrictTotalOrder();
    StringLessIsStrictTotalOrder();
    forall x | x in multiset(a)
      ensures x in b
    {
      assert x in multiset(b);
    }
    forall x | x in multiset(b)
      ensures x in a
    {
      assert x in multiset(a);
    }
    assert forall i :: 0 <= i < |a| ==> a[i] in multiset(a);
    assert forall i :: 0 <= i < |b| ==> b[i] in multiset(b);
    forall d
      ensures d in pa.dates <==> d in pb.dates
    {
      if d in pa.dates {
        var i :| 0 <= i < |a| && a[i].date == d;
        var j :| 0 <= j < |b| && b[j] == a[i];
      }
      if d in pb.dates {
        var j :| 0 <= j < |b| && b[j].date == d;
        var i :| 0 <= i < |a| && a[i] == b[j];
      }
    }
    forall t
      ensures t in pa.tickers <==> t in pb.tickers
    {
      if t in pa.tickers {
        var i :| 0 <= i < |a| && a[i].ticker == t;
        var j :| 0 <= j < |b| && b[j] == a[i];
      }
      if t in pb.tickers {
        var j :| 0 <= j < |b| && b[j].ticker == t;
        var i :| 0 <= i < |a| && a[i] == b[j];
      }
    }
    AscendingUnique(pa.dates, pb.dates, Before);
    AscendingUnique(pa.tickers, pb.tickers, StringLess);
    GroupMeanPermutation(a, b);
  }

  /** The table of a frame does not depend on the order of the frame's
      records: scoring and pivoting any permutation gives the same table. */
  lemma FramePivotPermutation(a: seq<Record>, b: seq<Record>, scorer: string -> real)
    requires multiset(a) == multiset(b)
    ensures Pivot(Score(a, scorer)) == Pivot(Score(b, scorer))
  {
    ScorePermutation(a, b, scorer);
    PivotPermutation(Score(a, scorer), Score(b, scorer));
  }
}
