/**
 * Ticker discovery of `finviz.py` (lines 15-22): every link on the news page
 * whose target contains `quote.ashx?t=` names a ticker, read as
 * `href.split('quote.ashx?t=')[1].split('&')[0].split('#')[0]`, kept when
 * non-empty, upper-cased, collected into a set and sorted.
 */
module Tickers {
  import opened Wrappers
  import opened Text
  import opened Order

  /** The query prefix of a FinViz quote link. */
  const Marker: string := "quote.ashx?t="

  /** `href.split(Marker)[1]`: the text after the first marker, up to the
      next marker or the end; `None` when `Marker in href` is false. */
  function Segment(href: string): (r: Option<string>)
    ensures r.None? <==> Find(href, Marker).None?
  {
    match Find(href, Marker)
    case None => None
    case Some(i) => Some(BeforeFirst(href[i + |Marker|..], Marker))
  }

  /** The ticker one link contributes, if any (finviz.py:17-21): nothing
      without the marker, otherwise a non-empty, upper-cased prefix of the
      segment that holds neither `&` nor `#`. */
  function ExtractTicker(href: string): (r: Option<string>)
    ensures Segment(href).None? ==> r.None?
    ensures r.Some? ==> exists n :: 0 < n <= |Segment(href).value| && r.value == Upper(Segment(href).value[..n])
    ensures r.Some? ==> '&' !in r.value && '#' !in r.value
  {
    match Segment(href)
    case None => None
    case Some(seg) =>
      var raw := BeforeFirst(BeforeFirst(seg, "&"), "#");
      if raw == "" then None
      else
        CutHasNoStops(seg);
        UpperKeepsOthers(raw, '&');
        UpperKeepsOthers(raw, '#');
        Some(Upper(raw))
  }

  /** The two character cuts leave a prefix free of `&` and `#`. */
  lemma CutHasNoStops(seg: string)
    ensures var raw := BeforeFirst(BeforeFirst(seg, "&"), "#");
      raw == seg[..|raw|] && '&' !in raw && '#' !in raw
  {
    var r1 := BeforeFirst(seg, "&");
    var raw := BeforeFirst(r1, "#");
    forall p | 0 <= p < |raw|
      ensures raw[p] != '&' && raw[p] != '#'
    {
      OccursAtChar(seg, '&', p);
      OccursAtChar(r1, '#', p);
    }
  }

  /** Where one of the three cuts ends the ticker text: an `&`, a `#`, or
      the start of another marker. */
  predicate IsStop(s: string, p: int) {
    || (0 <= p < |s| && (s[p] == '&' || s[p] == '#'))
    || OccursAt(s, Marker, p)
  }

  /** `n` is the first stop in `s`, or `|s|` if there is none. */
  ghost predicate FirstStop(s: string, n: int) {
    && 0 <= n <= |s|
    && (forall p :: 0 <= p < n ==> !IsStop(s, p))
    && (n == |s| || IsStop(s, n))
  }

  ghost predicate FirstOccurrence(s: string, pat: string, i: int) {
    OccursAt(s, pat, i) && forall k :: 0 <= k < i ==> !OccursAt(s, pat, k)
  }

  /** `t` is the ticker `href` names with the first marker ending at `i + |Marker|`
      and the first stop after it `n` characters later. */
  ghost predicate NamesTicker(href: string, t: string, i: int, n: int) {
    && FirstOccurrence(href, Marker, i)
    && FirstStop(href[i + |Marker|..], n)
    && 0 < n
    && t == Upper(href[i + |Marker|..][..n])
  }

  /** `t` is the ticker `href` names: the marker occurs, and `t` is the
      upper-cased, non-empty text from the end of its first occurrence up to
      the first stop after it. */
  ghost predicate IsTickerOf(href: string, t: string) {
    exists i, n :: NamesTicker(href, t, i, n)
  }

  /** The three successive cuts of finviz.py:19 stop the text at its first
      stop, whichever kind it is. */
  lemma CutsEndAtFirstStop(after: string)
    ensures var r := BeforeFirst(BeforeFirst(BeforeFirst(after, Marker), "&"), "#");
      r == after[..|r|] && FirstStop(after, |r|)
  {
    var r1 := BeforeFirst(after, Marker);
    var r2 := BeforeFirst(r1, "&");
    var r3 := BeforeFirst(r2, "#");
    forall p | 0 <= p < |r3|
      ensures !IsStop(after, p)
    {
      OccursAtChar(r1, '&', p);
      OccursAtChar(r2, '#', p);
      assert r1[p] == after[p] && r2[p] == r1[p] && r3[p] == r2[p];
    }
    if |r3| < |r2| {
      OccursAtChar(r2, '#', |r3|);
      assert after[|r3|] == r2[|r3|];
    } else if |r2| < |r1| {
      OccursAtChar(r1, '&', |r2|);
      assert after[|r2|] == r1[|r2|];
    }
  }

  lemma FirstStopUnique(s: string, n: int, m: int)
    requires FirstStop(s, n) && FirstStop(s, m)
    ensures n == m
  {
  }

  lemma FirstOccurrenceUnique(s: string, pat: string, i: int, j: int)
    requires FirstOccurrence(s, pat, i) && FirstOccurrence(s, pat, j)
    ensures i == j
  {
  }

  /** A link yields exactly the ticker it names and nothing when it names
      none: no marker, or nothing between the marker and the first stop. */
  lemma ExtractTickerSpec(href: string, t: string)
    ensures ExtractTicker(href) == Some(t) <==> IsTickerOf(href, t)
  {
    if IsTickerOf(href, t) {
      var i, n :| NamesTicker(href, t, i, n);
      NamedTickerExtracted(href, t, i, n);
    }
    if ExtractTicker(href) == Some(t) {
      ExtractedTickerNamed(href, t);
    }
  }

  /** The ticker text ends where `ExtractTicker` cuts it. */
  lemma CutOfFirstOccurrence(href: string, i: int) returns (raw: string)
    requires FirstOccurrence(href, Marker, i)
    ensures FirstStop(href[i + |Marker|..], |raw|)
    ensures raw == href[i + |Marker|..][..|raw|]
    ensures ExtractTicker(href) == if raw == "" then None else Some(Upper(raw))
  {
    match Find(href, Marker)
    case None =>
      assert false;
    case Some(j) =>
      FirstOccurrenceUnique(href, Marker, i, j);
      var after := href[i + |Marker|..];
      CutsEndAtFirstStop(after);
      raw := BeforeFirst(BeforeFirst(BeforeFirst(after, Marker), "&"), "#");
  }

  lemma NamedTickerExtracted(href: string, t: string, i: int, n: int)
    requires NamesTicker(href, t, i, n)
    ensures ExtractTicker(href) == Some(t)
  {
    var raw := CutOfFirstOccurrence(href, i);
    FirstStopUnique(href[i + |Marker|..], |raw|, n);
  }

  lemma ExtractedTickerNamed(href: string, t: string)
    requires ExtractTicker(href) == Some(t)
    ensures IsTickerOf(href, t)
  {
    var i :| Find(href, Marker) == Some(i);
    assert FirstOccurrence(href, Marker, i);
    var raw := CutOfFirstOccurrence(href, i);
    assert NamesTicker(href, t, i, |raw|);
  }

  /** Every ticker some link yields, in any order, duplicates allowed. */
  function Collect(hrefs: seq<string>): (r: seq<string>)
    ensures forall t :: t in r <==> exists h :: h in hrefs && ExtractTicker(h) == Some(t)
  {
    if |hrefs| == 0 then []
    else
      var rest := Collect(hrefs[1..]);
      assert forall h :: h in hrefs <==> h == hrefs[0] || h in hrefs[1..];
      match ExtractTicker(hrefs[0])
      case Some(t) => [t] + rest
      case None => rest
  }

  /** `sorted(tickers)` over the set the loop of finviz.py:16-21 builds:
      strictly ascending in Python's string order, hence free of duplicates,
      and holding exactly the tickers the links yield. */
  function ExtractTickers(hrefs: seq<string>): (r: seq<string>)
    ensures Ascending(r, StringLess)
    ensures forall t :: t in r <==> exists h :: h in hrefs && IsTickerOf(h, t)
  {
    StringLessIsStrictTotalOrder();
    var r := SortDistinct(Collect(hrefs), StringLess);
    forall t
      ensures t in r <==> exists h :: h in hrefs && IsTickerOf(h, t)
    {
      forall h
        ensures ExtractTicker(h) == Some(t) <==> IsTickerOf(h, t)
      {
        ExtractTickerSpec(h, t);
      }
    }
    r
  }
}
