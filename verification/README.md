# Stock-news sentiment: a Dafny model of the parsing and aggregation core

Two scripts of the SentimentAnalyzerStockNews project turn FinViz news pages
into a table of mean headline sentiment per ticker and day. `finviz.py` first
reads the tickers linked from the news page. For every ticker it then reads the
headline table with a *carry-forward* rule: a row that shows only a time
belongs to the date of the last dated row above it. `main.py` reads the same
kind of table with a *keyword* rule: a label `Today`, `Yesterday` or
`Mon-DD-YY` gives the date, and a one-word label means today. It writes the
dates as ISO `YYYY-MM-DD` text and reads them back through pandas. Both
scripts then score every headline and pivot the per-(ticker, date) means into
a table with one row per date and one column per ticker.

The model holds these parts:

- `Text`: Python's `strip`, `split(' ')`, `in`, and `upper`/`lower` restricted
  to ASCII letters.
- `Order`: sorting into a strictly ascending sequence, and Python string order.
- `Calendar`: proleptic Gregorian dates, ordinals, the day before, and ISO text.
- `MonthDayYear`: `strptime(s, '%b-%d-%y')`.
- `Tickers`: the ticker scan.
- `FinvizNormalize`: the carry-forward normalizer.
- `MainNormalize`: the keyword normalizer and the pandas date coercion.
- `Aggregate`: scoring, group-by-mean and the pivot.
- `Pipeline`: the two scripts end to end.
- Concrete examples: `WorkedExamples`, `FinvizExamples` and `AggregateExamples`.

The two normalizers are kept apart on purpose because their rules differ:

- `finviz.py` has no keywords, and a label whose date does not parse falls
  back to the date in hand.
- `main.py` drops a label whose date does not parse, and a one-word label gets
  today's date, not the previous row's.

Each operation has a partner and a lemma relating the two:

- `Run` and the stateless `Expected`.
- `ParseMonthDayYear` and the set of spellings of a date.
- `ParseIso` and `FormatIso`.
- `ExtractTicker` and the predicate `IsTickerOf`, which says what a link names.
- `Upper` and its characterisation `UpperUnique`.
- `Read` and the if-and-only-if characterisation in its contract: a row is skipped, time-only, dated or unpackable according to its cell count and the spaces in its stripped label.
- `Parse` and `ParseAppend`; `Frame` and `FrameAppend`/`FrameOne`.
- `Score` and `ScorePermutation`, which with `PivotPermutation` gives
  `FramePivotPermutation`.
- `GroupMean` and the list of scores `Select` picks for a group.

Details of the code that the model follows:

- `main.py:57` takes the second word of a label as the time; any further words
  are ignored.
- `finviz.py` recognises no `Today`/`Yesterday` keywords. A label whose token
  does not parse is filed under `last_date` (`finviz.py:57-58`).
- `href.split('quote.ashx?t=')[1]` is the text between the first and the
  second occurrences of the marker, or up to the end of the link when the
  marker occurs once (`finviz.py:19`).
- In `main.py` a one-word label is dated today (`main.py:43-45`).
- In `finviz.py` a label with two or more spaces raises `ValueError` outside
  the `try` (`finviz.py:54`). That ends the script, and the model returns
  `Failure(TooManyValuesToUnpack(..))`.

## Model

| member | source | states |
|---|---|---|
| Tickers.Segment | SentimentAnalyzerStockNews/finviz.py:18-19 | there is a segment exactly when the marker occurs in the link |
| Tickers.CutsEndAtFirstStop | SentimentAnalyzerStockNews/finviz.py:19 | the three successive splits keep a prefix of the text after the marker and end at its first `&`, `#` or next marker, whichever comes first |
| Tickers.ExtractTicker | SentimentAnalyzerStockNews/finviz.py:17-21 | a link without the marker yields nothing; a yielded ticker is the ASCII upper-cased form of a non-empty prefix of the segment and holds neither `&` nor `#` |
| Tickers.CutHasNoStops | SentimentAnalyzerStockNews/finviz.py:19 | the `&` and `#` cuts keep a prefix of the segment that holds neither character |
| Tickers.ExtractTickerSpec | SentimentAnalyzerStockNews/finviz.py:17-21 | a link yields `t` if and only if `t` is the upper-cased, non-empty text from the end of the first marker up to the first stop |
| Tickers.Collect | SentimentAnalyzerStockNews/finviz.py:16-21 | a ticker is collected if and only if some link yields it |
| Tickers.ExtractTickers | SentimentAnalyzerStockNews/finviz.py:15-22 | the result is strictly ascending in Python string order (so it has no duplicates) and holds exactly the tickers some link names, upper-cased in ASCII |
| Order.SortDistinct | SentimentAnalyzerStockNews/finviz.py:22 | `sorted` of a set: strictly ascending, with the same members as the input |
| Order.AscendingUnique | SentimentAnalyzerStockNews/finviz.py:22 | two strictly ascending sequences with the same members are equal, so the sorted ticker list is determined by the set |
| Order.StringLessIsStrictTotalOrder | SentimentAnalyzerStockNews/finviz.py:22 | Python's code-point string comparison is irreflexive, transitive and total |
| Text.Strip | SentimentAnalyzerStockNews/finviz.py:51-52 | the result is the input with leading and trailing whitespace (Python `isspace`) removed and nothing else; it neither begins nor ends with whitespace |
| Text.StripTrimmed | SentimentAnalyzerStockNews/main.py:42 | stripping text that neither begins nor ends with whitespace leaves it unchanged |
| Text.Split | SentimentAnalyzerStockNews/main.py:42 | `split(' ')` gives one more piece than there are spaces, no piece holds a space, and joining the pieces with spaces gives back the input |
| Text.SplitUnique | SentimentAnalyzerStockNews/main.py:42 | splitting space-free pieces joined by spaces gives back exactly those pieces |
| Text.Find | SentimentAnalyzerStockNews/finviz.py:18 | `'quote.ashx?t=' in href`: the index found is an occurrence with none before it, and none is found exactly when the pattern occurs nowhere |
| Text.BeforeFirst | SentimentAnalyzerStockNews/finviz.py:19 | `s.split(pat)[0]`: a prefix of `s` with no occurrence of `pat` starting inside it, ending at an occurrence or at the end of `s` |
| Text.Upper | SentimentAnalyzerStockNews/finviz.py:21 | ASCII `upper()`: same length, equal to the input up to letter case, and no lower-case letter left |
| Text.UpperUnique | SentimentAnalyzerStockNews/finviz.py:21 | those three facts determine the ASCII upper-cased string |
| Text.UpperKeepsOthers | SentimentAnalyzerStockNews/finviz.py:19-21 | upper-casing introduces no `&` or `#`, so the cut ticker keeps none |
| Calendar.BeforeIsStrictTotalOrder | SentimentAnalyzerStockNews/finviz.py:75 | date comparison is a strict total order, so the pivot's date index is well defined |
| Calendar.OrdinalOrder | SentimentAnalyzerStockNews/main.py:51 | one date is before another exactly when its day number is smaller |
| Calendar.Predecessor | SentimentAnalyzerStockNews/main.py:51 | `today - timedelta(days=1)` is a valid date whose day number is one less |
| Calendar.PredecessorIsImmediate | SentimentAnalyzerStockNews/main.py:51 | the day before `d` is earlier than `d`, and every date earlier than `d` is that day or before it |
| Calendar.FormatIso | SentimentAnalyzerStockNews/main.py:44-54 | `strftime('%Y-%m-%d')` is ten characters with dashes at positions 4 and 7 and digit fields that read as the year, month and day |
| Calendar.ParseIso | SentimentAnalyzerStockNews/main.py:62 | any date read from ISO text is valid and prints back as exactly that text |
| Calendar.IsoRoundTrip | SentimentAnalyzerStockNews/main.py:61-63 | reading back the ISO text `strftime('%Y-%m-%d')` writes gives the same date |
| Decimal.DigitsOfNumber | SentimentAnalyzerStockNews/main.py:54 | a string of digits is the zero-padded rendering of its value at its own width |
| MonthDayYear.MonthOf | SentimentAnalyzerStockNews/finviz.py:56 | `%b` accepts exactly the twelve English abbreviations, each giving its own month |
| MonthDayYear.DayOf | SentimentAnalyzerStockNews/finviz.py:56 | `%d` accepts exactly the forms of a day 1..31: two digits, one digit, or a space and one digit |
| MonthDayYear.ParseMonthDayYear | SentimentAnalyzerStockNews/main.py:54 | a parsed date is valid and lies within the two-digit-year window 1969..2068 |
| MonthDayYear.ParseMonthDayYearSpec | SentimentAnalyzerStockNews/finviz.py:56 | a string parses to `d` if and only if `d` is a valid date in the window and the string, in any letter case, is one of `d`'s spellings |
| MonthDayYear.MonthDayYearRoundTrip | SentimentAnalyzerStockNews/main.py:54 | every date in the window, written as FinViz shows it, parses back to itself |
| FinvizNormalize.Read | SentimentAnalyzerStockNews/finviz.py:48-56 | a row is skipped if and only if it has fewer than two cells; its stripped label has no space if and only if it is read as time-only, with the label as time; it has exactly one space if and only if it is split into a token and a time that rejoin to the label, the token going through `strptime`; otherwise the unpacking fails on that label; a kept row's title is its stripped second cell |
| FinvizNormalize.ReadAllAppend | SentimentAnalyzerStockNews/finviz.py:45-47 | rows are read independently: reading two runs of rows one after the other is reading their concatenation |
| FinvizNormalize.StepRow | SentimentAnalyzerStockNews/finviz.py:53-64 | an iteration fails exactly on an unpackable label; a parsed date replaces `last_date` and anything else leaves it; the row is emitted with that date exactly when one exists |
| FinvizNormalize.Run | SentimentAnalyzerStockNews/finviz.py:47-64 | the loop over one ticker's rows fails only if some label is unpackable; it emits at most one record per row, each under that ticker |
| FinvizNormalize.LatestSpec | SentimentAnalyzerStockNews/finviz.py:55-62 | the date in hand after a prefix of rows is the one parsed by the last row that parsed a date, and there is none exactly when no row parsed one |
| FinvizNormalize.Expected | SentimentAnalyzerStockNews/finviz.py:63-64 | the reference output never has more records than there are rows, and every record carries the table's ticker |
| FinvizNormalize.RunIsExpected | SentimentAnalyzerStockNews/finviz.py:46-64 | the stateful loop produces the stateless reference output: each row with the latest date parsed up to it |
| FinvizNormalize.RunFailsOnFirstUnpackable | SentimentAnalyzerStockNews/finviz.py:53-54 | the loop fails if and only if some label has two or more spaces, and it reports the first such label |
| FinvizNormalize.ExpectedDatesFromOwnRows | SentimentAnalyzerStockNews/finviz.py:44-46 | since `last_date` restarts at `None` for every ticker, every emitted date was parsed from a row of that ticker's own table |
| FinvizNormalize.NormalizeTable | SentimentAnalyzerStockNews/finviz.py:44-64 | with `last_date` reset to `None`, one ticker's table succeeds exactly when no label is unpackable, and it then yields the reference output |
| FinvizNormalize.Normalize | SentimentAnalyzerStockNews/finviz.py:43-64 | all tables succeed exactly when each does, and an error is the error of one of the tables |
| FinvizNormalize.NormalizeAppend | SentimentAnalyzerStockNews/finviz.py:43-44 | normalizing two lists of tables one after the other is normalizing their concatenation |
| FinvizNormalize.NormalizeTickers | SentimentAnalyzerStockNews/finviz.py:44-64 | every record carries the ticker of one of the input tables |
| MainNormalize.KeywordDate | SentimentAnalyzerStockNews/main.py:47-56 | the keyword fails only for `Yesterday` on the first representable day; any date it gives is valid; it gives none only for a non-keyword that does not parse |
| MainNormalize.ParseRow | SentimentAnalyzerStockNews/main.py:40-58 | a row without a link or a cell is dropped; any entry carries the ticker, the link text unstripped as title, and a space-free time; failure happens only on the first day |
| MainNormalize.DatedEntry | SentimentAnalyzerStockNews/main.py:47-58 | with the second word as time, `Today` dates the entry today, `Yesterday` the day before (or fails with `OverflowError` on the first representable day), and any other word the ISO form of its `%b-%d-%y` date, the row being dropped when that does not parse |
| MainNormalize.LabelHasWords | SentimentAnalyzerStockNews/main.py:42-46 | every label with a space splits into a first word, a second word and a rest |
| MainNormalize.WordsSplit | SentimentAnalyzerStockNews/main.py:42 | `date_data[0]` and `date_data[1]` are exactly the first and second words of the stripped label |
| MainNormalize.OneWordIsToday | SentimentAnalyzerStockNews/main.py:43-45 | a label without spaces is dated today, and the whole stripped label is the time |
| MainNormalize.TwoWordsRow | SentimentAnalyzerStockNews/main.py:46-57 | a label with spaces is decided by its first word alone, with the second word as time |
| MainNormalize.TodayWordSpec | SentimentAnalyzerStockNews/main.py:48-49 | `Today` gives today's ISO date |
| MainNormalize.YesterdayWordSpec | SentimentAnalyzerStockNews/main.py:50-51 | `Yesterday` gives the ISO date of the day before, or `OverflowError` on the first representable day |
| MainNormalize.DateWordSpec | SentimentAnalyzerStockNews/main.py:52-56 | any other first word gives the ISO form of its `%b-%d-%y` date, or drops the row (`continue`) when it does not parse |
| MainNormalize.RowDates | SentimentAnalyzerStockNews/main.py:43-57 | every entry is dated today, yesterday, or a date in the window 1969..2068 |
| MainNormalize.ParseTable | SentimentAnalyzerStockNews/main.py:38-58 | a table yields at most one entry per row, each carrying the table's ticker, and fails only on the first representable day |
| MainNormalize.ParseTableAppend | SentimentAnalyzerStockNews/main.py:39-58 | rows are handled independently: parsing two runs of rows one after the other is parsing their concatenation |
| MainNormalize.Parse | SentimentAnalyzerStockNews/main.py:37-58 | the loop over all tables fails only on the first representable day |
| MainNormalize.ParseAppend | SentimentAnalyzerStockNews/main.py:37-58 | tickers are handled independently: parsing two lists of tables one after the other is parsing their concatenation |
| MainNormalize.ParseTickers | SentimentAnalyzerStockNews/main.py:37-58 | every entry carries the ticker of one of the input tables |
| MainNormalize.ReadDate | SentimentAnalyzerStockNews/main.py:62 | a date that survives `to_datetime(errors='coerce')` is valid, fits in a pandas `Timestamp`, and prints back as the text it came from |
| MainNormalize.Frame | SentimentAnalyzerStockNews/main.py:61-63 | `dropna` keeps at most as many records as there are entries, and each kept record renders some entry |
| MainNormalize.FrameOne | SentimentAnalyzerStockNews/main.py:62-63 | one entry is kept exactly when its date text reads back as a date, and it is then kept with that date |
| MainNormalize.FrameAppend | SentimentAnalyzerStockNews/main.py:61-63 | `dropna` treats entries independently and keeps their order: the frame of `a + b` is the frame of `a` followed by that of `b` |
| MainNormalize.FrameKeepsRendered | SentimentAnalyzerStockNews/main.py:61-63 | entries dated with the ISO text of dates in the `Timestamp` range all survive, in order, each with exactly that date |
| MainNormalize.EntriesReadBack | SentimentAnalyzerStockNews/main.py:58-63 | on a day well inside the `Timestamp` range, `dropna` removes no entry the loop produced |
| MainNormalize.ParseDates | SentimentAnalyzerStockNews/main.py:44-63 | on such a day every produced date text is the ISO text of a date in the `Timestamp` range |
| Aggregate.ScoreAppend | SentimentAnalyzerStockNews/main.py:67 | records are scored independently: the scores of `a + b` are those of `a` followed by those of `b` |
| Aggregate.ScorePermutation | SentimentAnalyzerStockNews/main.py:67 | scoring a permutation of the frame gives a permutation of the scored rows |
| Aggregate.SelectPermutation | SentimentAnalyzerStockNews/main.py:70 | reordering the rows changes neither the count nor the total of a group's scores |
| Aggregate.Tallies | SentimentAnalyzerStockNews/main.py:70 | the running tallies have a key exactly for the groups with rows, holding each group's total and count |
| Aggregate.GroupMean | SentimentAnalyzerStockNews/finviz.py:75 | a group has a mean if and only if some row falls into it, and its value is the mean of exactly that group's scores |
| Aggregate.GroupMeanPermutation | SentimentAnalyzerStockNews/main.py:70 | the grouped means do not depend on the order of the rows |
| Aggregate.Pivot | SentimentAnalyzerStockNews/main.py:70-72 | dates ascend and are exactly the rows' dates; tickers ascend in string order and are exactly the rows' tickers; a cell exists exactly for an occurring pair, holding that group's mean |
| Aggregate.PivotPermutation | SentimentAnalyzerStockNews/finviz.py:75 | the pivot table does not depend on the order of the rows |
| Aggregate.FramePivotPermutation | SentimentAnalyzerStockNews/finviz.py:72-75 | scoring and pivoting a frame gives the same table for any order of its records |
| Pipeline.FinvizTable | SentimentAnalyzerStockNews/finviz.py:42-75 | the script reaches a table exactly when normalizing succeeds, and every ticker in it comes from an input table |
| Pipeline.MainTable | SentimentAnalyzerStockNews/main.py:35-72 | the script reaches a table exactly when parsing succeeds, which fails only on the first representable day |
| FinvizExamples.CarryForward | SentimentAnalyzerStockNews/finviz.py:59-62 | a time-only row after a dated row is filed under that row's date |
| FinvizExamples.ReadTwoWords | SentimentAnalyzerStockNews/finviz.py:51-56 | a cell whose stripped label is a token, one space and a time is read as that token's date and that time |
| FinvizExamples.RawRowsExample | SentimentAnalyzerStockNews/finviz.py:44-64 | cells `Mon-DD-YY HH:MMAM` then `HH:MMAM` give two records, both under the first row's date, each with its own time and stripped title |
| FinvizExamples.June1Token | SentimentAnalyzerStockNews/finviz.py:56 | `Jun-01-24` parses as 2024-06-01 |
| FinvizExamples.FallbackExample | SentimentAnalyzerStockNews/finviz.py:55-59 | after a label whose token parses to `d`, a label whose token does not parse is filed under `d` |
| FinvizExamples.NoDateYetExample | SentimentAnalyzerStockNews/finviz.py:61-64 | a time-only row before any date is dropped |
| AggregateExamples.MeanExample | SentimentAnalyzerStockNews/finviz.py:75 | scores 0.2 and -0.4 of one ticker and day average to -0.1; a lone 0.6 stays 0.6; an absent pair has no cell |
| WorkedExamples.TodayExample | SentimentAnalyzerStockNews/main.py:48-49 | a cell reading `Today 10:30AM` is dated with the ISO text of the day it is read, at `10:30AM` |
| WorkedExamples.YesterdayExample | SentimentAnalyzerStockNews/main.py:50-51 | a cell reading `Yesterday 09:00AM` is dated with the ISO text of the day before, at `09:00AM` |
| WorkedExamples.June1Yesterday | SentimentAnalyzerStockNews/main.py:51 | the day before 2024-06-01 is 2024-05-31 |
| WorkedExamples.ExampleTokenParses | SentimentAnalyzerStockNews/main.py:54 | `Jan-05-24` parses as 2024-01-05 |
| WorkedExamples.AbsoluteExample | SentimentAnalyzerStockNews/main.py:52-57 | a cell whose first word is a `Mon-DD-YY` date is dated with the ISO form of that date, whatever the day it is read |
| WorkedExamples.MalformedExample | SentimentAnalyzerStockNews/main.py:55-56 | a cell whose first word starts with `Foo-`, which names no month, is dropped rather than failing |

## Left out

- Network access (`urlopen`), HTML parsing (BeautifulSoup) and the choice of the `<table>`: tables arrive as lists of rows of cell texts. A row's `a` and `td` in `main.py` arrive as optional texts.
- The error handler of the page download (`finviz.py:39-40`, `main.py:31-32`): a ticker whose page fails simply has no table in the input.
- The VADER analyser: the scorer is a parameter `string -> real` of `Score` and of the pipeline functions.
- Plotting (`sns.heatmap`, `DataFrame.plot`) and the heatmap's `transpose`, which only changes the presentation.
- `SentimentAnalyzer/preprocess.py`, which is not part of this model.
- `main.py` lists its tickers without the ticker scan (main.py:1-24): the list of tables is its input.
- Aggregate.GroupMean: real arithmetic stands for float; rounding of the float sum and division is not modelled.
- MonthDayYear.MonthOf: the case-insensitive match of `%b` covers ASCII letters only, and the C locale's English month names are assumed.
- MonthDayYear.DayOf: only ASCII digits are accepted, not the other Unicode decimal digits Python's `\d` admits.
- Calendar.FormatIso: `%Y` is always four digits. Python writes years below 1000 unpadded on some platforms, but such dates are outside the pandas `Timestamp` range anyway.
- MainNormalize.ReadDate: only reads the ISO text the loop itself writes; other formats `to_datetime` accepts are not modelled.
- `datetime.today()` is the parameter `today`, one day for the whole run. `main.py` calls it again for every row (lines 44, 49, 51), so a run that crosses midnight can date rows differently; that is not modelled. The `OverflowError` of `date.min - timedelta(days=1)` is the error `DateOverflow`.
- `df.dropna` in `finviz.py:68` is the identity here, because a record's date is always a date and never missing.
- WorkedExamples.TodayExample: it is stated for any valid `today` rather than one fixed day. The concrete rendering of a day is a separate lemma (`June1Iso`).
- Tickers.ExtractTickerSpec: `str.upper` is full Unicode case mapping (`'ß'` becomes `'SS'`, changing the length); the model upper-cases ASCII letters only.
- Text.Upper: upper-cases ASCII letters only and keeps the length; Python's `str.upper` also maps non-ASCII letters (`'é'` to `'É'`) and can lengthen the text (`'ß'` to `'SS'`).
- Text.UpperUnique: characterises the ASCII upper-casing of `Text.Upper`, not Python's full Unicode `str.upper`.
- Tickers.ExtractTicker: the ticker is upper-cased in ASCII only, so a link with non-ASCII letters in its ticker text yields a different ticker than `finviz.py:21` does.
- Tickers.ExtractTickers: the collected tickers carry the same ASCII-only upper-casing as `Tickers.ExtractTicker`.
- MonthDayYear.ParseMonthDayYearSpec: the `%d` and `%y` fields of `strptime` accept any Unicode decimal digit through `\d`; the model accepts ASCII digits only.
- Pipeline.MainTable: when no entry survives, `mean_df.xs('compound', ...)` at main.py:72 would raise `KeyError` because the frame has no `compound` column; the model returns a table with no dates, tickers or cells.
