# Earnings-announcement preparation, modelled in Dafny

This project models the data-preparation core of an event-study pipeline
that replicates Ball (2008). That core is `code/python/prepare_data-wscp.py`.
The input is one merged table: Worldscope firm-years joined to daily
Datastream returns through the linking table. In that table, a row carries
the firm's Datastream code (`infocode`), its four quarterly
earnings-announcement dates (`item5901` .. `item5904`), one daily return
(`ret`) and the market date of that return (`marketdate`).

The model covers two steps.

1. **Firm-year filter** (`filter_valid_earnings`). A `dropna` and three
   boolean-mask filters run one after another. They drop a row if an announcement date is missing,
   if the four dates span more than one calendar year, if any year is after
   2023, or if all four dates are the same day. Each filter logs how many
   rows it dropped. Finally, a missing return is replaced by 0.
   - Module `EarningsFilter` (file `earnings_filter.dfy`) models this as pure
     functions over `seq<Row>`.
   - Module `Sequences` holds the generic mask filter, the subsequence
     predicate and first-occurrence de-duplication.
2. **Trading-day matcher** (`match_earnings_to_market_dates`). It builds a
   per-firm lookup of (market date, return) pairs from the table itself.
   Then, for every row and every quarter, it writes three columns into the
   row: the earliest trading date on or after the announcement, the return
   on that date, and the deviation in days.
   - Module `MarketMatch` (file `market_match.dfy`) models this as a method
     that updates an `array<Row>` in place.
   - That method is proved against the function `MatchAll` on the table's
     old contents.
   - The search for the earliest date is a verified loop,
     `EarliestOnOrAfter`.

`Records` holds the shared data model:

- A date is an integer day number.
- The calendar year of a day is a parameter `yearOf: Day -> int`.
- An announcement cell is `Missing` (NA), `Unparsed` (a value that the
  `%m/%d/%y` conversion turns into NaT) or `Parsed(day)`.
- The matcher's added columns are a map from quarter to
  `Match(day, ret, deviation)`. A quarter that is not in the map is unset
  (NaT / None).

Modelling decisions that follow the code:

- **NaT and NaN comparisons.** In pandas, NaN/NaT compares false with
  everything.
  - An `Unparsed` date has no year, so it fails the same-year test at lines
    97-101 and the year test at lines 106-111.
  - A NaT date never equals another date (lines 117-121).
  - A NaT market date is never on or after an announcement (line 198).
- **The lookup comes from the filtered table itself** (lines 167-173). So
  every row's firm is in it: `MarketLookup` states this. The "no market
  data" branch at lines 185-186 is modelled in `MatchQuarter`, but it cannot
  fire for the table's own rows.
- **A firm whose market dates are all NaT** still has a lookup entry.
  Each of its quarters stays unset through the "no date on or after" branch
  (lines 200-201).
- **Unmatched events are not dropped.** An event with no qualifying trading
  date keeps its row, with its three columns left unset; the code emits no
  separate "unmatched" result and removes nothing.
- **`drop_duplicates` (line 167)** is modelled as per-firm de-duplication of
  (market date, return) pairs.
- **One return per (firm, date).** For `.loc[matched_date]` to give one value,
  each (firm, date) must carry a single return. This is the precondition
  `UniqueReturns` of `MatchEarningsToMarketDates`, as the source assumes.

## Model

| member | source | states |
|---|---|---|
| `EarningsFilter.FilterValidEarnings` | code/python/prepare_data-wscp.py:69-152 | every kept row has four parsed dates, all four in one calendar year, that year at most 2023, and the four dates not all equal, and its `ret` is present; the output is no longer than the input; each logged drop count is the number of rows of that stage's input failing its condition, and together they account for exactly the removed rows; the fill count is the number of valid input rows whose return is missing, and at most the output size |
| `EarningsFilter.DropReport` | code/python/prepare_data-wscp.py:80-123 | the count logged after each stage is the number of rows of that stage's input failing its condition, and the four counts sum to the number of rows the stages remove |
| `EarningsFilter.MissingDatesStage` | code/python/prepare_data-wscp.py:80-83 | the NA drop removes exactly the rows with a missing announcement cell in some quarter, and the count it logs is the number of such rows |
| `EarningsFilter.MultipleYearsStage` | code/python/prepare_data-wscp.py:90-103 | the same-year mask keeps exactly the rows whose four dates all parsed and fall in the first quarter's year, so a row with an unparsed (NaT) date is removed; the count it logs is the number removed |
| `EarningsFilter.AfterCutoffStage` | code/python/prepare_data-wscp.py:105-113 | the cutoff mask keeps exactly the rows whose four dates all parsed with a year of at most 2023; the count it logs is the number removed |
| `EarningsFilter.IdenticalDatesStage` | code/python/prepare_data-wscp.py:115-123 | the identical-dates mask removes exactly the rows whose first date parsed and whose four quarters all carry that date; NaT equals nothing, so a row with an unparsed date is kept; the count it logs is the number removed |
| `EarningsFilter.StagesAreValidFirmYear` | code/python/prepare_data-wscp.py:80-123 | the four successive row filters (missing date, multiple years, beyond 2023, identical dates) keep exactly the rows that a single filter by the direct validity condition keeps |
| `EarningsFilter.StagePredicatesAgree` | code/python/prepare_data-wscp.py:97-121 | the conjunction of the four stage conditions, with the NaN/NaT comparison semantics, is the validity condition: four parsed dates, one year, at most 2023, not all one day |
| `EarningsFilter.FilterValidEarningsSelects` | code/python/prepare_data-wscp.py:78-128 | the filter only removes rows: its output is the valid rows of the input as an order-preserving subsequence, with missing returns filled; every valid input row appears filled in the output, and every output row is a filled valid input row |
| `EarningsFilter.FillRets` | code/python/prepare_data-wscp.py:125-129 | `fillna(0)` row by row (each row through `FillRet`): after the fill every row has a return; a present return is unchanged, a missing one becomes 0, no other column changes |
| `EarningsFilter.FilledValidRows` | code/python/prepare_data-wscp.py:125-129 | filling returns keeps every valid firm-year valid |
| `EarningsFilter.FilledSelection` | code/python/prepare_data-wscp.py:117-128 | the filled output of a mask filter contains the filled form of every passing row, and only filled forms of passing rows |
| `Sequences.Filter` | code/python/prepare_data-wscp.py:97-101 | a boolean-mask selection keeps at most the input's rows (length and multiset bound), every kept row passes the mask, and every passing row is kept as often as it occurs in the input, so identical passing rows are never merged |
| `Sequences.FilterIsSubsequence` | code/python/prepare_data-wscp.py:106-111 | a mask selection is an order-preserving subsequence of its input |
| `Sequences.FilterTwice` | code/python/prepare_data-wscp.py:97-121 | applying two masks in turn equals applying their conjunction once |
| `Sequences.FilterSamePredicate` | code/python/prepare_data-wscp.py:117-121 | masks that agree on every row select the same rows |
| `Sequences.FilterCount` | code/python/prepare_data-wscp.py:82-83 | the rows a filter drops are as many as the rows failing its condition: input size = kept rows + failing rows |
| `Sequences.Count` | code/python/prepare_data-wscp.py:126 | the count of rows with a condition is the number of rows a mask by that condition selects; it is at most the table size, and it is zero exactly when no row has it |
| `Sequences.Dedup` | code/python/prepare_data-wscp.py:167 | de-duplication keeps exactly the distinct values of its input, each once |
| `MarketMatch.FirmObservations` | code/python/prepare_data-wscp.py:170-173 | a firm's group holds the (market date, return) pair of each of that firm's rows and nothing else |
| `MarketMatch.MarketLookup` | code/python/prepare_data-wscp.py:166-173 | the lookup has a key for every firm of the table and only for those; a firm's series holds exactly the (date, return) pairs of its rows, without duplicates |
| `MarketMatch.Earliest` | code/python/prepare_data-wscp.py:196-198 | when found, the result is a date of the series on or after the announcement and no qualifying date of the series is earlier; it is absent exactly when no date of the series (NaT never qualifies) is on or after the announcement |
| `MarketMatch.EarliestOnOrAfter` | code/python/prepare_data-wscp.py:196-201 | the loop finds the minimum of the qualifying dates, with the same minimality, membership and not-found guarantees |
| `MarketMatch.ReturnOn` | code/python/prepare_data-wscp.py:205 | the return looked up for a trading date is a return recorded on that date in the series |
| `MarketMatch.MatchQuarter` | code/python/prepare_data-wscp.py:185-206 | a recorded quarter is present only for a firm in the lookup with a parsed date; its date is an entry of the firm's series on or after the announcement with no qualifying entry earlier, its return is the one recorded on that date and its deviation is the distance in days; the quarter stays unset exactly when the firm is not in the lookup, the date is missing or unparsed, or no entry is on or after it |
| `MarketMatch.MatchRowAt` | code/python/prepare_data-wscp.py:188-206 | the matches written into a row hold a quarter exactly when that quarter's match is found, and then hold that match |
| `MarketMatch.MatchedBeforeStep` | code/python/prepare_data-wscp.py:188-206 | one pass of the quarter loop adds quarter q's match when one is found and otherwise leaves the matches as they were |
| `MarketMatch.MatchAll` | code/python/prepare_data-wscp.py:175-206 | matching keeps the table's length and changes no column other than the matched columns |
| `MarketMatch.MatchEarningsToMarketDates` | code/python/prepare_data-wscp.py:155-209 | under one return per (firm, date), the table afterwards is the old table with every row's four quarters matched against the lookup built from the old table |
| `MarketMatch.ResetMatches` | code/python/prepare_data-wscp.py:175-179 | every row's matched columns are initialised to unset, and nothing else changes |
| `MarketMatch.MatchRowsInPlace` | code/python/prepare_data-wscp.py:181-206 | the row loop leaves every row equal to its fully matched form |
| `MarketMatch.MatchRowInPlace` | code/python/prepare_data-wscp.py:182-206 | the quarter loop writes into row i exactly the matches of its four quarters and leaves every other row unchanged |
| `MarketMatch.LookupOfTable` | code/python/prepare_data-wscp.py:170-173 | the built lookup covers every row's firm, and a firm's series is exactly the pairs of its rows |
| `MarketMatch.SeriesDates` | code/python/prepare_data-wscp.py:197 | a date is in a firm's series exactly when some row of that firm has that market date |
| `MarketMatch.QuarterMatchSound` | code/python/prepare_data-wscp.py:196-206 | a recorded match for a quarter is a trading date of the firm on or after the announcement, with no earlier qualifying trading date; its deviation is the matched date minus the announcement; its return is that of a row of the firm on that date |
| `MarketMatch.QuarterUnmatched` | code/python/prepare_data-wscp.py:185-201 | a quarter has no match exactly when its date is missing or unparsed, or the firm has no trading date on or after it |
| `MarketMatch.MatchedQuarterIsEarliest` | code/python/prepare_data-wscp.py:196-206 | in the matched table, a set quarter has a present announcement date; the matched date is one of the firm's trading dates and is not before the announcement; no firm trading date lies strictly between them; the deviation equals their difference and is at least 0 |
| `MarketMatch.MatchedQuarterReturn` | code/python/prepare_data-wscp.py:204-205 | the recorded return is that of a row of the firm on the matched date, and with one return per (firm, date) it equals the return of every such row |
| `MarketMatch.UnmatchedQuarter` | code/python/prepare_data-wscp.py:185-201 | in the matched table, a quarter stays unset if and only if its announcement date is missing or unparsed, or the firm has no trading date on or after it |
| `MarketMatch.QuarterSlotsIndependent` | code/python/prepare_data-wscp.py:188-206 | a quarter's slot depends only on the firm and that quarter's own announcement date, so the other quarters never affect it |
| `MarketMatch.QuarterIndependent` | code/python/prepare_data-wscp.py:188-206 | two rows of the same firm with the same date for quarter q get the same quarter-q result |

## Left out

- Reading and writing CSV/Parquet files, configuration loading and `main`
  (lines 12-46) are I/O. Only the two transformations are modelled.
- `log.info` calls are left out. The counts they print for the filter
  stages are returned in `FilterReport`.
- The two pandas inner joins `merge_worldscope_link` and
  `merge_with_datastream` (lines 49-66) are thin library wrappers. The model
  starts from their merged table.
- Parsing date strings with `%m/%d/%y` and `errors='coerce'` (line 88) is
  not modelled. A date arrives parsed to a day number, or as `Unparsed` when
  the conversion would give NaT. The year of a day is the caller-supplied
  `yearOf`.
- The `marketdate` conversions (lines 132 and 164) are not modelled. Market
  dates arrive as `Option<Day>`, with `None` for NaT.
- Counting zero returns by `market_year` (lines 137-145) is diagnostic
  logging and is not modelled. Dropping the temporary columns
  `year_5901`..`year_5904` (line 148) needs no model, because the model
  never adds those columns.
- The `market_year` column added at line 135 is not dropped at line 148,
  so the table `filter_valid_earnings` returns keeps it and it is written
  out at lines 40-41. `Row` has no such column, so the model's output table
  does not carry it.
- `compute_deviation_statistics` (lines 212-224) is a floating-point mean and
  is not modelled.
- Returns are opaque integers. They are only copied or set to 0, never
  computed with.
- Shifting a zero-return day forward, the four-quarter sample selection and
  buy-and-hold compounding are parts of the wider pipeline. They are not in
  `prepare_data-wscp.py`, so they are not part of this model.
- `code/python/pull_wrds_data-wscp.py` is a network database client and is
  not part of this model.
- `compute_summary_statistics` and `plot_summary_statistics` in
  `code/python/do_analysis-wscp.py` are floating-point statistics and
  plotting, and are not part of this model.
- MatchEarningsToMarketDates: the case where a (firm, date) has two
  different returns is excluded by its precondition. In pandas that case
  makes `.loc` return a Series instead of one value.
