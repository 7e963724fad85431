# German compound momentum screener — Dafny model

This project models the computational core of a screener that ranks the
DAX, MDAX and SDAX stocks by compound price momentum:

- **Metrics** (`metrics.dfy`): the momentum return over a lookback window that
  skips the most recent 21 sessions, and the RSL score (latest close over its
  130-session simple moving average). Both are undefined (`None`) for a short
  series or a non-positive denominator.
- **Tickers** (`tickers.dfy`): choosing one Yahoo symbol per stock with the
  three-pass preference (EUR and `.F`/`.DE`, then any `.F`/`.DE`, then any
  EUR), and deduplicating by ticker with the first stock winning.
- **Percentile** (`percentile.dfy`): the percentile position of a value in a
  momentum window. It is the index of the value's first occurrence in the
  ascending sort, over `max(n - 1, 1)`, times 100.
- **Ranking** (`ranking.dfy`): the RSL >= 1.0 gate, the 0.40 / 0.35 / 0.25
  composite of the 12-, 6- and 3-month percentiles, the stable descending sort
  by composite and the ranks 1..n.
- **PriorRanks** (`prior_ranks.dfy`): looking up each top row's previous rank
  and replacing the prior-rank index by this run's top rows.
- **History** (`history.dfy`): the ledger update. It drops today's entry,
  appends the new snapshot and keeps the last 104 entries.
- **Screener** (`screener.dfy`): the per-instrument evaluation, the download
  loop's split into rows and skip records, and one run from the abort rule to
  the ledger update.

Prices and scores are mathematical reals. The undefined metric is `None`
rather than NaN. The prior-rank index is a `map<string, int>` and the ledger a
`seq<Snapshot>`, passed in and returned instead of read from and written to
files. Today's date is a parameter. Where the source mutates rows in loops
(composite, rank, previous rank), filters lists, or fills the `seen` set and
the ticker list, the model has a method with the same loop over sequence
state. Most methods are proved against a specification function, with the
properties stated by lemmas about that function; `PriorRanks.NewPrevRanks`
states the keys and values of the new index directly in its contract.

Two behaviours of the code are worth stating plainly:

- The run aborts only when there are fewer than `TOP_N` valid rows *before*
  the RSL gate (`momentum_screener.py:227`). If fewer than `TOP_N` rows pass
  the gate, the run still completes with a shorter top list (`RunScreener`).
- A window's percentile uses the first occurrence of the value in the sorted
  list (`momentum_screener.py:243`), so a maximum shared by two rows maps
  below 100. `PctRankOfMaximum` proves that the percentile is 100 exactly when
  the value is strictly above every other value in the window.

## Model

| member | source | states |
|---|---|---|
| `Metrics.MomentumDefinedIff` | momentum_screener.py:118-126 | momentum is undefined exactly when the series is shorter than lookback+skip or the start close is not positive; otherwise the momentum times the start close equals 100 times (end close minus start close) |
| `Metrics.MomentumSign` | momentum_screener.py:122-126 | a defined momentum is positive iff the end close is above the start close, zero iff they are equal, and at least -100 when the end close is non-negative |
| `Metrics.MomentumWindowLocal` | momentum_screener.py:120-123 | prepending older closes to a series long enough for the window does not change the momentum |
| `Metrics.MomentumScaleInvariant` | momentum_screener.py:122-126 | multiplying every close by a positive factor leaves momentum (defined or not) unchanged |
| `Metrics.RslDefinedIff` | momentum_screener.py:129-137 | RSL is undefined exactly when the series is shorter than the period or the mean of the last period closes is not positive; otherwise RSL times that mean is the latest close |
| `Metrics.RslAtLeastOneIff` | momentum_screener.py:133-137 | a defined RSL is at least 1 exactly when the latest close is at or above its moving average |
| `Metrics.RslOfFlatSeries` | momentum_screener.py:131-137 | a constant positive series of sufficient length has RSL exactly 1 |
| `Metrics.RslScaleInvariant` | momentum_screener.py:133-137 | multiplying every close by a positive factor leaves RSL (defined or not) unchanged |
| `Tickers.Scan` | momentum_screener.py:82-108 | one pass over the symbol list returns the Yahoo symbol of the first entry the pass accepts, non-dict entries skipped |
| `Tickers.GermanTickers` | momentum_screener.py:70-114 | the stock loop with its `seen` set returns the specified selection, with no ticker twice and no empty ticker |
| `Tickers.FirstAcceptedIsFirst` | momentum_screener.py:82-89 | a pass yields nothing iff no entry is accepted, and otherwise yields the first accepted entry's symbol |
| `Tickers.PreferredEurFrankfurt` | momentum_screener.py:81-89 | when some entry is EUR and ends in .F or .DE, the first such entry's symbol is chosen |
| `Tickers.PreferredFrankfurt` | momentum_screener.py:91-99 | with no EUR Frankfurt/Xetra entry, the first entry ending in .F or .DE is chosen whatever its currency |
| `Tickers.PreferredEur` | momentum_screener.py:101-108 | with no .F/.DE entry, the first EUR entry's symbol is chosen even if empty, and without any EUR entry the stock yields nothing |
| `Tickers.SelectedDistinct` | momentum_screener.py:110-112 | no ticker appears twice in the selection |
| `Tickers.SelectedNonEmpty` | momentum_screener.py:110 | no selected ticker is empty |
| `Tickers.SelectedPrefix` | momentum_screener.py:73-112 | the selection for any leading run of stocks is a prefix of the full selection (stock order is kept) |
| `Tickers.SelectedSound` | momentum_screener.py:110-112 | every selected pair is some stock's name with that stock's preferred symbol |
| `Tickers.SelectedKeepsFirst` | momentum_screener.py:110-112 | a stock whose non-empty symbol no earlier stock chose is listed under its own name (first occurrence wins) |
| `Tickers.SelectedComplete` | momentum_screener.py:110-112 | every non-empty preferred symbol of any stock is among the selected tickers |
| `Percentile.SortAscCorrect` | momentum_screener.py:238-240 | the window sort returns an ascending permutation of the window's values |
| `Percentile.SortAscOrderIndependent` | momentum_screener.py:238-240 | two windows holding the same values, in any order, sort to the same list |
| `Percentile.IndexOfSorted` | momentum_screener.py:243 | in an ascending list the first occurrence of a value is at the index equal to the number of values strictly below it |
| `Percentile.PctRankCountsLower` | momentum_screener.py:242-244 | a window value's percentile equals 100 times the count of strictly lower window values over max(n-1,1) |
| `Percentile.PctRankBounds` | momentum_screener.py:242-244 | every window value's percentile lies in [0, 100] |
| `Percentile.PctRankOfMinimum` | momentum_screener.py:242-244 | the smallest window value has percentile 0 |
| `Percentile.PctRankOfMaximum` | momentum_screener.py:242-244 | with n > 1 a value has percentile 100 iff it is strictly above every other value of the window |
| `Percentile.PctRankMonotone` | momentum_screener.py:242-244 | a larger value never has a smaller percentile, and a strictly larger one has a strictly larger percentile |
| `Ranking.FilterByRsl` | momentum_screener.py:233 | the filter loop returns exactly the rows with rsl >= 1.0 |
| `Ranking.RslSurvivorsMembers` | momentum_screener.py:233 | a row survives the gate iff it is an input row with rsl >= 1.0 |
| `Ranking.RslSurvivorsAppend` | momentum_screener.py:233 | filtering a concatenation is concatenating the filtered parts, so relative order is kept |
| `Ranking.ScoreComposites` | momentum_screener.py:237-250 | the loop sets each row's composite to 0.40/0.35/0.25 of its three window percentiles, changes nothing else, and every composite lies in [0, 100] |
| `Ranking.CompositeBounds` | momentum_screener.py:246-250 | the composite of every row lies in [0, 100] |
| `Ranking.CompositeDominance` | momentum_screener.py:246-250 | a row at least as strong in every window scores at least as high, and strictly higher if strictly stronger in one window |
| `Ranking.CompositeOfLeader` | momentum_screener.py:246-250 | with n > 1 a row strictly best in all three windows scores exactly 100 |
| `Ranking.CompositeOrderIndependent` | momentum_screener.py:237-250 | a row's composite depends only on its own values and the values each window holds, not on row order |
| `Ranking.SortByCompositeCorrect` | momentum_screener.py:253 | the sort returns a permutation of its input with non-increasing composite |
| `Ranking.SortByCompositeStable` | momentum_screener.py:253 | for every score, rows with that score keep their input relative order |
| `Ranking.SortByCompositeUnique` | momentum_screener.py:253 | when no two different rows share a composite, two inputs holding the same rows in any order sort to the same list |
| `Ranking.WithCompositesPermutes` | momentum_screener.py:237-250 | scoring a permutation of the rows yields a permutation of the scored rows |
| `Ranking.RankOrderIndependent` | momentum_screener.py:233-253 | permuting the valid rows leaves the ranked order of the survivors unchanged, provided no two different survivors tie on composite; ties keep input order by `SortByCompositeStable` |
| `Ranking.SortAndRank` | momentum_screener.py:253-255 | the result is the sorted rows with rank i+1 at position i, and composites are non-increasing |
| `PriorRanks.AttachPrevRanks` | momentum_screener.py:265-266 | each top row gets the old index's rank for its ticker, or None if absent, and nothing else changes |
| `PriorRanks.NewPrevRanks` | momentum_screener.py:269 | the new index's keys are exactly the top tickers; each ticker maps to the rank of the last row carrying it |
| `History.Record` | momentum_screener.py:296-319 | the loop drops entries with today's date, appends the snapshot and keeps the last 104 |
| `History.WithoutDateMembers` | momentum_screener.py:296 | an entry survives the date filter iff its date differs from today's |
| `History.RecordedShape` | momentum_screener.py:296-319 | after recording, the ledger has at most 104 entries, the new snapshot is last and is the only entry with its date, and the rest are the most recent older entries in order |
| `History.RecordSameDayReplaces` | momentum_screener.py:295-319 | recording twice on the same date equals recording only the second snapshot |
| `Screener.EvaluateValidIff` | momentum_screener.py:181-212 | an instrument yields a row iff its fetch succeeded, it has at least 273 closes, the three start closes are positive and the 130-session mean is positive; a skip record keeps name and ticker |
| `Screener.CollectRows` | momentum_screener.py:170-221 | the download loop puts every instrument either among the rows or among the skip records, in order |
| `Screener.RankTop` | momentum_screener.py:231-266 | the gate, composite, sort, ranks, top-20 cut and previous-rank lookup give the first min(20, survivors) rows of the stable composite sort of the RSL survivors, ranked 1.. in non-increasing composite order, each with the old index's rank for its ticker |
| `Screener.RunScreener` | momentum_screener.py:227-319 | aborts iff fewer than 20 valid rows; otherwise the top list is the first min(20, survivors) rows of the stable composite sort of the RSL survivors, ranked 1.., with previous ranks from the old index; the new index holds exactly the top tickers with their ranks; the ledger is updated by `Record` |

## Left out

- Fetching tickers from the symbol library and prices from Yahoo Finance: the stock lists and the close series are inputs (`Tickers.GermanTickers`, `Screener.Instrument`). The three index lists are taken already concatenated in DAX, MDAX, SDAX order.
- Reading and writing the three JSON files, `os.path.exists`, and the layout of the current-snapshot document with its counts and skip list: the prior-rank index and the ledger are values passed in and returned.
- Console output, the 0.3-second sleeps between requests, and the clock: the run date is a parameter.
- The text of an exception in the fetch: any failed fetch becomes a skip record with reason `FetchError` and zero days.
- Floating point and `round(…, 2)` / `round(…, 4)`: all values are exact reals. The stored metrics that the ranker reads are the inputs as given, so rounding before the gate and before the percentiles, and rounding of the composite, are not modelled. Rounding can create ties that the reals do not have.
- NaN closes and `dropna`: a series is a sequence of real closes.
- The default name `'Unknown'` for a stock without a name, and non-string symbol values: a stock always has a name and string fields.
- Metrics.MomentumReturn: requires skip >= 1. With skip = 0 the source reads the first close instead of the last; only 21 is used.
- Metrics.RslScore: requires period >= 1. The source never uses a period of 0; only 130 is used.
