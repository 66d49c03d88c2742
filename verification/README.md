# Screener API core in Dafny

This project models the core of a small stock-screener backend (`apps/api/main.py`) and
proves properties of that model. The model has three parts:

- **Live prices and live P/E** (`GET /api/price`, module `Quotes`). The tables `last_price` and
  `trailing_eps_cache` are the two map fields of class `Quotes.QuoteCache`. The freshness
  windows are 60 s for prices and 6 h for trailing EPS. A symbol with a stale price or EPS
  gets one lookup from the market-data provider. Each fact obtained is upserted with the
  request time `now`, and `pe_live = price / eps` is built from the merged maps. The
  provider is a parameter `provider: Symbol -> Lookup`. For each symbol it gives what one
  lookup yields: a price (`Obtained`), no price (`Unavailable`), or an exception from the
  daily-history fallback (`HistoryRaises`), together with a numeric `trailingEps` or none.
  The request time `now` is a parameter too.
- **The screening read-model** (`GET /api/screener`, `GET /api/screener.csv`, `GET /api/sectors`,
  module `Screener`). The string-built SQL is modelled as pure functions over the `symbols`
  and `factor_snapshot` tables, each a map keyed by symbol. The functions do the left join,
  then the ROIC, sector and positive-EPS filters, then `ORDER BY` symbol, then
  `LIMIT`/`OFFSET`.
- **Symbol-list parsing** (module `Symbols`): `[s.strip().upper() for s in csv.split(",") if s.strip()]`,
  which both parts above use. Module `Ordering` holds the text order that `ORDER BY` uses
  and the sorted listing of a key set.

Files: `wrappers.dfy` (Option), `symbols.dfy`, `ordering.dfy`, `screener.dfy`, `quotes.dfy`.

The price-cache loops are modelled as methods with loop invariants. The `Price` method runs
the same four steps as the source:

1. `ServeFromCache` reads the price table.
2. `ServeFromCache` reads the EPS table.
3. `Refresh` looks up each distinct stale symbol once, through `Visit`.
4. `LivePe` builds `pe_live`.

`Price`'s postcondition states the new tables and the response as functions of the old
tables and the provider. The lemma `ReadYourWrites` proves that the response's `prices` and
`trailing_eps` are exactly what a cache read made right after the request would serve.

## Model

| member | source | states |
|---|---|---|
| `Symbols.Strip` | apps/api/main.py:130 | `str.strip()`: the result is a slice `s[i..j]` of the input with only whitespace before `i` and after `j`, it has no whitespace at either end, and it is empty exactly when the input is all whitespace |
| `Symbols.StripUnique` | apps/api/main.py:130 | any trimmed slice of `s` with only whitespace around it is `Strip(s)`, so the contract of `Strip` fixes its result |
| `Symbols.Split` | apps/api/main.py:130 | `str.split(",")`: at least one piece, and no piece contains a comma |
| `Symbols.JoinSplit` | apps/api/main.py:130 | joining the pieces of `split(",")` with commas gives back the input |
| `Symbols.SplitJoin` | apps/api/main.py:130 | splitting a comma-join of comma-free pieces gives back the pieces |
| `Symbols.SplitConcat` | apps/api/main.py:130 | splitting `a,b` gives the pieces of `a` followed by the pieces of `b` |
| `Symbols.ParseSymbols` | apps/api/main.py:258 | the parsed list has at most as many entries as there are comma-separated pieces |
| `Symbols.ParseWellFormed` | apps/api/main.py:258 | every parsed symbol is non-empty, trimmed and upper-case |
| `Symbols.ParseConcat` | apps/api/main.py:192 | the symbols of `a,b` are those of `a` followed by those of `b`, so input order and duplicates are kept |
| `Symbols.ParseOnePiece` | apps/api/main.py:130 | a comma-free piece is dropped when blank, and otherwise yields its stripped, upper-cased text |
| `Symbols.ParseIdempotent` | apps/api/main.py:258 | re-parsing the comma-join of a parsed list gives the same list |
| `Symbols.ParseSingleSymbol` | apps/api/main.py:130 | a single well-formed symbol parses to itself |
| `Ordering.SortedKeys` | apps/api/main.py:104-107 | a key set listed in strictly ascending text order: each key exactly once, nothing else |
| `Ordering.LexLeTransitive` | apps/api/main.py:107 | the `ORDER BY` text order is transitive |
| `Ordering.LexLeAntisymmetric` | apps/api/main.py:107 | the `ORDER BY` text order is antisymmetric |
| `Ordering.LexLeTotal` | apps/api/main.py:107 | the `ORDER BY` text order is total |
| `Screener.Sectors` | apps/api/main.py:100-109 | strictly sorted (so distinct), contains every non-NULL, non-empty sector of `symbols`, and nothing else |
| `Screener.Candidates` | apps/api/main.py:128-157 | explicit-list mode: row i is the left-joined row (COALESCE name, NULLs for missing tables) of parsed entry i. Otherwise: one row per `symbols` row, every row of `symbols` present. Every row is its own symbol's joined row |
| `Screener.UnknownSymbolDefaults` | apps/api/main.py:136-143 | a symbol missing from `symbols` gets its own symbol as name and NULL sector and shares. A symbol without a snapshot gets NULL factor columns |
| `Screener.Filter` | apps/api/main.py:159-166 | each row that passes the WHERE clause is kept exactly as many times as it occurs, and no failing row is kept |
| `Screener.FilterAppend` | apps/api/main.py:159-166 | filtering `a + b` gives the filtered `a` followed by the filtered `b`, so kept rows stay in input order |
| `Screener.FilterSingle` | apps/api/main.py:159-166 | a one-row list keeps its row exactly when the row passes |
| `Screener.SortBySymbol` | apps/api/main.py:168 | `ORDER BY 1`: the result is sorted by symbol and is a permutation of the input |
| `Screener.Page` | apps/api/main.py:168 | `LIMIT/OFFSET`: an offset past the end gives nothing; otherwise the result has `min(limit, n - offset)` rows, row i being input row `offset + i` |
| `Screener.Run` | apps/api/main.py:126-171 | the result is sorted by symbol and holds at most `limit` rows, each of them a candidate that passes the filters |
| `Screener.SortedUnique` | apps/api/main.py:168 | two symbol-sorted lists holding the same rows are equal when rows with equal symbols are equal, so `ORDER BY 1` fixes the order of joined rows |
| `Screener.RunIsPage` | apps/api/main.py:168 | for any symbol-sorted listing `s` of the passing candidates, the result is exactly the `LIMIT`/`OFFSET` window of `s`, for every `limit` and `offset` |
| `Screener.ScreenIsPage` | apps/api/main.py:123-124 | JSON: the result is the window of the sorted passing rows that `limit` (default 200) and `offset` select |
| `Screener.ScreenCsvIsPage` | apps/api/main.py:186-187 | CSV as written: the result is the window of the sorted rows passing its filters that `limit` (default 1000) and `offset` select |
| `Screener.ScreenCsvAlignedIsPage` | apps/api/main.py:186-187 | corrected CSV: the same window, over the rows that pass the JSON endpoint's filters |
| `Screener.RunComplete` | apps/api/main.py:159-171 | when the page does not cut, the result is exactly the multiset of candidates that pass the filters |
| `Screener.Screen` | apps/api/main.py:117-177 | JSON rows: sorted, at most `limit` rows (200 when absent), each passing the filters, with the ROIC filter applied only for `roic_min > 0` |
| `Screener.ScreenComplete` | apps/api/main.py:159-171 | JSON: when the page does not cut, no candidate that passes the filters is missing |
| `Screener.ScreenCsv` | apps/api/main.py:180-240 | CSV rows as written: sorted, at most `limit` rows (1000 when absent), each passing the filters, with the ROIC filter applied whenever `roic_min` is given |
| `Screener.ExplicitListKeepsEveryEntry` | apps/api/main.py:128-146 | explicit list, no filters, page large enough: the result holds each entry's joined row exactly as many times as the entry occurs in the list, duplicates included |
| `Screener.UnknownSymbolScreen` | apps/api/main.py:134-145 | `?symbols=ZZZZ` for an unknown ZZZZ returns exactly one row: symbol and name ZZZZ, every other column NULL |
| `Screener.RoicBoundary` | apps/api/main.py:160-161 | the ROIC bound is inclusive: ROIC 0.55 passes `roic_min=0.55` and fails `roic_min=0.56` |
| `Screener.NullHandling` | apps/api/main.py:160-166 | a NULL sector never fails the sector filter. A NULL ROIC fails an active ROIC filter. A NULL EPS fails the `pe_max` filter |
| `Screener.BlankListYieldsNothing` | apps/api/main.py:130-132 | an explicit list that parses to nothing yields no rows on either endpoint |
| `Screener.CsvMatchesJson` | apps/api/main.py:230-231 | the CSV and JSON endpoints return the same rows when `roic_min` is absent or positive and the query gives `limit` explicitly |
| `Screener.CsvDropsNullRoicRows` | apps/api/main.py:230-231 | with `roic_min <= 0`, a NULL-ROIC row that JSON returns is missing from the CSV export |
| `Screener.CsvZeroRoicExample` | apps/api/main.py:230-231 | one company without a factor snapshot, `roic_min=0`: the JSON endpoint and the corrected export return its row, and the CSV export as written returns no rows |
| `Screener.ScreenCsvAligned` | apps/api/main.py:160-162 | the corrected CSV export: sorted, at most `limit` rows (1000 when absent), each a passing candidate. The ROIC bound is enforced only for a positive `roic_min` |
| `Screener.CsvAlignedKeepsNullRoicRows` | apps/api/main.py:160-162 | with `roic_min <= 0` and a page that does not cut, a NULL-ROIC row passing the other filters is in the corrected export but not in the export as written |
| `Screener.CsvAlignedAgreesWhereCsvIsRight` | apps/api/main.py:230-231 | when `roic_min` is absent or positive, the corrected export returns exactly the rows of the export as written |
| `Quotes.FreshnessBoundary` | apps/api/main.py:266-273 | freshness is strict `now - ts < window` with 60 s and 21600 s windows, and a NULL `ts` counts as 0 |
| `Quotes.ServeFromCache` | apps/api/main.py:263-274 | a symbol is served iff it is requested, has a cache row, and that row is fresh. The served value is the row's value |
| `Quotes.Missing` | apps/api/main.py:277-278 | `need_price`/`need_eps`: holds exactly the requested symbols that were not served |
| `Quotes.ReadYourWrites` | apps/api/main.py:299-321 | after the upserts, a cache read serves exactly the earlier fresh values plus the facts just obtained |
| `Quotes.RowAfterRefresh` | apps/api/main.py:299-321 | a cache row becomes `(value, now)` only for an obtained fact. Otherwise the prior row, or its absence, is unchanged |
| `Quotes.FailureIsolation` | apps/api/main.py:280-325 | what is obtained for a symbol depends only on that symbol's own lookup |
| `Quotes.RaiseSkipsEps` | apps/api/main.py:295-298 | an exception from the history fallback leaves that symbol with neither a new price nor a new EPS |
| `Quotes.LivePe` | apps/api/main.py:330-335 | `pe_live` has key s iff s is requested, has a price and an EPS, and the EPS is not zero. Then its value is `price / eps` |
| `Quotes.QuoteCache.Visit` | apps/api/main.py:281-325 | one loop iteration: the price row and price entry change only for an obtained price. The EPS row and EPS entry change only for an obtained, not-aborted EPS |
| `Quotes.QuoteCache.Refresh` | apps/api/main.py:280-325 | one lookup per distinct stale symbol. Both tables and both response maps gain exactly the obtained facts, stamped with `now` |
| `Quotes.QuoteCache.Price` | apps/api/main.py:256-342 | new tables = old tables plus the stamped facts; lookups = the distinct symbols stale in either cache; `prices`/`trailing_eps` = served plus obtained = a fresh cache read after the request; `pe_live` as in `LivePe`; `asof = now` |

## Findings

| source | as written | input that shows it | evidently intended | confidence | as-written member | corrected member |
|---|---|---|---|---|---|---|
| apps/api/main.py:230 | the CSV export applies `f.roic IS NOT NULL AND f.roic >= ?` whenever `roic_min` is given | `GET /api/screener.csv?roic_min=0` with a symbol that has no `factor_snapshot` row: that symbol's row is missing from the CSV, but `GET /api/screener?roic_min=0` returns it | the CSV export uses the same rows as the JSON endpoint, whose guard at line 160 (and the comment at line 162) skips the ROIC filter for `roic_min` 0 or absent | medium, not executed | `Screener.CsvDropsNullRoicRows` and `Screener.CsvZeroRoicExample` (about `Screener.ScreenCsv`) | `Screener.ScreenCsvAligned`, with `Screener.CsvAlignedKeepsNullRoicRows` |

## Left out

- HTTP routing, CORS, `StreamingResponse`, `csv.writer` output, and the CSV header row are
  I/O formatting. `ScreenCsv` gives the rows the export writes, not the CSV text.
- `db()`: table creation, connections and `commit()`. A failing cache read or `commit()` fails
  the whole request; the model does not include that.
- `Quotes.QuoteCache.Price`: a failing `INSERT OR REPLACE` is not modelled. It sits inside
  the per-symbol `try`, whose `except` swallows it. The symbol's remaining steps are then
  skipped, including its EPS refresh. For a failed price write, the response also reports a
  price that was never stored. In that case `resp.prices == Served(lastPrice, ..)` would not
  hold. The model assumes every cache write succeeds.
- The universe endpoints (`load_universe_symbols`, `list_universes`, `get_universe`) are JSON
  file reading.
- The seed script `apps/api/populate_db.py` only writes fixed rows.
- yfinance is replaced by the `provider` function. Not modelled:
  - an exception raised by `yf.Ticker(s)` itself, which would also abort an EPS-only refresh;
  - Python `or` truthiness that lets a zero `last_price` fall through to `last_close`;
  - non-float numeric types.
  "Obtained price" is an outcome of the provider.
- `Quotes.QuoteCache.Refresh`: the source iterates a Python `set`. The model picks the
  symbols in an arbitrary order. The final state does not depend on that order, and
  `lookups` records the order used.
- A NULL `price`/`eps` column in a cache row is not modelled; `float(None)` would raise. The
  model's rows always hold a value, as every row this code writes does.
- `Symbols.Upper`: only ASCII letters are upper-cased. Python's `str.upper()` also maps
  non-ASCII letters, for example `ß` to `SS`. `Symbols.IsSpace` does follow Python's
  whitespace set.
- `Screener.Passes`: SQLite `LIKE '%x%'` is modelled as plain substring containment. Not
  modelled: ASCII case-insensitivity, and `%`/`_` acting as wildcards inside the user's
  sector text.
- `Screener.SortBySymbol`: SQLite does not fix the order of rows with equal symbols. The model
  uses one order (insertion order). Rows with equal symbols are identical joined rows, so
  `Screener.SortedUnique` shows that the choice does not change any result.
- `Screener.Query`: `limit` and `offset` are natural numbers. A missing `limit` takes the
  endpoint's default (200 for JSON, 1000 for CSV). SQLite's negative `LIMIT` (meaning no
  limit) and a negative `OFFSET` are not modelled.
- `Screener.CsvMatchesJson`: the endpoints agree only when the query gives `limit`. Without it
  the CSV export pages 1000 rows and the JSON endpoint 200, so they differ once more than 200
  rows pass.
- Concurrent requests (last writer wins on cache rows) are not modelled.
- Floating-point rounding of `price / eps` is not modelled; prices and EPS are exact reals.
- The fundamentals COALESCE merge and a fundamentals endpoint are not part of this model.
  They do not appear in `apps/api/main.py`.
