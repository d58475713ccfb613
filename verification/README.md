# Inventory price tracker: a Dafny model of its core

The tracker takes a Steam account's CS2 inventory and fetches a price for
each distinct item from the Skinport catalog. It appends those quotes to a
SQLite price history. It then classifies each current price as High, Low or
Stable against the mean of the last seven days of that history, and falls
back to the mean of the last thirty days when no recent row exists. This
project models that pipeline once the HTTP, SQLite and Flask calls are
removed. It has five parts:

- `database.dfy` (module `Database`): the `price_history` table. It is a
  class `Store` with an append-only `seq<Row>`, a schema set-up
  (`CreateTables`) and the batch write (`SavePrices`). The batch write
  flattens an item -> source -> price dict into rows that share one timestamp.
- `analysis.dfy` (module `Analysis`): the windowed history query, written as a
  filter followed by a stable sort on timestamp. It also holds the trend
  analyser. `AnalyzeItemTrend` builds the seven-day price list in a loop and
  is proved equal to the specification `TrendOf`.
- `price_fetcher.dfy` (module `PriceFetcher`): the catalog lookup table, the
  filter over the requested names, and the merge into
  `{item: {"skinport": p}}`. Both have the source's error outcomes.
- `steam_client.dfy` (module `SteamClient`): the `classid_instanceid` ->
  `market_hash_name` table and the loop over held assets. It also has the
  fixed test-mode inventory.
- `tracker.dfy` (module `Tracker`): `run_tracker`. It fails on an empty
  inventory. Otherwise it runs dedupe-and-sort, fetch, save, then analyse
  every item, and builds the per-item report.

Three support modules sit underneath:

- `dicts.dfy` (`Dicts`) models Python's insertion-ordered `dict`: a sequence
  of entries whose keys are distinct. Assigning to a present key replaces its
  value in place. A comprehension folds these assignments, so the last
  duplicate wins.
- `string_order.dfy` (`StringOrder`) has Python's `str` ordering and
  `sorted(set(xs))`.
- `options.dfy` (`Options`) is `None`/`Some`.

The HTTP gateways are not called. Their decoded responses are parameters
(`InventoryResponse`, `CatalogResponse`), and so is the clock reading `now`.
Timestamps are integer UTC seconds. `timedelta.days` is floor division by
86400, which is what Dafny's `/` does for a positive divisor. Prices are
`real`.

Some facts about the code that the model keeps:

- The inventory gateway has no tradable or item-type filter.
- `run_tracker` takes no currency.
- A failed price fetch is only printed. No warning is attached to the result.
- `run_tracker` returns the 3-tuple `(None, None, None)` when the inventory is
  empty (tracker.py:50), but a 2-tuple on success (tracker.py:89).
  `RunOutcome` keeps these two shapes apart and does not reconcile them. Its
  callers disagree too: app.py:35-40 unpacks three values and passes
  `currency` and `filter_tradable`, which `run_tracker` (tracker.py:21) does
  not accept. The standalone entry point (tracker.py:98) unpacks two values.

## Model

| member | source | states |
|---|---|---|
| `Database.Store.CreateTables` | database.py:22-48 | afterwards the table and its index exist whatever the state before, and no row is touched |
| `Database.CreateTablesIdempotent` | database.py:29-44 | running the schema set-up twice leaves the same state as running it once, with existing rows unchanged |
| `Database.Store.SavePrices` | database.py:51-83 | the table becomes the old rows followed by one row per (item, source) pair of the batch in dict order, all stamped `now`; a batch with no pairs leaves the table as it was |
| `Database.FlattenSize` | database.py:64-67 | the table grows by exactly the sum of the inner dict sizes |
| `Database.EmptyBatchAppendsNothing` | database.py:64-71 | a batch with no items, or whose inner dicts are all empty, appends nothing |
| `Database.FlattenRows` | database.py:62-67 | a row is appended iff it carries the batch's single timestamp and the item, source and price of a pair in the batch |
| `Analysis.HistorySpec` | analysis.py:9-32 | the history query is in ascending timestamp order and holds exactly the (timestamp, price) of the item's rows stamped at or after `now - days`, each such row exactly once (the same multiset as the filtered rows) |
| `Analysis.SortSpec` | analysis.py:24-27 | `ORDER BY timestamp ASC` yields an ascending permutation of the selected rows |
| `Analysis.SavedQuoteInHistory` | analysis.py:23-32 | after a batch write at `now`, every quoted (item, source, price) is in that item's history for any window of zero or more days |
| `Analysis.MatchingFlatten` | analysis.py:24-28 | a batch write adds to an item's history one sample per source of that item's inner dict, stamped with the batch instant, and nothing for items not in the batch |
| `Analysis.AnalyzeItemTrend` | analysis.py:35-92 | the loop's result equals `TrendOf` over the 30-day history; it is InsufficientData iff that history has fewer than two rows |
| `Analysis.TooFewSamples` | analysis.py:48-49 | zero or one sample gives InsufficientData whatever the current price (also what test_app.py:26-27 expects) |
| `Analysis.MeanBounds` | analysis.py:51-52 | the average is an arithmetic mean: it lies between any lower and upper bound of the averaged prices |
| `Analysis.AgeCutoff` | analysis.py:63 | a whole-day age of at most 7 is the same as being strictly less than 8 days old |
| `Analysis.RecentIsYoungerThanEightDays` | analysis.py:55-64 | the seven-day list is exactly the prices, in order, of the samples less than eight full days old |
| `Analysis.NoRecentFallsBack` | analysis.py:66-68 | with no sample in the last seven days the reference average is the 30-day mean |
| `Analysis.AllRecentSameAverage` | analysis.py:55-71 | when every sample is recent the seven-day and 30-day means coincide |
| `Analysis.ReferenceWithinPrices` | analysis.py:51-71 | the reference average, with or without the fallback, lies within the range of the window's prices |
| `Analysis.ClassifyBands` | analysis.py:76-90 | for a non-negative average: High iff price > 1.1·avg, Low iff price < 0.9·avg, Stable iff 0.9·avg ≤ price ≤ 1.1·avg (both boundaries Stable) |
| `Analysis.ClassifyMonotone` | analysis.py:76-85 | raising a High price keeps it High; lowering a Low price keeps it Low |
| `Analysis.WorkedExample` | analysis.py:112-160 | rows 10, 5 and 2 days old at 50, 52.5 and 51 give a reference of 51.75; 45 is Low, 55 and 51.5 are Stable |
| `PriceFetcher.PriceTableLastWins` | price_fetcher.py:37-40 | a name is in the lookup table iff some catalog entry has it, and it maps to the price of the last such entry |
| `PriceFetcher.GetPricesFromSkinport` | price_fetcher.py:10-56 | the filtering loop's result equals the gateway specification and its keys are requested names |
| `PriceFetcher.SkinportPricesSpec` | price_fetcher.py:43-56 | a failed request, an undecodable body or an unconvertible requested price give an empty result; otherwise a name maps to p iff it was requested and the catalog prices it at p |
| `PriceFetcher.FetchAllPrices` | price_fetcher.py:59-82 | the merge loop's result equals the merge specification |
| `PriceFetcher.AllPricesSpec` | price_fetcher.py:70-76 | the result has one entry per distinct requested item in request order; each inner dict is `{"skinport": p}` for a priced item and empty otherwise |
| `SteamClient.GetInventory` | steam_client.py:11-70 | test mode returns the fixed five names; a response without `success == 1` and `descriptions` (or a failed request) gives an empty list; otherwise the asset loop's names |
| `SteamClient.DescriptionTableLastWins` | steam_client.py:44-49 | a `classid_instanceid` key (a missing instance id reads "0", a `null` one "None") is in the table iff some description has it, naming the last such description |
| `SteamClient.MatchedSpec` | steam_client.py:51-54 | at most one name per asset, each the `market_hash_name` of some description; when every asset matches, exactly the matched names in asset order |
| `SteamClient.MatchedOne` | steam_client.py:52-54 | a single asset contributes its table name when its key is present and nothing when it is not |
| `SteamClient.MatchedAppend` | steam_client.py:51-54 | the join of a concatenation is the concatenation of the joins, so the result is one name per matching asset, in asset order, with unmatched assets dropped |
| `StringOrder.SortedUniqueSpec` | tracker.py:52 | `sorted(set(xs))` is strictly ascending (sorted, no duplicates) and has exactly the elements of `xs` |
| `StringOrder.DedupExample` | tracker.py:52 | an inventory `[A, A, B]` becomes `[A, B]` |
| `Tracker.RunTracker` | tracker.py:21-89 | the schema always exists afterwards; an empty inventory gives the failure outcome and no new row; otherwise the rows gain exactly the saved batch of the sorted unique items' prices and the report is built against the store after that save |
| `Tracker.AnalyseItems` | tracker.py:72-86 | the report loop's result equals the report specification over the store's rows |
| `Tracker.CompletedReport` | tracker.py:52-86 | the listed items are sorted, distinct and exactly the inventory's; the report's keys are exactly those items, each with its own entry |
| `Tracker.QuoteOfAllPrices` | tracker.py:74-77 | the price an item is reported and analysed with is the gateway's price for it, if any |
| `Tracker.PricingFailureStillReports` | tracker.py:61-86 | a price fetch that yields nothing (failed request, body not JSON, unconvertible price, or no requested item in the catalog) saves nothing, and every item is still reported with no price and "Price not available." |
| `Tracker.SavedBeforeAnalysed` | tracker.py:69-83 | a priced item's history at analysis time contains the sample just saved for it |
| `Tracker.FirstQuoteIsInsufficient` | tracker.py:69-83 | an item with no earlier rows has exactly the one just-saved sample in its history and is reported InsufficientData |
| `Tracker.TestModeCompletes` | tracker.py:43-52 | in test mode the inventory is non-empty, so the run completes over the five test items |

## Left out

- HTTP requests, `raise_for_status` and JSON decoding (price_fetcher.py:26-34, steam_client.py:37-40): each response is a datatype of decoded outcomes. A transport or status error is `RequestFailed`, a body that is not JSON is `NotJson`, and otherwise the response is the decoded payload. The Steam id and the request URL only shape the request, so they are not modelled.
- Exceptions that the source does not catch are not modelled. These are a `KeyError` for a catalog entry without `market_hash_name`, a description without `classid` or `market_hash_name`, or an asset without `classid` or `instanceid`. Also left out are a `TypeError` from `float()` on a non-string, non-number price, and a JSON body that is not an object. So are a `descriptions` or `assets` field that is JSON `null` (iterating `None` raises a `TypeError` at steam_client.py:48 or :51); the response datatype has no value for these, since an absent field and a `null` one differ there. Each of these propagates out of the gateway and aborts the run.
- `SteamClient.GetInventory`: `success` is an optional integer. A JSON `true` also equals `1` in Python, and is represented as `Some(1)`.
- SQLite itself is left out: connections, commits, the `id` autoincrement column, and the index's effect on lookups (only its existence is kept). SQLite compares stored timestamps as text; here timestamps are integer UTC seconds, which also absorbs the microsecond part and the naive-to-UTC re-tagging (analysis.py:58-61).
- `Analysis.HistorySpec`: `ORDER BY timestamp ASC` leaves the order of equal timestamps unspecified. The model uses a stable sort, but the lemma promises only ascending order and the same multiset of samples as the filtered rows, not the order among equal timestamps.
- Floating-point rounding: prices and averages are exact `real` values.
- `Analysis.AnalyzeItemTrend`: returns the classification only. The message text with the `:.2f` price and average is dropped, and so is all `print` logging.
- The clock: one `now` is used for a whole run. The source reads `datetime.now` once when saving and again in each history query and each analysis.
- app.py (Flask routes and templates), config.py (environment and ini loading; it contains unresolved merge-conflict markers) and the `__main__` demonstration blocks. The analysis demo is used only as the worked example.
