# Kalshi order-book collector and microstructure analyses — a Dafny model

This project models the logic of a Kalshi market-data collector and the three
offline analyses built on what it stores.

- **Order-book state and feed handler** (`OrderBook`, `Feed`). The collector keeps one book per
  market ticker. Each book has a YES and a NO map from integer price in cents to resting size.
  - A delta adds to a level and drops it once the size reaches zero or below.
  - A full snapshot merges into the book.
  - After every delta the collector appends the book as a snapshot row, ascending by price.
  - Around the book sits the websocket message handler. It routes trades, snapshots and deltas.
    It tracks the active and determined market sets. It drops traffic for determined markets and
    asks to unsubscribe from each market as it settles. It closes once none is active.
- **Backward as-of join** (`Temporal`). For a query second this finds the last row stamped at or
  before it. It is given both as a reference function and as a binary search over sorted rows.
- **Slippage and markouts** (`Slippage`). Each snapshot gives best bid and ask, with
  ask = 100 − best NO bid, and so a mid.
  - Each priced trade is joined to the mid in force at its second.
  - From that join come the trade's side, its non-negative slippage and the slippage paid.
  - It is joined again at +1, 10, 30, 60 and 300 seconds for markouts.
  - The markouts are aggregated as plain and count-weighted means, overall and per hour bucket.
    A bucket needs at least five trades.
  - The ticker-pattern rewrites (`*` → `%`, `*` → `_COMBINED`) are included.
- **Top-of-book imbalance** (`Imbalance`). The top level of each side gives a mid and the
  imbalance (b − a)/(b + a). Rows with a duplicate second are collapsed last-wins. The rows are
  forward-filled onto a one-second grid, and forward mid returns are read off that grid by index
  shift.
- **Signed order flow** (`Flow`). This resolves the linked market, the first other ticker sharing
  the event prefix before the last hyphen. Signed volume is +count for a YES taker and −count for
  a NO taker, negated for the linked market. It also covers the time-sorted concatenation of both
  markets and its running sum.

How the program is represented:
- Money is integer cents. Mids and ratios are exact `real`s.
- Timestamps are integer epoch seconds.
- A JSON payload that fails to decode is `Malformed`. Python `None`, a missing key and a pandas
  NaN are all `None`.
- A pandas frame is a sequence of `Stamped` rows, in the order the store's `ORDER BY timestamp`
  returns them.

The wall clock is a `now` parameter. Sending the unsubscribe request and closing the socket are
recorded as fields of the client state. `Feed.Run` keeps handling arrivals after `closed` is set,
which a closed socket would not deliver; the run-level lemmas hold for every arrival sequence, so
they hold in particular for the messages delivered before the close. The database is an in-memory record with two append-only
tables.

Points where the code behaves differently from what a reader might expect, modelled as the code does it:
- A snapshot message is merged into the existing book; nothing is cleared and no size is filtered
  (`kalshi_database.py:87-95`). The row persisted is the message itself, stamped with the wall
  clock (`kalshi_database.py:99-100`), not the merged book.
- A trade with no snapshot at or before its second is not excluded from the slippage analysis.
  Its mid is NaN, so its side is 0, its markouts are 0 and its slippage is undefined
  (`analyze_slippage.py:116-181`). The model keeps such trades with `mid = None`.
- A lifecycle message that does not determine a market (another status, a missing field, or a
  market already determined) leaves the lifecycle block. If it names a determined market it
  returns at the determined-market check (`kalshi_database.py:266-268`) and never reaches the type
  switch; otherwise the type switch, which has no lifecycle case, counts it as "other"
  (`kalshi_database.py:234-323`).
- Python truthiness decides presence: an empty ticker string and a timestamp of 0 count as
  missing (`kalshi_database.py:266, 277`).
- `max(levels, key=price)` keeps the first of equal maxima, so the top-of-book size is that of
  the first level listed at the best price (`imbalance_predictability.py:36, 49`).

## Model

| member | source | states |
|---|---|---|
| OrderBook.ApplyDelta | kalshi_database.py:104-119 | The new size is the old size (0 if absent) plus the delta. The level is present afterwards iff that sum is positive, and then holds it. An unknown ticker starts from empty sides. Other prices, the other side and other tickers are unchanged. If all stored sizes were positive, they still are. |
| OrderBook.CancelAndInsert | kalshi_database.py:112-119 | A delta of minus the resting size removes the level. A positive delta on an absent level inserts it with exactly that size. |
| OrderBook.DeltasKeepLevelsPositive | kalshi_database.py:102-119 | Starting from books whose stored sizes are all positive, any sequence of deltas, interleaved over any tickers and each applied to its own ticker's book, leaves only positive sizes stored. |
| OrderBook.Merge | kalshi_database.py:91-95 | The keys become the old keys plus every listed price. The last listing of a price sets its size. Unlisted prices keep their old size, and nothing is filtered. |
| OrderBook.InitializeFromSnapshot | kalshi_database.py:85-100 | The tickers afterwards are the old ones plus this one, and other tickers' books are unchanged. Each side's prices are its old prices plus the listed ones. Listed levels take their last listed size and unlisted levels keep theirs. Exactly one row is appended: the raw message stamped `now`. Trades are untouched. |
| OrderBook.SortedLevels | kalshi_database.py:134-137 | The persisted side lists every entry of the map once, with its size, and nothing else, strictly ascending by price. |
| OrderBook.SortedLevelsRoundTrip | kalshi_database.py:134-137 | Replaying a persisted post-delta side into an empty map rebuilds the map it was written from. |
| OrderBook.UpdateOrderbookState | kalshi_database.py:102-138 | The books are exactly those after applying the delta. Exactly one snapshot row is appended, for that ticker, stamped with the delta's time (or `now` when it had none). Its two sides are strictly ascending and replay to the post-update book. |
| Feed.NewClient | kalshi_database.py:180-191 | Every subscribed market starts active and none determined. All counters start at 0, no unsubscribe has been sent and the connection is open. |
| Feed.Step | kalshi_database.py:229-323 | Any message naming a determined market changes nothing. A closed/settled lifecycle event for an undetermined market moves it from active to determined, appends one unsubscribe for the three channels, and closes iff no market is left active. A trade is stored iff ticker and ts are present. A snapshot or delta is applied iff a ticker is present, and the database is then exactly what the snapshot merge or the delta update yields. Otherwise the books and snapshot rows are untouched. Each counter rises by one exactly when its action happens. Other lifecycle events and unknown types count as "other". Active never grows and determined never shrinks. |
| Feed.NewClientConsistent | kalshi_database.py:185-191 | A new client over any store, empty or already populated, satisfies the invariant relative to that store. Lifecycle half: active = subscribed − determined, the unsubscribes name exactly the determined markets, one each, and closed iff something was determined and nothing is active. Storage half: the starting rows are kept as a prefix of both tables, and each counter equals the rows appended since. |
| Feed.StepLifecycle | kalshi_database.py:239-260 | Handling any message preserves the lifecycle half of the invariant. |
| Feed.StepCounts | kalshi_database.py:273-323 | Handling any message preserves the storage half: stored rows are never rewritten and the counters follow the appended rows. |
| Feed.StepConsistent | kalshi_database.py:229-323 | Handling any message preserves the whole invariant. |
| Feed.RunConsistent | kalshi_database.py:229-268 | Over any message sequence, from any consistent client, the invariant holds and active and determined stay disjoint. The active set never grows and no market leaves the determined set. |
| Feed.AllDeterminedCloses | kalshi_database.py:255-259 | Whatever the store held at start, once every subscribed market (at least one) is determined, the client has closed the connection. |
| Temporal.AsOf | analyze_slippage.py:116-121 | The join returns a row stamped at or before the query and every later row is stamped after it. It returns none exactly when every row is later, so it never returns a future row. |
| Temporal.AsOfLatest | analyze_slippage.py:113-121 | On time-ordered rows the chosen row has the greatest timestamp not after the query. There is none iff there are no rows or the first is later. |
| Temporal.AsOfMonotone | analyze_slippage.py:151-165 | If the join at t finds a row, the join at any later u finds one at the same or a later position, stamped at most u. On sorted rows its timestamp is at least that of the join at t. |
| Temporal.AsOfAtRow | imbalance_predictability.py:97 | With strictly increasing timestamps the join at a row's own second returns that row. |
| Temporal.AsOfSearch | analyze_slippage.py:116-121 | The binary search over time-ordered rows returns exactly what the reference join returns. |
| Slippage.BestPrices | analyze_slippage.py:46-77 | Prices exist iff the payload decoded. The bid is the highest YES price (0 if none). The ask is 100 minus the highest NO price (100 if none). |
| Slippage.BestPricesExample | analyze_slippage.py:61-85 | YES [[40,5],[45,3]] and NO [[50,2],[58,10]] give bid 45, ask 42 and mid 43.5. |
| Slippage.SnapshotMid | analyze_slippage.py:84-88 | A snapshot has a mid iff it decoded, and the mid is half of bid plus ask. |
| Slippage.TradeDetails | analyze_slippage.py:93-106 | A trade is kept iff it decoded and carries a YES price. Its execution is that price, and its count is the trade's count (0 when missing). |
| Slippage.MidAsOfSnapshots | analyze_slippage.py:84-121 | The joined mid is missing iff every decodable snapshot is later than the trade. Otherwise it is the mid of a decodable snapshot stamped at or before the trade. On sorted snapshots that is the latest such snapshot, so malformed snapshots never take part in a join. |
| Slippage.TradeSide | analyze_slippage.py:129-134 | Side is +1 iff exec > mid, −1 iff exec < mid, and 0 iff they are equal or there is no mid. |
| Slippage.Slippage | analyze_slippage.py:140 | Slippage is defined iff the mid is. It is never negative, it equals the distance from exec to mid for a sided trade, and it is 0 for an unsided one. |
| Slippage.Markout | analyze_slippage.py:173-181 | The markout is future mid − exec for a buy, exec − future mid for a sell, and 0 for side 0. It is undefined exactly when a sided trade has no future mid. |
| Slippage.MarkoutExamples | analyze_slippage.py:173-181 | With exec 50 and future mid 53 the markout is +3 for a buy, −3 for a sell and 0 unsided. |
| Slippage.MarkoutDecomposition | analyze_slippage.py:140-181 | For a sided trade, markout = (future mid − mid) · side − slippage. At a zero horizon the markout is minus the slippage. |
| Slippage.Align | analyze_slippage.py:116-181 | Each output row keeps the trade's second, price and count. Its mid is the as-of mid, and its side and slippage are derived from that mid. Slippage paid = slippage · count, and it is not negative when the count is not. There is one markout per horizon (1, 10, 30, 60, 300 s), each from the as-of mid at trade time + horizon, and every markout is defined. |
| Slippage.ProcessData | analyze_slippage.py:79-181 | There is one aligned row per priced trade, in stored order (see "## Left out" for trades sharing a second), each aligned against the decodable snapshots' mids. Every row has all its markouts. |
| Slippage.CombinedResults | analyze_slippage.py:364-380 | No combined row lacks a markout, and there are at most as many rows as loaded trades. |
| Slippage.CombinedResultsOne | analyze_slippage.py:366-373 | A single ticker contributes nothing when it has no trades or no snapshots, and otherwise exactly its own aligned trades. |
| Slippage.CombinedResultsAppend | analyze_slippage.py:364-380 | The frame of two ticker lists is the concatenation of their frames, in ticker order. With the one-ticker lemma this fixes the frame of every list. |
| Slippage.MeanOf | analyze_slippage.py:205-210 | The mean is undefined exactly for an empty column. |
| Slippage.WeightedMean | analyze_slippage.py:224-232 | When the counts sum to a positive number, mean · Σcount = Σ(markout · count). Otherwise the result is 0. |
| Slippage.WeightedMeanWithin | analyze_slippage.py:228-231 | With non-negative counts of positive total, the weighted mean lies between the smallest and largest markout bounds. |
| Slippage.UnitWeightsGiveMean | analyze_slippage.py:205-231 | On a non-empty column the plain mean equals the weighted mean with every count 1. |
| Slippage.HourBucketCharacterised | analyze_slippage.py:246-249 | A trade's bucket is the unique multiple of 3600 whose hour contains its second. |
| Slippage.InHour | analyze_slippage.py:249-261 | A row belongs to the hour group iff it is one of the rows and its bucket is that hour. Each such row appears as many times as in the input, so equal trades are all counted towards the five-trade minimum. |
| Slippage.InHourAppend | analyze_slippage.py:249-261 | Grouping the concatenation of two row runs gives the concatenation of their groups. |
| Slippage.HourlyMeanMarkout | analyze_slippage.py:255-272 | An hour is reported iff it holds at least five trades, and its value is the mean markout over that hour's trades. |
| Slippage.HourlyWeightedMarkout | analyze_slippage.py:288-301 | The same hours are reported, each with the count-weighted markout over that hour's trades. |
| Slippage.HourlySlippagePaid | analyze_slippage.py:320 | An hour without trades sums to 0, as the hourly resample reports for an empty hour. |
| Slippage.SlippagePaidAppend | analyze_slippage.py:320 | The slippage-paid total over two row runs is the sum of their totals. |
| Slippage.HourlySlippageAppend | analyze_slippage.py:320 | An hour's total over two row runs is the sum of that hour's totals over each. |
| Slippage.HourlySlippageOneRow | analyze_slippage.py:320 | A single trade adds its slippage paid (NaN counting as 0) to its own hour and nothing to any other. With the append rule this fixes every hour's total. |
| Slippage.HourlySlippageNonNegative | analyze_slippage.py:140-143 | When no trade has a negative count, the slippage paid in every hour is not negative. |
| Slippage.ReplaceChar | analyze_slippage.py:16 | A string without the character is unchanged. If the replacement lacks the character, the result lacks it too, and the result has no character from outside the input and the replacement. |
| Slippage.ReplaceCharLength | analyze_slippage.py:385 | Each occurrence grows the length by the replacement's length minus one. |
| Slippage.SqlPattern | analyze_slippage.py:16 | Position by position, every `*` becomes `%` and every other character stays. |
| Slippage.SqlPatternIsReplacement | analyze_slippage.py:16 | The position-wise rewrite is the `str.replace('*', '%')` of the pattern. |
| Slippage.SqlPatternRoundTrip | analyze_slippage.py:16 | For a pattern without `%`, replacing `%` back by `*` recovers it. |
| Slippage.OutputName | analyze_slippage.py:384-387 | The output name never contains `*`, and a pattern without `*` is used unchanged. |
| Slippage.OutputNameIsReplacement | analyze_slippage.py:384-387 | The name is the `str.replace('*', '_COMBINED')` of the pattern, 8 characters longer per `*`. |
| Imbalance.ParseSnapshot | imbalance_predictability.py:19-61 | A side's level exists iff the payload decoded and that side is non-empty. The bid is the first YES level with the highest price. The ask has price 100 minus the highest NO price and that NO level's size. A parse failure leaves both undefined. |
| Imbalance.TopAgreesWithBestPrices | imbalance_predictability.py:33-54 | On two-sided books the top-of-book prices are the bid and ask of the slippage analysis. |
| Imbalance.ImbalanceRatio | imbalance_predictability.py:80 | The ratio is undefined iff bid size + ask size = 0. Otherwise ratio · (b + a) = b − a. |
| Imbalance.ImbalanceBounded | imbalance_predictability.py:76-80 | For non-negative sizes with a positive total the ratio lies in [−1, 1]. It is 1 iff the ask is empty and −1 iff the bid is empty, and its sign is the sign of b − a. |
| Imbalance.SnapshotMetric | imbalance_predictability.py:67-80 | A row has metrics iff it decoded with both sides non-empty. Its mid is half of bid plus ask, and its imbalance comes from the top sizes. |
| Imbalance.CalculateMetrics | imbalance_predictability.py:63-82 | A snapshot yields a metric row iff it is decodable and two-sided. Rows keep their order, and each keeps its source's second and carries its mid and imbalance. Time order is preserved. |
| Imbalance.DedupLast | imbalance_predictability.py:92 | The result is never longer than the input and keeps the last row. On sorted input its timestamps are strictly increasing and it starts at the same second. |
| Imbalance.DedupPreservesAsOf | imbalance_predictability.py:91-97 | For every second (the rows need not be sorted) the deduplicated rows give the same as-of row as the original rows. |
| Imbalance.Grid | imbalance_predictability.py:97 | The grid has one point for every integer second from the first to the last timestamp. Each point carries the value of the last row stamped at or before it, never a later one. |
| Imbalance.GridKeepsRows | imbalance_predictability.py:97 | With distinct seconds, every row appears on the grid at its own second. |
| Imbalance.Resample | imbalance_predictability.py:97 | The single forward-filling pass over the rows produces exactly the grid. |
| Imbalance.ForwardReturn | imbalance_predictability.py:105 | The return at i over h exists iff i + h is on the grid, and then mid[i] + return = mid[i + h]. |
| Imbalance.ReturnsAt | imbalance_predictability.py:99-105 | There is one return per horizon (1, 5, 30, 60, 120, 300 s). Each is defined iff its horizon stays on the grid, and then it is the mid move. A defined return implies every shorter horizon's return is defined. |
| Imbalance.ReturnsCompose | imbalance_predictability.py:103-105 | Where the return over h1 + h2 exists, it is the return over h1 plus the return over h2 from i + h1. |
| Imbalance.GridReturnIsAsOfMove | imbalance_predictability.py:97-105 | A grid return compares the mids of the as-of rows at t and t + h, and neither row is stamped after its query second. |
| Flow.LastHyphen | analyze_imbalance.py:24 | There is none iff the string has no hyphen. Otherwise it is the position of a hyphen with none after it. |
| Flow.EventPrefix | analyze_imbalance.py:20-25 | The prefix is missing iff the ticker has no hyphen, and it is shorter than the ticker. |
| Flow.EventPrefixSplits | analyze_imbalance.py:24-25 | The ticker is prefix + "-" + suffix, and the suffix holds no hyphen. |
| Flow.EventPrefixExample | analyze_imbalance.py:13-25 | "EV-MKT-A" has prefix "EV-MKT" and "EVMKT" has none. |
| Flow.FirstCandidate | analyze_imbalance.py:35-45 | The result is the position of a ticker that starts with the prefix and is not the base, and no earlier ticker is one. It is missing iff no ticker is one. |
| Flow.FindLinkedTicker | analyze_imbalance.py:10-45 | A ticker without a hyphen has no linked market. A found linked ticker is one of the listed tickers, differs from the base and starts with the prefix. None is found only when no listed ticker qualifies. |
| Flow.FindLinkedIsFirst | analyze_imbalance.py:36-45 | When several qualify, the first in list order is returned. |
| Flow.LinkedInUse | analyze_imbalance.py:152-167 | The linked market is used iff one was found and it is neither empty nor the sentinel "NONE". |
| Flow.Lower | analyze_imbalance.py:73 | Lowercasing maps A–Z to a–z position by position and leaves every other character alone. |
| Flow.LowerIdempotent | analyze_imbalance.py:73 | Lowercasing twice equals lowercasing once, and the result holds no upper-case ASCII letter. |
| Flow.LowerIsYes | analyze_imbalance.py:73-87 | A side lowercases to "yes" iff it is y/Y, e/E, s/S. |
| Flow.SignedVolume | analyze_imbalance.py:69-94 | Signed volume is +count when the lowercased taker side is "yes" and −count when it is "no". It is 0 for any other side and for an undecodable payload. |
| Flow.ProcessTrades | analyze_imbalance.py:61-100 | There is one row per trade, with the same second, carrying the signed volume, negated when inverted. An empty input gives an empty result. |
| Flow.InverseNegates | analyze_imbalance.py:97-98 | Inversion negates every row and the total. An inverted NO-taker trade of count 7 gives +7. |
| Flow.Combined | analyze_imbalance.py:160-173 | The combined rows number the base trades plus, when a linked market is in use, its trades. |
| Flow.SortByTs | analyze_imbalance.py:180 | The sorted rows are time-ordered and a permutation of the input. |
| Flow.CumSum | analyze_imbalance.py:181 | Position k of the running sum holds the sum of the first k + 1 values. |
| Flow.FinalNet | analyze_imbalance.py:165-181 | Under any reordering of the combined rows, the total is the base's signed volume minus the linked market's raw signed volume. |
| Flow.NetFlow | analyze_imbalance.py:160-184 | The rows are time-ordered and a permutation of the combined rows, with one running-sum entry per row. The last entry is the base net minus the linked raw net, or the base net alone when no linked market is used. |

## Left out

- Websocket connection, subscription messages, `on_open`/`on_close`, message-id bookkeeping and
  the `debug` printing: network and console I/O. Sending an unsubscribe and closing the socket are
  recorded effects, and a failed unsubscribe (caught by the handler) is not distinguished.
- REST market discovery, pagination and credential loading: network and environment I/O.
- SQLite schema, inserts and queries: replaced by an in-memory record with two append-only
  sequences and by rows passed in already in `ORDER BY timestamp` order.
- ISO-8601 parsing of a delta's `ts` and every `datetime.now()` fallback: timestamps arrive as
  integers, a delta's parsed time is an `Option`, and the wall clock is the `now` parameter.
- Pearson correlation and `np.polyfit` (imbalance_predictability.py:108-127): floating-point
  statistics outside the modelled logic.
- All plotting, the 5-minute flow resample used only for a chart, and the division by 100 for
  dollar display.
- `web_server.py`, `verify_database.py`, `verify_queries.py`, `recent_markets.py`: request routing,
  reporting and printing with no logic of their own.
- OrderBook.InitializeFromSnapshot: a snapshot whose `yes` or `no` is JSON `null`, or that lists
  a level which is not a `[price, size]` pair, raises inside the merge loop in the source, possibly
  after part of the YES side was merged; no row is stored, the snapshot counter is not raised and
  the exception leaves the handler. The `Snapshot` type (two sequences of price levels) rules this
  out.
- OrderBook.UpdateOrderbookState: a delta whose side is neither "yes" nor "no", or that lacks
  `price`/`delta`/`side`, raises `KeyError` in the source; the `Delta` type rules these out.
- Slippage.TradeDetails: the `yes_price_dollars` fallback is left out (it is in dollars, not
  cents), and a JSON `null` count is read as 0.
- Flow.SignedVolume: a JSON `null` count is read as 0, and lowercasing is ASCII-only where Python
  also folds other letters.
- Flow.FindLinkedTicker: SQL `LIKE prefix%` is modelled as a case-sensitive prefix test; `LIKE`
  also matches case-insensitively and treats `_` in the prefix as a one-character wildcard.
- Slippage.SqlPattern: only the `*` → `%` rewrite is modelled, not how SQLite's `LIKE` then
  matches the pattern (case-insensitive, `_` wildcard).
- Imbalance.ImbalanceRatio: a zero size total is `None`; pandas gives NaN for 0/0 and ±inf
  for a non-zero difference over a zero total.
- Imbalance.DedupLast: keeps the last of each run of equal adjacent timestamps, which matches
  `index.duplicated(keep='last')` on the time-sorted rows the analysis uses; on unsorted rows
  non-adjacent duplicates are not merged.
- Flow.NetFlow: `sort_values` is not stable, so rows sharing a second may come out in any order;
  the model sorts stably, and Flow.FinalNet states the final total for every order.
- Slippage.ProcessData: `sort_values('timestamp')` is not stable (analyze_slippage.py:113-114).
  Among snapshots sharing a second, the one `merge_asof` takes as last need not be the last stored;
  the model always reads the last stored one. Trades sharing a second may also come out in any
  order among themselves; the model keeps them in stored order. Each output row depends only on
  its own trade and the mid series, so such a reordering only permutes rows of the same second.
- Slippage.MidAsOfSnapshots: for the same reason, its "latest decodable snapshot" is the last stored among
  equal seconds, where the source may pick another snapshot of that second.
- Slippage.MeanOf: pandas skips NaN cells; every markout in the model is defined
  (Slippage.Align), so no skipping arises.
- Slippage.HourlySlippagePaid: the resample lists every hour between the first and last trade;
  the model answers for any hour, giving 0 where the resample would list an empty hour.
