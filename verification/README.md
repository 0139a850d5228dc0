# Verified model of the market terminal's core logic

The repository is a stock-market terminal: a sync service keeps price history and technical
indicators in DuckDB tables, a rule language screens tickers and drives a backtest over that history,
and a few pieces of bounded in-process state (response cache, rate limiter, body limit, workspace
store) serve the user interface. This project models that logic in Dafny and proves what it keeps and
what it computes. Floats are modelled as `real`, dates as day numbers, NaN and NULL as `Missing`.

| Modules | What they model |
|---|---|
| `Values`, `Frames`, `Lists`, `OrderedDicts`, `Tables` | options, nullable columns, deduplication, insertion-ordered dictionaries, keyed rows |
| `Strategy`, `StrategyLaws` | legs, rule stacks and the screener, and what they mean on the cells of a frame |
| `Backtest`, `BacktestLedger`, `TradeSchedule`, `BacktestReport`, `BacktestComparisons`, `Drawdown` | the bar loop with its two ledgers, and what it computes and reports |
| `Indicators`, `IndicatorMeaning`, `TrendMeaning`, `IndicatorLaws`, `EmaDrift`, `IndicatorRanges` | the indicator columns, what each says about the bars, and what it depends on |
| `LatestCache`, `MarketSync`, `MarketSafety`, `MarketRuns`, `SyncProgress` | the tables, the sync, the rebuild and every interleaved run of them |
| `SpliceEquivalence`, `SpliceDrift`, `SpliceWitness` | what a spliced sync writes against what a rebuild computes |
| `EndToEnd` | bars to indicators to signals to ledger |
| `ResponseCache`, `RateLimiter`, `BodyLimit` | in-process service state |
| `Workspace`, `WorkspaceMeaning`, `WorkspaceLaws`, `WorkspaceActions` | the persisted front-end store |

Loops and state changes are methods and classes proved equal to a specification function; the lemmas
then say what that function means: the laws on meaning write out prices, comparisons,
day counts and column names instead of naming the definitions they are about. For each state machine
there is a function that gives the state after any run.

## Where the code differs from what it says or suggests

- `backend/services/data_sync_service.py:570-573` calls 350 calendar days "comfortably above" 252 trading days.
  350 days are 50 weeks, so at most 250 weekdays: on weekday data every spliced sync blanks the one-year return of the
  first rows it writes (`SpliceEquivalence.SpliceBlanksTheYearReturn`), also where a rebuild has one
  (`SpliceWitness.SpliceLosesAKnownReturn`). The 52-week columns look back 251 rows and SMA_250 looks back 249, so two
  holidays in those weeks blank SMA_250 too (`SpliceEquivalence.WrittenColumnIsRightExactlyWhen`,
  `SpliceEquivalence.ShortSpliceBlanks`).
- Fees and slippage may add up to a cost rate of 2 (`backend/models.py:104-105`). From 1 on an exit can leave no capital
  or a debt; the run then stops following its schedule (`TradeSchedule.RunFollowsTheScheduleExactlyWhen`,
  `TradeSchedule.FullCostStopsTheSchedule`), and above 1 the next entry buys a negative position that the final
  liquidation skips (`BacktestLedger.SettledExactlyUpToFullCost`).
- A position size from 0.01 percent on is accepted (`backend/models.py:102`), but below 1 percent the backtest stakes 1
  percent (`BacktestReport.SettingsMean`).
- Waiting exactly `retry_after` can be denied again, when the time left has a fraction strictly between 0 and a
  millisecond (`RateLimiter.ComingBackAfterRetryAfter`, `RateLimiter.DeniedTwice`), and one caller more than the table
  has room for defeats the limit (`RateLimiter.TurnsDefeatTheLimit`).
- A provider that returns rows on both sides of the requested start leaves rows in `ohlcv_daily` that never reach
  `ticker_data` (`MarketSafety.SyncAlignsExactlyWhen`, `SpliceWitness.OneEarlyDayMisaligns`).
- A rebuild reads and swaps in two critical sections and does not hold the sync lock. The swap keeps the tables aligned
  exactly when the keys it read are still the stored ones (`MarketRuns.SwapAlignsExactlyWhenLegal`); a sync in between
  breaks that (`SpliceWitness.LateSwapMisaligns`).
- A sync that fails between its writes and its cache refresh leaves fresh targets with stale cache rows, and the next
  run does not select them (`SyncProgress.FailureAfterWritesIsNotMadeUpFor`).
- Annotations persisted as an array are kept as one, and the next annotation turns them into an object keyed by position
  (`WorkspaceMeaning.ArrayBecomesObject`).
- A watchlist that was created but never filled is dropped on reload (`WorkspaceLaws.EmptyWatchlistIsLost`), and while
  the active id is unknown the first list is shown but a toggle without a target changes no list
  (`WorkspaceActions.ToggleReachesTheShownListExactlyWhen`).

## Model

| member | source | states |
|---|---|---|
| Strategy.CombineRuleStack | backend/queries/strategy.py:62-77 | the fold over the signals is the meaning of the stack: "and" holds on a row when every rule fires there, "or" when any does; otherwise the operator error, or that of the first rule that cannot be evaluated |
| Strategy.StackOnWindow | backend/queries/strategy.py:62-77 | the same for whole stacks, so a stack looks back one row and never ahead |
| Strategy.EvaluateStrategyMatches | backend/queries/strategy.py:86-152 | the loop returns the ranking of all candidates, with name, sector and signal state, or the first error in ticker order |
| Strategy.RankingSorts | backend/queries/strategy.py:136-140 | the ranking is a stable sort: same matches, none outranked by a later one, ties in the order found |
| StrategyLaws.ConditionMeans | backend/queries/strategy.py:26-45 | each condition on the cells: above is >, below is <, a crossing also needs the previous row known and level or on the other side; the right side is the named column or the constant; a missing cell never fires |
| StrategyLaws.RuleFailsExactlyWhen | backend/queries/strategy.py:14-32 | a rule can be evaluated if and only if it compares with something, on a known metric, by a known condition; otherwise the first of these faults is reported |
| StrategyLaws.CrossingIsNoticed | backend/queries/strategy.py:43-45 | no change of side goes unnoticed: between a row where the metric is at most level and a later one where it is above, some row fires the crossing, and likewise downwards |
| StrategyLaws.StackMeans | backend/queries/strategy.py:62-77 | an "and" stack fires on a row when every rule does, an "or" stack when one does, in any case of letters; otherwise the operator error or that of the first failing rule |
| StrategyLaws.MatchesMean | backend/queries/strategy.py:95-152 | the list holds exactly the matches of the tickers whose entry rules hold on their newest row, each with that row's values, name, sector, and the overlap state if and only if its exit rules hold there too |
| StrategyLaws.NoTickerTwice | backend/queries/strategy.py:95-131 | each ticker is listed at most once |
| StrategyLaws.ScreenFailsExactlyWhen | backend/queries/strategy.py:98-115 | the screener fails if and only if a ticker's entry stack fails, or its entry rules hold and its exit stack fails, with the first such ticker's error |
| StrategyLaws.RankingDescends | backend/queries/strategy.py:136-140 | the list descends by 20-day return, then tech score, then volume, missing values last |
| Strategy.LastTwoSuffice | backend/queries/strategy.py:95-131 | a ticker contributes from its two newest rows exactly what it contributes from its whole history, errors included |
| Strategy.ScreenerAgreesWithHistory | backend/queries/strategy.py:155-156 | the screener over two rows per ticker answers what it would over whole histories, for every definition |
| LatestCache.ScreenFrameIsEnough | backend/queries/common.py:82-116 | the ROW_NUMBER query, joined with the company table, returns exactly the two newest rows of each listed ticker in date order, and the screener's answer from them is that from the full table |
| Backtest.RunLoop | backend/queries/backtest.py:41-135 | the loop over eight variables computes the run defined bar by bar, its equity curve and its liquidation |
| Backtest.BuildSummary | backend/queries/backtest.py:161-229 | the summary loops compute the count, win rate, mean, returns, cost drag and running-peak drawdown of any curve and trade list |
| Backtest.RunStrategyBacktest | backend/queries/backtest.py:18-158 | the route composes signals, loop, summary and the first 25 screen matches, with the errors for no data, bad rules and a zero first close |
| BacktestReport.SettingsMean | backend/queries/backtest.py:41-53 | cost is the two basis-point rates, negative ones as 0; capital and size are held inside [1, ..) and [1, 100] percent, so the size is the requested one if and only if that lies there |
| BacktestReport.SignalDaysMean | backend/queries/backtest.py:27-39 | bar i has the stored date and close, enters where the entry stack holds and leaves where the exit stack does |
| BacktestReport.RouteFailsExactlyWhen | backend/queries/backtest.py:18-158 | which fault each request is answered with, in the order they are noticed, and that a good one reports the first 25 matches |
| BacktestReport.TradesFollowTheRules | backend/queries/backtest.py:57-135 | for all closes and settings: every reported trade was entered on an entry signal after the previous exit, met no exit signal and no close at or below entry * (1 - stop/100) in between, and left on the first bar with one or on the last; its return leads from entry to exit price |
| BacktestReport.PointMeans | backend/queries/backtest.py:101-113 | a curve point is cash plus the position at the close, beside the capital moved with the price since the first close |
| BacktestReport.SummaryMeans | backend/queries/backtest.py:161-177 | the returns lead from capital to final ledgers and from first to last close, the drag is their distance, the win rate counts the trades that gained and the average is that of their returns |
| BacktestLedger.AccountingIdentity | backend/queries/backtest.py:65-99 | after every bar, for every cost rate and all closes, cash plus the position at entry price is capital plus closed pnl minus fees |
| BacktestLedger.SettledUnlessShort | backend/queries/backtest.py:115-135 | after liquidation, cash is capital plus pnl minus fees if and only if the last bar did not leave a negative position |
| BacktestLedger.SettledExactlyUpToFullCost | backend/models.py:104-105 | that identity holds for all runs on nonnegative closes if and only if the total cost rate is at most 1 |
| BacktestLedger.RuinousRun | backend/queries/backtest.py:65-82 | for every cost rate above 1, a concrete run whose report does not balance |
| BacktestLedger.NeverShort | backend/queries/backtest.py:65-99 | up to cost rate 1 neither cash nor position ever turns negative |
| BacktestLedger.RunInClosedForm | backend/queries/backtest.py:57-99 | at every bar of a funded run both ledgers are the capital times one factor per closed round trip, minus the stake of the open one |
| BacktestLedger.FinalClosedForm | backend/queries/backtest.py:115-135 | the final net and gross cash are the capital times the product of 1 - f + f * (exit/entry) * (1-c)/(1+c) over the reported trades, with c and with 0, at any cost rate that funds the schedule |
| BacktestLedger.BelowFullCostFunds | backend/queries/backtest.py:65-99 | every cost rate below 1 funds every schedule |
| BacktestLedger.ReportsAllExactlyWhenFunded | backend/queries/backtest.py:65-135 | at any cost rate the report lists exactly the round trips if and only if every round trip before an entry left some capital |
| BacktestLedger.UnfundedRunStops | backend/queries/backtest.py:65-70 | otherwise the run stops trading for good: it is flat without capital or short, and reports fewer trades than were begun |
| TradeSchedule.ScheduleIsUnique | backend/queries/backtest.py:57-113 | the declarative trade schedule (first entry signal after the last exit, first exit signal or close at or below entry * (1 - stop/100), else the last bar) has at most one solution |
| TradeSchedule.RoundTripsFormASchedule | backend/queries/backtest.py:57-135 | it always has one |
| TradeSchedule.RunFollowsTheScheduleExactlyWhen | backend/queries/backtest.py:57-135 | at any cost rate the loop reports exactly the trades of that schedule, with their dates, prices, returns and pnl, if and only if every trade but the last has a positive factor, that is f * (exit/entry) * (c-1)/(c+1) < 1 - f |
| TradeSchedule.FullCostStopsTheSchedule | backend/queries/backtest.py:65-99 | at cost rate 1 with everything staked, three bars at one price already schedule two trades of which the run reports one |
| TradeSchedule.ExposureFollowsTheSchedule | backend/queries/backtest.py:106-113 | on a funded schedule exposure is 1 exactly on the bars from an entry up to but excluding the loop exit |
| BacktestComparisons.SettingsDoNotMoveTrades | backend/queries/backtest.py:57-135 | funded runs that differ in cost, size or capital trade on the same bars at the same prices |
| BacktestComparisons.CostNeverHelps | backend/queries/strategy.py:80-83 | while the dearer of two runs still has capital, a higher cost rate never gives more cash, shares or equity at any bar |
| BacktestComparisons.FinalCostNeverHelps | backend/queries/backtest.py:115-135 | nor more final cash, while the gross result does not move |
| BacktestComparisons.GrossIsTheFreeRun | backend/queries/backtest.py:65-82 | the gross ledger is the net ledger of the same run at cost 0, bar by bar and at the end |
| BacktestComparisons.NetNeverExceedsGross | backend/queries/backtest.py:65-82 | 0 <= cash <= gross cash at every bar of a run that still has capital |
| BacktestComparisons.CostDragIsNeverNegative | backend/queries/backtest.py:170-172 | when every round trip leaves some capital, 0 < net <= gross in the report and the cost drag is never negative |
| BacktestComparisons.BelowFullCostThrives | backend/queries/backtest.py:65-99 | which is always so below cost rate 1 |
| BacktestComparisons.CapitalScales | backend/queries/backtest.py:41-54 | multiplying the capital by k multiplies both ledgers by k at every bar and at the end |
| Drawdown.DrawdownIsTheWorstFall | backend/queries/backtest.py:207-213 | the one-pass running-peak figure is the least move over all pairs i <= j, attained by a pair, in (-100, 0] |
| Drawdown.ReportedDrawdown | backend/queries/backtest.py:101-104 | while the run has capital its equity stays positive, so the reported drawdown is the worst fall of its curve and lies in [0, 100) |
| Drawdown.NoLookAhead | backend/queries/backtest.py:57-113 | a run on the first k bars gives the first k equity points and the same trades, plus at most its own liquidation, exactly when shares are held at k |
| EndToEnd.DaysOfFront | backend/queries/backtest.py:27-39 | the signals of a shorter history are a prefix of the longer one's, errors included |
| EndToEnd.NothingLooksAhead | backend/services/data_sync_service.py:295-401 | through indicators, rules and ledger: histories that agree on their first k bars give the same curve and trades up to bar k, when the rows read have a close |
| IndicatorLaws.CutHistoryAgrees | backend/services/data_sync_service.py:306-358 | cutting rows off the front changes no windowed column from its own look-back on |
| IndicatorLaws.LaterBarsDoNotMatter | backend/services/data_sync_service.py:295-401 | later bars change no column at earlier rows, the recursive means and the score included |
| IndicatorMeaning.PricesMean | backend/services/data_sync_service.py:298-304 | the price columns show the bars' own prices and volumes |
| IndicatorMeaning.AveragesMean | backend/services/data_sync_service.py:325-330 | each SMA column exists if and only if its 10, 30, 50, 100, 200 or 250 closes do, and times that number is their sum |
| IndicatorMeaning.ReturnsMean | backend/services/data_sync_service.py:352-355 | each return column exists if and only if both closes do and the earlier one is not 0, and leads from the earlier to the later |
| IndicatorMeaning.AverageVolumeMeans | backend/services/data_sync_service.py:351-351 | 20 times the average is the volume of the last 20 rows, missing volumes as 0 |
| IndicatorMeaning.RsiMeans | backend/services/data_sync_service.py:306-312 | RSI exists if and only if 15 closes do and one of them fell; it is 100 times the rises over rises plus falls, and above 50 if and only if the close is above the one 14 rows earlier |
| IndicatorMeaning.MfiMeans | backend/services/data_sync_service.py:337-344 | MFI is 100 times the money of the rows whose typical price did not fall over that of those and the falling ones, and missing if and only if the latter is 0, their sum is, or fewer than 14 rows exist |
| IndicatorMeaning.VwapMeans | backend/services/data_sync_service.py:346-349 | VWAP times the volume of the last 14 rows is the money of those that have a price |
| IndicatorMeaning.ExtremesMean | backend/services/data_sync_service.py:356-357 | the 52-week columns are the greatest high and the least low of the last 252 rows, from 20 values on |
| IndicatorMeaning.PositionMeans | backend/services/data_sync_service.py:358-358 | the close is the low plus that percentage of the way to the high |
| IndicatorMeaning.BandMeans | backend/services/data_sync_service.py:331-335 | the close is the 20-day mean plus (band - 1/2) times four deviations |
| TrendMeaning.EmaMeans | backend/services/data_sync_service.py:314-318 | each EMA column starts with the first close, stays over gaps, and moves to a close n rows after the last one with weights (1 - a)^n and a, where a = 2 / (span + 1) |
| TrendMeaning.OnlyOneFollows | backend/services/data_sync_service.py:314-318 | these rules determine the column |
| TrendMeaning.MacdMeans | backend/services/data_sync_service.py:319-323 | MACD is the 12-day mean less the 26-day one, its signal the 9-day mean of it, the third column their difference |
| TrendMeaning.MacdOfARisingMarket | backend/services/data_sync_service.py:319-321 | while the close has never fallen MACD is not negative |
| TrendMeaning.ScoreMeans | backend/services/data_sync_service.py:360-369 | the composite score in terms of the ticker's other columns, each with its weight, clip and default |
| TrendMeaning.ScoreIsMonotone | backend/services/data_sync_service.py:360-369 | the score is never lower on a row where no column of it is lower, and gains 0.3 per point of RSI |
| EmaDrift.DriftIsRetained | backend/services/data_sync_service.py:314-323 | an EMA restarted at row m differs from the full-history EMA by exactly the retained part of the seed difference, gaps included |
| EmaDrift.RetainedWithoutGaps | backend/services/data_sync_service.py:314-323 | without gaps that part is (1 - alpha) to the number of rows since |
| EmaDrift.RetainedFades | backend/services/data_sync_service.py:314-323 | with gaps it is at most (1 - alpha) to the number of values since |
| EmaDrift.MeanStaysInside | backend/services/data_sync_service.py:314-323 | an EMA never leaves the range of the values it has seen |
| EmaDrift.SplicedEmaDrift | backend/services/data_sync_service.py:314-318 | the EMA columns of a cut history drift by exactly that part, hence by at most that part of the price range |
| EmaDrift.SplicedMacdDrift | backend/services/data_sync_service.py:319-321 | MACD drifts by at most the sum of its two EMAs' bounds |
| EmaDrift.SplicedSignalDrift | backend/services/data_sync_service.py:321-323 | the signal line and the histogram of a cut history drift by at most 3 and 5 times (25/27) to the v of the price range, v being the values since the cut |
| SpliceDrift.WrittenEmaDrift | backend/services/data_sync_service.py:686-707 | the EMA a spliced sync writes differs from the one a rebuild computes for that date by exactly the retained part of the seed difference at the first close of the splice, hence by at most that part of the price range |
| SpliceDrift.WrittenMacdDrift | backend/services/data_sync_service.py:686-707 | likewise for the MACD columns, by at most 2, 3 and 5 times the faded price range |
| SpliceDrift.NoMeanWithoutAClose | backend/services/data_sync_service.py:314-323 | before that first close the recursive columns it writes are missing |
| IndicatorRanges.RsiInRange | backend/services/data_sync_service.py:306-312 | RSI is missing or in [0, 100) for all closes; 100 is never reached, because without losses it is missing |
| IndicatorRanges.MfiInRange | backend/services/data_sync_service.py:337-344 | MFI is missing or in [0, 100) when no price or volume that is present is negative |
| IndicatorRanges.Range52InRange | backend/services/data_sync_service.py:356-358 | the 52-week position is missing or in [0, 100] when prices are present and 0 < low <= close <= high |
| IndicatorRanges.TechScoreInRange | backend/services/data_sync_service.py:360-369 | the composite score is never missing and lies in [0, 200), whatever the bars hold |
| LatestCache.RankedRows | backend/queries/common.py:98-111 | ROW_NUMBER() <= n over Date DESC selects the last n rows of each ticker's history |
| LatestCache.LatestRowsAreNewest | backend/core/duckdb.py:132-179 | the window query yields, for every ticker, its newest row with the close of the row before it |
| LatestCache.RefreshOf | backend/core/duckdb.py:113-184 | a refresh corrects the tickers it lists and leaves the others as they were |
| LatestCache.RefreshMeans | backend/core/duckdb.py:132-179 | the one row a refresh leaves for a listed ticker: the newest date and columns, the close before, the change that leads from that close to the newest, present if and only if both are and the earlier is not 0, and volume over average, present if and only if the average is positive |
| LatestCache.PartialRefreshIsFull | backend/core/duckdb.py:113-184 | a partial refresh of a cache that is right elsewhere gives the same table as a full refresh |
| MarketSync.MarketStore.WriteTickerSlice | backend/services/data_sync_service.py:408-445 | replaces one ticker's range in both tables, or, if any of the five statements raises, leaves both as they were |
| MarketSync.MarketStore.RefreshLatestTickerCache | backend/core/duckdb.py:113-184 | deletes and reinserts the listed tickers' latest rows and returns the table's size; interrupted in between, the delete stays |
| MarketSync.MarketStore.SyncMarketData | backend/services/data_sync_service.py:610-827 | stale selection, start date, splice, per-ticker writes and cache refresh, cut short by the download, the computation, any statement of any slice, anything after the writes, or between the two statements of the refresh |
| MarketSync.MarketStore.RebuildIndicatorCache | backend/services/data_sync_service.py:448-514 | undisturbed, the listed tickers' rows are recomputed from all stored bars and the others kept |
| MarketSafety.OfComputeFrame | backend/services/data_sync_service.py:400-401 | each ticker's part of a computed frame depends on that ticker's rows alone |
| MarketSafety.SlicedOf | backend/services/data_sync_service.py:418-438 | a slice replaces the rows of its ticker from the first downloaded date on, and nothing else |
| MarketSafety.SliceAlignsExactlyWhen | backend/services/data_sync_service.py:408-445 | the two tables keep equal unique keys if and only if the two inserted sets have equal keys |
| MarketSafety.SyncAlignsExactlyWhen | backend/services/data_sync_service.py:686-766 | whatever the provider returns without repeated keys, the tables are aligned after a sync if and only if it did not splice or the download of every reached target lies entirely at or after the start, or entirely before it |
| MarketSafety.PreparedKeysExactly | backend/services/data_sync_service.py:696-705 | the keys prepared for a ticker are those of its download, in a splice only from the start on, and never repeated |
| SpliceWitness.OneEarlyDayMisaligns | backend/services/data_sync_service.py:703-705 | a provider that starts one weekday early misaligns the tables of a concrete database; one that returns only that day does not |
| MarketSafety.WrittenMeansDownloaded | backend/services/data_sync_service.py:735-739 | with a download that has unique keys and honours the start, a target is written if and only if the download has rows for it |
| MarketSafety.SyncKeepsAligned | backend/services/data_sync_service.py:610-827 | a sync, however it ends, keeps keys unique and the two tables' key sets equal |
| MarketSafety.SyncTouchesOnlyItsRanges | backend/services/data_sync_service.py:735-766 | whatever the provider returns without repeated keys, a sync changes only its own targets' rows at or after the first date downloaded for each |
| MarketSafety.FailedSliceLeavesNoTrace | backend/services/data_sync_service.py:418-445 | whichever statement of a slice raises, its target and the later ones keep exactly the rows they had, the written targets before it have their slices, and the cache is untouched |
| MarketSafety.SyncKeepsCacheRight | backend/services/data_sync_service.py:808-812 | after a success the cache is right for all targets; after a failure, a half-done refresh included, for every ticker outside the run |
| MarketSafety.SwapAlignsExactlyWhen | backend/services/data_sync_service.py:459-511 | swapping in rows computed from an earlier read aligns the tables if and only if the keys read are still the stored ones |
| MarketSafety.RebuildKeepsAligned | backend/services/data_sync_service.py:448-514 | in particular an undisturbed rebuild, which swaps in what it has just read, keeps them aligned |
| MarketSafety.RebuildMeans | backend/services/data_sync_service.py:448-514 | it leaves each listed ticker with the indicator rows of all its bars, shown by the cache, and everything else as it was; without bars it does nothing |
| MarketSafety.SwapKeepsCacheRight | backend/services/data_sync_service.py:477-513 | such a swap leaves the cache right except for the tickers it rewrote |
| MarketRuns.RunsAreSafe | backend/services/data_sync_service.py:408-827 | however the critical sections of syncs and rebuilds interleave and wherever they stop, with sound downloads and swaps whose keys still fit: unique and equal keys, and a cache right for every ticker but the tracked dirty ones |
| MarketRuns.RunsFromEmptyAreSafe | backend/services/data_sync_service.py:408-827 | in particular for every run from an empty database |
| MarketRuns.CleanRunsLeaveTheCacheRight | backend/services/data_sync_service.py:513-514 | in a run without failures only jobs under way leave tickers dirty; once all are finished the cache is right for every ticker |
| MarketRuns.SyncIsItsSteps | backend/services/data_sync_service.py:614-808 | a sync that nothing interleaves with does what the whole method does, however it ends, and leaves the rebuilds under way alone |
| MarketRuns.IdleSyncIsOneStep | backend/services/data_sync_service.py:628-677 | a sync that has nothing to do, or whose download or computation fails or brings nothing, changes nothing |
| MarketRuns.RebuildIsItsSteps | backend/services/data_sync_service.py:448-514 | likewise a rebuild; cut short after its read, its swap or in the middle of its refresh it leaves the tables, the swapped table, or a cache without the listed rows |
| MarketRuns.SwapAlignsExactlyWhenLegal | backend/services/data_sync_service.py:459-511 | in any state with aligned tables a swap step keeps them aligned if and only if the keys its rebuild read are still the stored ones |
| MarketRuns.QuietSwapIsLegal | backend/services/data_sync_service.py:459-511 | which is so whenever no row of a listed ticker was written since the rebuild read its rows, whatever else happened in between |
| SpliceWitness.LateSwapMisaligns | backend/services/data_sync_service.py:459-511 | a concrete run: a sync overtakes a rebuild, both legally and with aligned tables, and the swap then misaligns them |
| SpliceEquivalence.SyncedOf | backend/services/data_sync_service.py:735-766 | after a spliced sync the ticker's rows in both tables are the stored ones before its first downloaded date, followed by the download and by the written rows |
| SpliceEquivalence.WarmupOf | backend/services/data_sync_service.py:582-607 | a stored row of a target is loaded as warmup if and only if start - 350 <= date < start |
| SpliceEquivalence.HistoryAfterSync | backend/services/data_sync_service.py:735-766 | when no stored row is skipped, the ticker's history after a spliced sync is the rows before the warmup followed by the splice |
| SpliceEquivalence.SpliceEqualsRebuild | backend/services/data_sync_service.py:686-707 | behind w warmup rows, written row j agrees in a windowed column with what a rebuild of the resulting history computes, if w + j reaches the column's look-back or no stored row was cut off |
| SpliceEquivalence.WarmupCoversEachColumn | backend/services/data_sync_service.py:570-573 | the rows before a written one that suffice: 252 for the one-year return, 251 for the 52-week columns, 249 for SMA_250, 199 for every other windowed column |
| SpliceWitness.SpliceOccurs | backend/services/data_sync_service.py:686-707 | the hypotheses can be met: 300 weekdays stored, a splice that cuts rows off and skips none |
| SpliceEquivalence.WarmupHoldsAtMost250 | backend/services/data_sync_service.py:582-607 | those 350 days hold at most 250 rows per ticker on weekday data |
| SpliceEquivalence.FullWeeksHold250 | backend/services/data_sync_service.py:582-607 | and exactly 250 when the ticker traded on every weekday of those 50 weeks |
| SpliceEquivalence.FullWeeksSuffice | backend/services/data_sync_service.py:570-573 | then every row a spliced sync writes has the SMA_250 of a rebuild, and all other windowed columns but the one-year return, and but the 52-week ones on the first row |
| SpliceWitness.SpliceKeepsTheAverage | backend/services/data_sync_service.py:570-573 | on a concrete weekday database with all closes 100 the first written row, day 414, has SMA_250 = 100 |
| SpliceEquivalence.CutColumnIsRightExactlyWhen | backend/services/data_sync_service.py:325-358 | an SMA, return or average-volume column of a cut history is right on row i if and only if nothing was cut, i reaches its look-back, or the whole history has no value there: too few rows, a close missing in it, a zero base |
| SpliceEquivalence.WrittenColumnIsRightExactlyWhen | backend/services/data_sync_service.py:686-707 | the same for what a spliced sync writes against what a rebuild computes, for every stored column of that kind: right if and only if nothing was cut, w + j reaches the look-back, or the resulting history has no value |
| SpliceEquivalence.ShortSpliceBlanks | backend/services/data_sync_service.py:686-707 | a splice with fewer rows than such a column looks back writes it as missing: one row short of 249 before the first written row blanks SMA_250 |
| SpliceEquivalence.SpliceBlanksTheYearReturn | backend/services/data_sync_service.py:570-573 | on weekday data the first two rows every spliced sync writes have no one-year return |
| SpliceWitness.SpliceLosesAKnownReturn | backend/services/data_sync_service.py:570-573 | on a concrete weekday database the first written row lacks the one-year return that a rebuild of the same tables computes for its date |
| SyncProgress.TargetsMean | backend/services/data_sync_service.py:618-641 | an incremental sync targets the listed tickers without a row of the last 2 days, one without any row counting as of 2000-01-01; every other sync its whole list |
| SyncProgress.DownloadOverlapsStoredRows | backend/services/data_sync_service.py:642-648 | the download starts exactly 7 days before the oldest of its targets' newest rows, hence at least 7 days before each, and has no start if and only if no target has a row |
| SyncProgress.LatestDateAfterSync | backend/services/data_sync_service.py:132-149 | however a sync ends, the newest date of a target it has written is the newest downloaded one, of any other ticker its old one |
| SyncProgress.SecondRunReselects | backend/services/data_sync_service.py:618-627 | with the same clock, and however the first run ended, a second run reselects exactly the targets whose download was not written or is still before the cutoff |
| SyncProgress.IdleRunChangesNothing | backend/services/data_sync_service.py:628-641 | if there are none, the second run changes no table |
| SyncProgress.SyncReportMeans | backend/services/data_sync_service.py:656-827 | when exactly a sync reports success, and that its row count is the number of downloaded rows of the targets it got to |
| SyncProgress.FailureAfterWritesIsNotMadeUpFor | backend/services/data_sync_service.py:618-641 | so a sync that fails after writing every target up to the cutoff is not made up for: the next run with that clock selects nothing and the cache stays as it was |
| SyncProgress.HealsExactlyWhen | backend/services/data_sync_service.py:808-808 | a successful sync heals a wrong cache row if and only if it gets to write and the ticker is among its targets |
| OrderedDicts.DroppedAreLeastRecent | backend/services/response_cache.py:23-24 | popping from the front drops entries last touched before each of the survivors |
| ResponseCache.SharedCache.Prune | backend/services/response_cache.py:19-24 | removes exactly the expired entries, then the oldest until one slot is free |
| ResponseCache.SharedCache.Lookup | backend/services/response_cache.py:28-36 | serves an unexpired entry and moves it to the recent end, removes an expired one |
| ResponseCache.SharedCache.Store | backend/services/response_cache.py:39-43 | prunes, then inserts at the recent end with its expiry |
| ResponseCache.AllInterleavingsAreSafe | backend/services/response_cache.py:27-49 | for every interleaving of calls: distinct keys in recency order, size at most the maximum, each value returned was computed for its key, and each value served by a hit was stored less than its ttl before the call's clock reading |
| ResponseCache.HitServesTheLatestStore | backend/services/response_cache.py:28-35 | a hit returns the value of the key's last store |
| ResponseCache.LookMeans | backend/services/response_cache.py:27-36 | a call returns the cached value if and only if an unexpired entry of its key is there |
| ResponseCache.ComputingEnds | backend/services/response_cache.py:38-44 | a call that computes stores and returns its value, one that raises neither, and both are over |
| ResponseCache.ClearedServesNothing | backend/services/response_cache.py:47-49 | after a clear nothing is served |
| ResponseCache.StoredIsServed | backend/services/response_cache.py:27-44 | whatever other calls do, every look at a key before its stored value expires is a hit on that value, unless the cache was cleared, the key stored again, or max - 1 other keys were touched since |
| ResponseCache.EvictionIsLeastRecent | backend/services/response_cache.py:19-24 | a store drops an unexpired entry only when no expired one is left and the cache is full, and then one touched before all survivors |
| RateLimiter.FixedWindowRateLimiter.CheckKey | backend/core/security.py:115-141 | the verdict, the counted window at the recent end and the eviction loop |
| RateLimiter.TableIsBounded | backend/core/security.py:135-137 | after any trace the table holds at most max_keys keys in the order of their last checks |
| RateLimiter.TableHoldsTheLastKeys | backend/core/security.py:125-137 | the table lists exactly the last max_keys distinct keys checked, although it forgets one at every overflow |
| RateLimiter.HeldExactlyWhen | backend/core/security.py:125-137 | a key has a window in the table if and only if it was checked and fewer than max_keys other distinct keys were checked since |
| RateLimiter.AdmissionsAreBounded | backend/core/security.py:115-141 | a key that always returns before max_keys other keys do gets at most limit admissions per window and at most 2 * limit in any closed interval of one window length |
| RateLimiter.RemainingIsExact | backend/core/security.py:125-141 | as long as the window of a check lasts, a later check of the key is admitted if and only if fewer than its `remaining` came in between |
| RateLimiter.TurnsDefeatTheLimit | backend/core/security.py:136-137 | the hypothesis is needed: max_keys + 1 callers taking turns are admitted at every check of every trace |
| RateLimiter.FullWindowAdmitsExactlyWhen | backend/core/security.py:125-137 | inside a window that a check left full, the key's next check is admitted if and only if max_keys other distinct keys were checked meanwhile |
| RateLimiter.ComingBackAfterRetryAfter | backend/core/security.py:115-141 | a check exactly retry_after seconds after a denial is admitted if and only if the key was evicted meanwhile, at most a second was left, or its fraction was not strictly between 0 and a millisecond |
| RateLimiter.WaitingIsRewarded | backend/core/security.py:115-141 | the key's next check retry_after + 0.001 s after a denial opens a fresh window and is admitted, evicted meanwhile or not |
| BodyLimit.BufferBody | backend/core/security.py:58-74 | rejects exactly when some chunk overflows before the body ends, waits exactly while the body is open, and otherwise holds the messages up to the last one |
| BodyLimit.PassedExactlyWhenWithinTheLimit | backend/core/security.py:58-74 | a request whose body ends is passed on if and only if all its bytes are within the limit, and rejected if and only if not |
| BodyLimit.Replay.ReceiveBuffered | backend/core/security.py:76-84 | the n-th receive gets the n-th buffered message, then empty final requests |
| BodyLimit.ReplayIsFaithfulAndBounded | backend/core/security.py:53-86 | the application sees the client's messages unchanged and never assembles more than the limit |
| Workspace.CollectCommands | frontend/src/state/terminalStore.ts:31-42 | the scan with its early exit returns the first occurrences, trimmed, of the first distinct nonblank commands |
| Lists.TruncationIsHarmless | frontend/src/state/terminalStore.ts:27-29 | truncating older items first does not change the newest n distinct ones |
| Lists.DedupMeans | frontend/src/state/terminalStore.ts:27-42 | deduplication picks exactly the first item of each key, in order |
| WorkspaceMeaning.UniqHeadMeans | frontend/src/state/terminalStore.ts:27-29 | uniqHead returns the first `limit` first spellings, upper-cased |
| WorkspaceMeaning.UniqCommandsMean | frontend/src/state/terminalStore.ts:31-42 | likewise for the commands that are not blank, trimmed |
| WorkspaceMeaning.CommandKeyMeans | frontend/src/state/terminalStore.ts:34-36 | two commands are the same if and only if they agree after trimming, up to case |
| WorkspaceMeaning.TrimMeans | frontend/src/state/terminalStore.ts:54-54 | trimming takes all white space off both ends and nothing else |
| WorkspaceMeaning.SpacesMean | frontend/src/state/terminalStore.ts:54-54 | white space is the 25 characters that ECMAScript's trim strips |
| WorkspaceMeaning.UpperMeans | frontend/src/state/terminalStore.ts:28-28 | upper-casing moves a letter to its place in the other alphabet and keeps everything else |
| WorkspaceMeaning.DecimalMeans | frontend/src/state/terminalStore.ts:65-66 | numbers are written in decimal, without leading zeros |
| WorkspaceMeaning.JoinMeans | frontend/src/state/terminalStore.ts:254-254 | joining puts the separator between every two items |
| WorkspaceMeaning.NewListIsRecorded | frontend/src/state/terminalStore.ts:191-201 | a new watchlist is last, empty and active; a blank name gives "Watchlist n", n counting from 1 |
| WorkspaceMeaning.SavedItemsAreRecorded | frontend/src/state/terminalStore.ts:249-292 | a new saved item is first; a blank name gives the draft's own or the default of its kind |
| WorkspaceMeaning.RenamedIsNamed | frontend/src/state/terminalStore.ts:202-207 | a rename gives every list with the id the trimmed name |
| WorkspaceMeaning.AnnotationIsKept | frontend/src/state/terminalStore.ts:297-300 | an annotation is found under its key and the others stay |
| WorkspaceMeaning.ArrayBecomesObject | frontend/src/state/terminalStore.ts:297-306 | annotations persisted as an array become an object keyed by position |
| WorkspaceMeaning.RepairedItems | frontend/src/state/terminalStore.ts:59-105 | items without a usable id or name are numbered from 1 or get the default name, undated ones are as of 1970 |
| WorkspaceMeaning.MergeReads | frontend/src/state/terminalStore.ts:324-356 | which ticker, route, active list and annotations a reload takes from any persisted value |
| WorkspaceMeaning.FirstStart | frontend/src/state/terminalStore.ts:44-49 | without a persisted object the store starts with the two default lists |
| WorkspaceMeaning.SettingsSurviveReload | frontend/src/state/terminalStore.ts:172-356 | the ticker, compared tickers and route that were set are there after a reload, unless blank, untrimmed or no path |
| WorkspaceLaws.UniqHeadIsAList | frontend/src/state/terminalStore.ts:27-29 | the result is upper-cased, distinct and bounded, for any input |
| WorkspaceLaws.UniqCommandsIsAList | frontend/src/state/terminalStore.ts:31-42 | the result is trimmed, nonblank, distinct up to case and bounded |
| WorkspaceLaws.MergeSanitizes | frontend/src/state/terminalStore.ts:324-356 | from any JSON value, merge reaches a valid store that survives a reload |
| WorkspaceLaws.ReloadIsIdentityExactlyWhen | frontend/src/state/terminalStore.ts:311-356 | merge after partialize restores a valid store if and only if its ids, names and tickers are nonblank and trimmed, nothing is empty, the active id exists and the route is a path |
| WorkspaceLaws.ReloadIsIdempotent | frontend/src/state/terminalStore.ts:311-356 | a second reload changes nothing |
| WorkspaceLaws.EmptyWatchlistIsLost | frontend/src/state/terminalStore.ts:191-201 | a list that was created and left empty is gone after a reload |
| WorkspaceLaws.ActionsKeepValid | frontend/src/state/terminalStore.ts:172-307 | every action keeps the store valid |
| WorkspaceLaws.StoreStaysValid | frontend/src/state/terminalStore.ts:361-363 | after any persisted value and any actions there is an active watchlist, and it is one of the store's |
| WorkspaceLaws.RecentTickersAreTheNewest | frontend/src/state/terminalStore.ts:173-176 | the recent tickers are the 12 most recent distinct ones of the whole history of additions |
| WorkspaceLaws.RecentCommandsAreTheNewest | frontend/src/state/terminalStore.ts:180-183 | likewise for commands, compared after trimming and up to case |
| WorkspaceActions.ToggleChangesOnlyTheTarget | frontend/src/state/terminalStore.ts:219-234 | a toggle flips membership in the lists with the target id and changes nothing else in the store |
| WorkspaceActions.ToggleTwiceRestoresExactlyWhen | frontend/src/state/terminalStore.ts:228-230 | two toggles undo each other if and only if the ticker headed the list or was absent with room left |
| WorkspaceActions.ToggleReachesTheShownListExactlyWhen | frontend/src/state/terminalStore.ts:219-234 | a toggle without target changes the shown list if and only if the active id is known |
| WorkspaceActions.SelectedIsShown | frontend/src/state/terminalStore.ts:361-363 | selecting an id shows a list with it if and only if it is listed |
| WorkspaceActions.DeletionKeepsTheOthers | frontend/src/state/terminalStore.ts:208-218 | a deletion keeps exactly the other lists, or falls back to the first default, and the active id is known afterwards and moves only if it must |
| WorkspaceActions.DeletionUndoesCreation | frontend/src/state/terminalStore.ts:191-218 | deleting a new list restores the lists, and the store if and only if the first list was active |
| WorkspaceActions.RenamingTouchesNamesOnly | frontend/src/state/terminalStore.ts:202-207 | ids, symbols and other names stay, and a blank name changes nothing |
| WorkspaceActions.DeletionUndoesSaving | frontend/src/state/terminalStore.ts:249-296 | deleting a saved compare set, screen or backtest undoes saving it if and only if the shelf of 12 was not full |
| WorkspaceActions.ClearingUndoesAnnotating | frontend/src/state/terminalStore.ts:297-306 | clearing an annotation undoes setting it if and only if it was new and the annotations are an object |
| WorkspaceActions.RemovingIsTogglingOff | frontend/src/state/terminalStore.ts:235-248 | removing a compare ticker is idempotent and equals a toggle if and only if the ticker is listed |

## Left out

- IEEE rounding and the calls to `round(..., 2)`: arithmetic is over reals.
- Backtest.RunLoop: closes are numbers; a NaN close in the bar loop is not modelled.
- Backtest.BuildSummary: Sharpe, Sortino, beta and the annualised return are left out (square roots and a fractional power).
- BacktestLedger.FinalClosedForm: requires positive closes; the identity that holds for all closes is `AccountingIdentity`.
- Drawdown.ReportedDrawdown: requires that every completed round trip left some capital; equity may turn negative otherwise, where a percentage of the peak means little.
- Strategy.EvaluateStrategyMatches: frames hold numeric columns, so naming a text column such as Ticker in a rule is not modelled.
- Strategy.CombineRuleStack: operators are lower-cased over ASCII only.
- LatestCache.ScreenFrameIsEnough: the screen frame also carries the query's own `rn` column (`backend/queries/common.py:100-106`), which a rule may name; that such a rule works in the screener and fails on a whole history is not modelled.
- EndToEnd.NothingLooksAhead: the rows read have a close, since the ledger is over numbers.
- IndicatorLaws.CutHistoryAgrees: the standard deviation of the Bollinger band is an arbitrary function of its window, and a division of a nonzero number by zero (an infinity in floats) counts as missing.
- MarketSync.MarketStore.SyncMarketData: the provider, ticker normalisation, company metadata, the status tracker and the retry after an index repair are left out; the download is an arbitrary table and the clock a parameter.
- MarketSync.MarketStore.RebuildIndicatorCache: a crash in the middle of the swap itself, between its DROP and its RENAME, is left out.
- MarketRuns.RunsAreSafe: assumes downloads with unique keys that honour the start and swaps whose keys still fit, since `SyncAlignsExactlyWhen` and `SwapAlignsExactlyWhen` show what happens otherwise.
- DuckDB and pandas themselves: rolling windows, exponential means, shifts, DELETE, INSERT, ROLLBACK and window functions have direct definitions.
- ResponseCache.AllInterleavingsAreSafe: threads are interleaved critical sections; cache keys are strings.
- RateLimiter.FixedWindowRateLimiter.CheckKey: `reset` and the limits read from the environment are left out.
- BodyLimit.BufferBody: other request methods, passed through unread, and the bytes of the 413 response are left out.
- WorkspaceLaws.UniqHeadIsAList: upper-casing is over ASCII.
- WorkspaceLaws.ActionsKeepValid: fields that are never persisted (AI panel, command bar, sync notice) are left out.
- React pages, charts, AI providers, news, search and dashboards: user interface, foreign calls and string handling.
