# Verified model of the trading core

This project models the parts of the trading system that hold real state or real
arithmetic, and proves what they promise on every input, every run or every schedule.

- **Fills and recovery** (`Positions`, `Fills`, `FillSafety`, `FillDecisions`,
  `PositionKeys`, `LedgerRecovery`, `AverageOrder`). The fill reducer, the position book and
  the per-order totals as objects updated in place, the pipeline that drives them, the keys
  that tell positions apart, and the rebuild from the durable ledger.
- **The event log** (`LogFiles`, `EventLog`, `EventLogRuns`, `BufferedLog`, `BufferedFiles`,
  `LogReplay`, `LogRecovery`, `Serialization`). The duplicate guard, daily rotation, the
  buffered writer with failures in the middle of a batch, replay of the daily files, and the
  encoding of payloads. `LogReplay` and `LogRecovery` compose the two halves: an
  at-least-once log feeding an idempotent pipeline.
- **Concurrency and resources** (`BatchExecutor`, `Cache`, `CacheOrder`, `ResourceManager`,
  `ShutdownRaces`). The bounded worker pool over all completion orders, the cache with
  time-to-live and bounded size, and shutdown both alone and under every interleaving.
- **Algorithms** (`MaxPain`, `MaxPainListings`, `ExceptionHierarchy`, `DateWindows`,
  `HistoricalData`, `Resample`, `ResampleComposition`, `Resampling`, `WindowCorrection`,
  `Expiry`, `Conventions`). The max-pain query, the inheritance search with its shared
  visited set, paging and gap finding, resampling, replacement of corrected days, expiry
  dates, and tick, paisa and strike rounding.
- `Common` holds what several modules use: first occurrences, ascending sequences, sums and
  rearrangements.

Conventions of the model. Decimals are exact reals, or exact integers in paisa or as a
fraction where rounding is the point. Dates are ordinal days. Clock readings, broker
answers, task results and the behaviour of the file system are parameters, so every
statement holds for all of them. A log file is the sequence of lines written to it, and
the whole log is the sequence of lines with the day of the file each went to.

## Where the code differs from its own documentation

The model follows the code.

- `_resolve_expiry` speaks of the last and of the first Thursday; it computes the third.
  Its docstring makes offset 0 the current month and offset 1 the next: they are the same
  date once the current month's third Thursday is past (`Expiry.OffsetsZeroAndOneCoincideIff`),
  and negative offsets within the year give the current expiry as well.
- `EventLog.replay` is documented to return events in the order they were inserted. It reads
  file by file in order of days, which is that order exactly when the days of the written
  events never go back (`EventLogRuns.ReplayKeepsOrderIff`, `EventLogRuns.ReplayReversesDays`).
- `EventLog.append` is documented to record every failure in its counter. It counts failed
  writes but not failures to open the file (`EventLogRuns.ErrorsCountFailuresIff`).
- The duplicate guard remembers an id before writing, so the event of a failed write is
  skipped when it is offered again, until as many distinct other ids as the limit have been
  offered in between (`EventLogRuns.RetryIsSkippedIff`).
- When a rotation closes a file and cannot open the next one, the closed handle stays, and
  events of its day are refused until the log is closed or a new event of another day opens
  its file (`EventLogRuns.FailedRotationStrands`, `EventLogRuns.StrandedStaysIff`,
  `EventLogRuns.FairWeatherWritesIff`).
- `BufferedEventLog` has no duplicate guard, and keeps the file of its first flush open until
  it is closed, whatever the day of later records (`BufferedFiles.OwnFilesIff`,
  `BufferedFiles.SecondDayGoesToFirstFile`).
- The cache's eviction is called LRU; it goes by the time of the last `set`, which `get` does
  not refresh (`CacheOrder.GetIsAnsweredIff`, `CacheOrder.GetSavesNothing`,
  `CacheOrder.GetDoesNotSave`).
- Recovery rebuilds net quantity, cash and total profit, but average price and realised
  profit not always (`Positions.AverageDependsOnOrder`, `AverageOrder.AverageRecoveredIff`,
  `AverageOrder.RealizedRecoveredForAllIff`).
- `find_gaps` is documented in trading days; it works in calendar days, and reports nothing
  when no candle is readable.
- `shutdown_all` tests its flag outside the lock, so calls from event loops in two threads can
  both go ahead (`ShutdownRaces.TwoShutdownsCanBothPass`); a later call does nothing exactly
  when another one took the names before its test. Cleanups run at most once in any case.
  What is registered after the shutdown is never cleaned up.
- `is_tick_aligned` is documented as an exact multiple; it means within a tolerance of one
  (`Conventions.AlignedIff`).
- The max-pain query joins a chain with itself, so the total of a strike and spot counts once
  per listed row, and a strike with less pain can be passed over. The query is right for every
  option type and open interest exactly on the listings where each strike has a group of rows
  that is no larger than any group (`MaxPainListings.AlwaysRightIff`); all groups of one size
  are the simplest case.
- `_resample` drops a bar that lacks any one column, with all its volume, so resampling in two
  steps is not always resampling directly (`Resampling.DroppedBarBreaksComposition`);
  when it is, `Resampling.ResamplingComposesIff` says.

## Model

| member | source | states |
|---|---|---|
| `Positions.FillMovesCashByItsValue` | src/domain/entities/position.py:77-132 | Opening, adding, reducing, closing and reversing all move realised profit minus cost of the holding by exactly the cash of the fill; a multiplier that is not positive counts as one. |
| `Positions.FillMovesAverageOrRealizes` | src/domain/entities/position.py:77-127 | Adding realises nothing and keeps total cost; reducing leaves the average; closing clears it; reversing restarts it at the fill price; symbol, exchange and multiplier stay. |
| `Positions.TotalPnlIsCashPlusMarketValue` | src/domain/entities/position.py:66-97 | After any fill and any later mark, realised plus unrealised profit is the cash balance plus the market value of the holding. |
| `Positions.AverageDependsOnOrder` | src/domain/entities/position.py:99-127 | Average price and realised profit depend on the order of fills, with two arrangements of the same three fills. |
| `Fills.FillReducer.Validate` | src/domain/fill_reducer.py:59-89 | The verdict is that of the abstract state for the fill, the order quantity and the caller's prior total; nothing changes. |
| `Fills.FillReducer.Commit` | src/domain/fill_reducer.py:91-98 | The id is remembered and the order's total becomes the fill's cumulative quantity; nothing else changes. |
| `Fills.FillReducer.Apply` | src/domain/fill_reducer.py:100-115 | Commits exactly the accepted fills and leaves the state alone otherwise. |
| `Fills.PortfolioProjector.ApplyTrade` | src/domain/simulation.py:40-48 | The book after a trade is the projection of the old book, changed at the trade's own key only. |
| `Fills.SimulationFillPipeline.ApplyTrade` | src/domain/simulation.py:80-103 | Reducer, totals and book move together, on exactly the trades that are applied; the error for blank ids comes before any change. |
| `FillSafety.RedeliveryIsHarmless` | src/domain/simulation.py:80-103 | A copy of an earlier delivery at any later point, whatever became of the first one, changes no part of the state after the whole stream. |
| `FillSafety.OnlyFirstDeliveriesMatter` | src/domain/simulation.py:80-103 | Any pattern of redeliveries ends in the state of the stream without repeats. |
| `FillSafety.DeliveredOnceIsSettled` | src/domain/simulation.py:80-103 | What has been delivered once, even if it was rejected, is never applied later. |
| `FillSafety.RunIsMonotone` | src/domain/fill_reducer.py:91-98 | Over every run totals per order never fall, accepted ids are never forgotten, and the three pieces of state stay in step. |
| `FillSafety.NeverOverfilled` | src/domain/fill_reducer.py:59-115 | No order is filled beyond a quantity that all its deliveries respect, over every run. |
| `FillSafety.EachFillAppliedOnce` | src/domain/fill_reducer.py:59-115 | The applied trades have distinct ids, and those are exactly the remembered ids. |
| `FillSafety.TotalsMatchAppliedTrades` | src/domain/simulation.py:80-103 | Filled total, reducer total and the sum of the applied quantities of an order are one number. |
| `FillSafety.BookIsSumOfAppliedTrades` | src/domain/simulation.py:27-48 | Every position is the signed sum of the applied trades of its instrument. |
| `FillSafety.CashIsSumOfAppliedTrades` | src/domain/simulation.py:27-48 | Every instrument's cash balance is minus the cost of its applied trades. |
| `FillSafety.TotalProfitIsCashPlusMarketValue` | src/domain/entities/position.py:66-97 | Over every run and at any mark price, an instrument's realised plus unrealised profit is the market value of the net of its applied trades less their cost. |
| `FillSafety.OneSidedAverage` | src/domain/entities/position.py:99-127 | While an instrument is only bought or only sold nothing is realised, and average price times quantity is what the trades cost. |
| `FillSafety.FlatRealizesItsCash` | src/domain/entities/position.py:115-127 | A flat instrument has realised exactly the cash its trades brought in. |
| `FillSafety.ValidatedCommitsAreSafe` | src/domain/fill_reducer.py:59-98 | For any prior totals the callers report, committing only what was validated against the current state keeps totals rising and within the order, and commits each fill id at most once. |
| `FillSafety.StaleVerdictIsSafeIff` | src/domain/fill_reducer.py:59-98 | Two fills valid against one state, with any totals from their callers, and both committed: no total falls if and only if they are of different orders or the second one's cumulative quantity is not the smaller. |
| `FillSafety.StaleVerdictCanLowerTotal` | src/domain/fill_reducer.py:59-98 | Such a pair, committed the smaller total last. |
| `FillDecisions.AppliedIff` | src/domain/simulation.py:80-103 | Over every run: a trade is applied if and only if its quantity is positive, its ids are not blank, no trade applied before has its id, and the shares applied to its order and its own fit the order's quantity; the error for blank ids comes exactly for positive quantities. |
| `FillDecisions.SameOrderIff` | src/domain/simulation.py:83 | Trades without an order id are one order each; two trades share an order exactly when their order ids, or the names made for them, agree. |
| `PositionKeys.SameKeyIff` | src/domain/symbols.py:17-72 | Exchanges without a colon: two pairs of symbol and exchange have one key if and only if the symbols and the exchanges each agree up to outer white space and the case of letters. |
| `PositionKeys.TradeMovesItsOwnPosition` | src/domain/simulation.py:40-48 | A trade leaves the position of every other symbol or exchange as it was, and moves its own by its shares. |
| `PositionKeys.PositionIsBoughtLessSold` | src/domain/simulation.py:27-48 | Over every run a position is the shares bought less the shares sold of that symbol on that exchange, and its cash what the sales brought in less what the purchases cost. |
| `PositionKeys.KeysAreOfTheirPositions` | src/domain/simulation.py:40-48 | Over every run each position of the book is stored under the key of its own symbol and exchange. |
| `LedgerRecovery.SortIsSorted` | src/domain/ledger_recovery.py:12-30 | The replay order is by event time and then fill id, and is a rearrangement of the ledger. |
| `LedgerRecovery.SortedByTimeThenId` | src/domain/ledger_recovery.py:12-30 | Of any two fills in replay order the first is earlier, or of the same time with a fill id that is a prefix of the other's or smaller at the first character that differs. |
| `LedgerRecovery.SortIsStable` | src/domain/ledger_recovery.py:12-30 | Fills of one time and id stay in their order. |
| `LedgerRecovery.RebuildProjectorFromFills` | src/domain/ledger_recovery.py:12-30 | The loop builds the book of the sorted replay, and fails exactly when a record has an id of white space only. |
| `LedgerRecovery.RecoveryIgnoresLedgerOrder` | src/domain/ledger_recovery.py:12-30 | With unique fill ids every permutation of the ledger gives the same book, averages and profits included. |
| `LedgerRecovery.RecoveryRejectsNothingIff` | src/domain/ledger_recovery.py:12-30 | Every ledger fill is applied if and only if the fills of each order sum to no more than the order. |
| `LedgerRecovery.RecoveredIsTheLedgersSum` | src/domain/ledger_recovery.py:12-30 | Without an overfilled order the recovered net quantity of an instrument is what the ledger's own rows bought less what they sold, and its cash what that brought in. |
| `LedgerRecovery.OnlyFirstLiveFillsMatter` | src/domain/simulation.py:80-103 | Live fills with any redeliveries give the state of the fills delivered once. |
| `LedgerRecovery.RecoveryEqualsLive` | src/domain/ledger_recovery.py:12-30 | The recovered book equals the live one in net quantity and cash, in whatever order and however often the fills arrived live. |
| `LedgerRecovery.RecoveredProfitEqualsLive` | src/domain/ledger_recovery.py:12-30 | Under the same conditions total profit at any mark price is recovered. |
| `LedgerRecovery.RecoveryInLedgerOrder` | src/domain/ledger_recovery.py:12-30 | When the fills arrived live in the ledger's order, the books are equal in every field. |
| `LedgerRecovery.RecoveredAverageEqualsLive` | src/domain/ledger_recovery.py:12-30 | In any order of arrival, average price and realised profit are recovered for an instrument that is flat, or was only bought or only sold. |
| `AverageOrder.RunHolds` | src/domain/simulation.py:27-48 | Over every run, quantity and average price of an instrument are those of applying its trades one after the other to an empty position. |
| `AverageOrder.Climbs` | src/domain/entities/position.py:99-113 | Trades in ascending order of price, against a position on the other side, leave what has crossed over at an average above their mean price unless all prices are equal. |
| `AverageOrder.AverageRecoveredIff` | src/domain/ledger_recovery.py:12-30 | The average price is recovered for every order in which the fills may have arrived if and only if the instrument is flat, was only bought or only sold, or has one price on the side of its net position. |
| `AverageOrder.RealizedRecoveredIff` | src/domain/ledger_recovery.py:12-30 | Realised profit is recovered if and only if the instrument is flat or its average price is recovered. |
| `AverageOrder.RealizedRecoveredForAllIff` | src/domain/ledger_recovery.py:12-30 | Realised profit, too, is recovered for every order of arrival if and only if the instrument is flat, was only bought or only sold, or has one price on the side of its net position. |
| `LogFiles.ReplayReadsFilesInOrder` | src/infrastructure/event_log.py:254-288 | Replay goes through the days in order and reads each file as it was written. |
| `LogFiles.ReplayKeepsLines` | src/infrastructure/event_log.py:254-288 | Replay reads every written line, as often as it was written. |
| `LogFiles.ReplayKeepsInsertionOrderIff` | src/infrastructure/event_log.py:254-288 | Replay is in order of insertion if and only if no earlier day's file was written to after a later one's. |
| `EventLog.EventLog.EnsureHandle` | src/infrastructure/event_log.py:168-179 | Rotation by the event's day, with what stays behind when closing or opening fails. |
| `EventLog.EventLog.Remember` | src/infrastructure/event_log.py:192-201 | The eviction loop computes the touch of the guard: a known id becomes the youngest, a new one pushes out the oldest. |
| `EventLog.EventLog.Append` | src/infrastructure/event_log.py:181-232 | Outcome and whole new state, in every combination of duplicate, failed opening and failed write. |
| `EventLog.EventLog.Close` | src/infrastructure/event_log.py:290-300 | No file stays open, and guard, files and counter are untouched. |
| `EventLog.GuardIsLru` | src/infrastructure/event_log.py:192-201 | After any history an id is remembered if and only if it was touched and fewer than the limit of distinct other ids were touched since. |
| `EventLog.GuardIsYoungest` | src/infrastructure/event_log.py:192-201 | The guard is exactly the youngest ids of the history in the order of their last touches. |
| `EventLog.AttemptsAreFarApart` | src/infrastructure/event_log.py:192-201 | Two attempts to write one id have at least the limit of distinct other ids between them. |
| `EventLogRuns.SkipsExactlyRecentIds` | src/infrastructure/event_log.py:192-201 | After any run of appends and closes with any failures, an event is skipped if and only if its id was offered and fewer than the limit of distinct other ids were offered since. |
| `EventLogRuns.RetryIsSkippedIff` | src/infrastructure/event_log.py:192-232 | An event once offered, written or failed, is skipped when offered again if and only if fewer than the limit of distinct other ids were offered in between; otherwise a healthy file system writes it if and only if its day is not stranded. |
| `EventLogRuns.HandleFromCalls` | src/infrastructure/event_log.py:168-179 | Which file is open after any run, and whether it is usable, told from which appends opened a file, which failed to open theirs, and the closes. |
| `EventLogRuns.OutcomeFromCalls` | src/infrastructure/event_log.py:181-232 | After any run: skipped if and only if recent, failed to open if and only if the needed file cannot be opened, written if and only if not recent, with a file that is or can be opened and is not stranded, and a write that succeeds. |
| `EventLogRuns.FairWeatherWritesIff` | src/infrastructure/event_log.py:168-232 | With a healthy file system an event is written if and only if its id is not recent and its day is not stranded. |
| `EventLogRuns.FilesHoldWhatLanded` | src/infrastructure/event_log.py:203-232 | Over every run the files hold, in order and each in its own day's file, exactly the events that meet that condition when they are appended. |
| `EventLogRuns.ErrorsCountFailuresIff` | src/infrastructure/event_log.py:203-232 | The error counter is the number of failed appends less those that could not open their file, and so counts all failures if and only if no append failed to open. |
| `EventLogRuns.OpenFailureIsNotCounted` | src/infrastructure/event_log.py:203-206 | One append that cannot open its file is a failure that is not counted. |
| `EventLogRuns.FailedRotationStrands` | src/infrastructure/event_log.py:168-179 | An append of one day and a failed opening for another strand the first day: no error is counted, and a new event of that day cannot be written in fair weather. |
| `EventLogRuns.StrandedStaysIff` | src/infrastructure/event_log.py:168-179 | A stranded day stays so, with nothing written, unless the log is closed or an event of another day that is not skipped opens its file. |
| `EventLogRuns.FailedRotationStrandsTheDay` | src/infrastructure/event_log.py:168-179 | Over any run of appends that are for the stranded day or cannot open their file, nothing is written for any day. |
| `EventLogRuns.ReplayKeepsOrderIff` | src/infrastructure/event_log.py:254-288 | Replaying a run's files gives the written events in their order if and only if their days never go back. |
| `EventLogRuns.ReplayReversesDays` | src/infrastructure/event_log.py:254-288 | Of two events in healthy conditions, the second of an earlier day, replay returns the second first. |
| `BufferedLog.BufferedEventLog.Append` | src/infrastructure/event_log.py:366-401 | The record joins the buffer, and a flush follows exactly under the size, time or synchronous rule. |
| `BufferedLog.BufferedEventLog.Flush` | src/infrastructure/event_log.py:403-437 | Which lines are written, and to which file, when it succeeds and when it fails after any number of lines. |
| `BufferedLog.BufferedEventLog.Close` | src/infrastructure/event_log.py:444-453 | A last flush, then no open file, also when that flush fails. |
| `BufferedLog.NeverLosesOrReorders` | src/infrastructure/event_log.py:366-453 | Over every run with any failures, written lines followed by the buffer are the appended records in order once repeats are dropped, and no record occurs less often than it was appended. |
| `BufferedLog.CrashLosesAtMostTheBuffer` | src/infrastructure/event_log.py:366-453 | At any point the files hold, up to repeats, a prefix of the appended records with everything that is no longer buffered. |
| `BufferedLog.WithoutFailuresExactlyOnce` | src/infrastructure/event_log.py:366-453 | Without failures every record occurs once, and the buffer stays below the threshold. |
| `BufferedLog.EveryStepWrites` | src/infrastructure/event_log.py:366-453 | After every run with any failures: an append waits if and only if it is not synchronous, the buffer stays below the threshold and the last complete write is less than the interval ago; everything else writes all that is pending, or what the failure lets through and then keeps it all; an opened file stays open until the log is closed. |
| `BufferedLog.FlushTimesFromCalls` | src/infrastructure/event_log.py:424-428 | Time and number of flushes are those of the operations that found something to write and left nothing. |
| `BufferedFiles.OwnFilesIff` | src/infrastructure/event_log.py:403-453 | Over every run with any failures but those of closing, and with nothing left to write, every line is in its own day's file if and only if every append has the day of the first one since the last close. |
| `BufferedFiles.SecondDayGoesToFirstFile` | src/infrastructure/event_log.py:403-423 | Two appends of different days put both lines in the first day's file. |
| `BufferedFiles.FileIsOfOpener` | src/infrastructure/event_log.py:408-413 | Over every run with any failures the open file is that of the first buffered record when it was opened. |
| `BufferedFiles.WritesGoToOpenersFile` | src/infrastructure/event_log.py:408-417 | With any failures, an operation writes the first pending records, all to the file of the record it was opened for. |
| `BufferedFiles.OwnFilesWithFailuresIff` | src/infrastructure/event_log.py:403-431 | With failed closes, too, the single operations add up: every line is in its own day's file if and only if each operation writes only records of the day its file was opened for. |
| `LogReplay.OnlyFirstRecordsMatter` | src/infrastructure/event_log.py:238-288 | Replaying records with repeats builds the same reducer, totals and book as replaying each once. |
| `LogReplay.ReplayEqualsProcessing` | src/infrastructure/event_log.py:366-453 | Over every run with failures, replaying files and buffer builds the state of processing each appended record once. |
| `LogReplay.CrashRecovery` | src/infrastructure/event_log.py:238-288 | After a crash at any point, reading the daily files rebuilds the state after a prefix of the appended records that includes all that had left the buffer. |
| `LogRecovery.CrashRecoversHoldings` | src/infrastructure/event_log.py:254-288 | With days in any order and fills that overfill no order, reading the files back after a crash gives the net quantity and cash of such a prefix. |
| `Serialization.RoundTripIff` | src/infrastructure/event_log.py:49-117 | Decoding the encoding of a value, of any depth, gives the value back if and only if it is faithful: enum members only in fields declared so, no tuples, nothing stored as bare text, every class known to the decoder, fields that the constructor does not take as the constructor sets them, and nothing under a dictionary's type key that the decoder takes for a type. |
| `Serialization.EveryValueBecomesNormal` | src/infrastructure/event_log.py:49-117 | What every value comes back as: tuples as lists, what is stored by its text as that text, an undeclared enum member as its value, an unregistered class as a dictionary of its fields under its name, a registered one as its constructor builds it; for all values without a dictionary that the decoder takes for a type. |
| `Serialization.TaggedDictionaryIsLost` | src/infrastructure/event_log.py:93-114 | A dictionary that is taken for a type never comes back: it fails, or becomes the tagged decimal, date or time, or an object of the named class. |
| `BatchExecutor.BatchExecute` | src/infrastructure/batch_executor.py:25-54 | Whatever the workers do, the result is that of completing each submission once in some order; each failure is reported as often as submissions of its item end with it; the most submissions pending at a time are the smaller of worker limit and items; too small a limit is rejected. |
| `BatchExecutor.CompleteAll` | src/infrastructure/batch_executor.py:40-54 | One pass over finished submissions keeps finished, pending and unsubmitted items a partition of the input and the pool full while items remain. |
| `BatchExecutor.ResultsAreTheSuccesses` | src/infrastructure/batch_executor.py:40-54 | The result map holds exactly the items with a successful submission, each with the value of the last of them to complete. |
| `BatchExecutor.ResultsDoNotDependOnSchedule` | src/infrastructure/batch_executor.py:25-54 | For a deterministic task every schedule gives the same map: succeeding items with their values. |
| `BatchExecutor.EveryFailureIsReported` | src/infrastructure/batch_executor.py:40-54 | For every schedule the reports of an item and an error are as many as the submissions of the item that end with that error. |
| `BatchExecutor.ReportsDoNotDependOnSchedule` | src/infrastructure/batch_executor.py:40-54 | For any task every schedule reports the same failures the same number of times. |
| `BatchExecutor.AnyTwoSchedules` | src/infrastructure/batch_executor.py:25-54 | Any two schedules complete the same submissions, each once. |
| `Cache.MemoryCache.Get` | src/infrastructure/cache.py:71-84 | A value that is present and not expired; an expired entry leaves the store. |
| `Cache.MemoryCache.Set` | src/infrastructure/cache.py:86-99 | The value is stored with its time to live as the newest; if the store then exceeds its limit, exactly the expired entries go, and if it still does, the oldest beyond the limit. |
| `Cache.MemoryCache.EvictExpired` | src/infrastructure/cache.py:101-110 | Exactly the expired entries leave the store. |
| `Cache.MemoryCache.EvictOldest` | src/infrastructure/cache.py:112-127 | What leaves was set before everything that stays, and the limit of entries stays. |
| `Cache.SortedKeys` | src/infrastructure/cache.py:112-127 | The stored keys, each once, in order of insertion number. |
| `Cache.MemoryCache.Delete` | src/infrastructure/cache.py:129-133 | Only this key leaves store and numbering. |
| `Cache.MemoryCache.Clear` | src/infrastructure/cache.py:135-139 | Everything leaves; the counter keeps rising. |
| `Cache.MemoryCache.Has` | src/infrastructure/cache.py:141-142 | Agrees with a get at the same moment, including its removal of an expired entry. |
| `Cache.RunIsFaithful` | src/infrastructure/cache.py:71-139 | After every run the store is within its limit, holds only latest sets not deleted or cleared, and lacks a live one only when as many other keys as the limit were set since. |
| `Cache.GetAnswersFromLatestSet` | src/infrastructure/cache.py:71-139 | A hit is the value of the latest set, alive; a miss on a live entry means at least the limit of distinct other keys were set after it. |
| `CacheOrder.GetIsAnsweredIff` | src/infrastructure/cache.py:71-139 | After every run of sets, gets, deletes and clears with expiring entries, a get is answered, with the latest set's value, if and only if that set was not deleted or cleared, has not expired, and at no point since did as many younger live keys as the limit stand beside it. |
| `CacheOrder.SetIsAnsweredIff` | src/infrastructure/cache.py:71-99 | A value set for some seconds is answered by a later get, with nothing in between and room for an entry, if and only if the seconds are not positive or have not passed. |
| `CacheOrder.StoreIsYoungestBySet` | src/infrastructure/cache.py:86-127 | In particular, of sets and gets without expiry the store holds exactly the keys with fewer other keys set since than the limit. |
| `CacheOrder.GetSavesNothing` | src/infrastructure/cache.py:71-139 | A get anywhere in any run changes no later answer, for its own key or any other. |
| `CacheOrder.GetDoesNotSave` | src/infrastructure/cache.py:112-127 | Of a cache of two, the key that was read last is evicted by the next set. |
| `CacheOrder.EveryRunReaches` | src/infrastructure/cache.py:71-139 | Every sequence of operations leads to some state, so the statements over all reached states say something of every run. |
| `ResourceManager.ResourceManager.Register` | src/infrastructure/resource_manager.py:83-118 | Appends the entry unless the name is taken, in which case nothing changes. |
| `ResourceManager.ResourceManager.Unregister` | src/infrastructure/resource_manager.py:120-130 | Exactly the entry of that name leaves; names stay unique. |
| `ResourceManager.ResourceManager.ShutdownAll` | src/infrastructure/resource_manager.py:205-249 | A lone shutdown cleans every entry once, newest first, goes on past failing cleanups and reports exactly those; a second one does nothing. |
| `ResourceManager.RemoveTakesOne` | src/infrastructure/resource_manager.py:120-130 | Removing a name takes out its entry and leaves the others in their order. |
| `ResourceManager.FailingSpec` | src/infrastructure/resource_manager.py:220-249 | The reported cleanups are the failing ones, in their order. |
| `ShutdownRaces.RunIsConsistent` | src/infrastructure/resource_manager.py:111-130 | Over every interleaving each registration is in one place: registered, in the hands of one call, started or unregistered. |
| `ShutdownRaces.CleanupAtMostOnce` | src/infrastructure/resource_manager.py:205-249 | No cleanup starts twice, however many shutdowns, registrations and unregistrations interleave. |
| `ShutdownRaces.FinishedShutdownMissesNothing` | src/infrastructure/resource_manager.py:205-249 | When a shutdown finishes, each entry there when it took the names has been cleaned, was unregistered, or is with another call. |
| `ShutdownRaces.LateRegistrationsAreNeverCleaned` | src/infrastructure/resource_manager.py:212-218 | Once every shutdown call is done no cleanup starts any more, whatever is registered or called. |
| `ShutdownRaces.TwoShutdownsCanBothPass` | src/infrastructure/resource_manager.py:212-218 | An interleaving, across two event loops in two threads, in which two calls both pass the flag. |
| `ShutdownRaces.LaterShutdownDoesNothingIff` | src/infrastructure/resource_manager.py:212-218 | A call ends at its flag test, with no later step of it changing anything, if and only if some call took the names before that test. |
| `ShutdownRaces.LoneShutdownCleansAll` | src/infrastructure/resource_manager.py:205-249 | A first shutdown whose steps nothing interrupts does what the whole call does: every entry once, newest first, and none is left. |
| `ShutdownRaces.FinishesAfterItsSteps` | src/infrastructure/resource_manager.py:220-249 | Over every interleaving a call that has taken n names is moved on by its own steps only, and has finished after at most 3 n + 1 of them. |
| `ShutdownRaces.NeverBlocked` | src/infrastructure/resource_manager.py:205-249 | Until a call has finished one of its own steps moves it on, whatever the others did. |
| `ShutdownRaces.RegistryStepsSpec` | src/infrastructure/resource_manager.py:83-130 | Over every interleaving, registering adds an entry exactly when its name is free, and unregistering takes out exactly the entry of the name. |
| `MaxPain.TotalIsSizeTimesPain` | src/analytics/_options_sql.py:93-108 | The grouped self join totals the chain's pain once per row listed for the strike. |
| `MaxPain.OptionsPayIntrinsicValue` | src/analytics/_options_sql.py:98-101 | A single row pays its interest times the excess of the price over the strike for a call, of the strike over the price for anything else, and nothing on the other side. |
| `MaxPain.GroupSizeCounts` | src/analytics/_options_sql.py:93-108 | A group is the rows with its strike and its spot. |
| `MaxPain.FirstByPain` | src/analytics/_options_sql.py:109-117 | The first of least total is a listed row with no smaller total. |
| `MaxPain.ListedStrikeBeatsAnyPrice` | src/analytics/_options_sql.py:98-101 | For every settlement price at all some listed strike has no more pain. |
| `MaxPain.AnswerWithinGroupRatio` | src/analytics/_options_sql.py:93-117 | However uneven the listing, the answer's pain times its rows is at most any price's pain times the most rows of a strike. |
| `MaxPain.EqualRowsGiveGlobalMinimum` | src/analytics/_options_sql.py:93-117 | With the same number of rows for every strike every answer is a global minimum over all settlement prices. |
| `MaxPainListings.AlwaysRightIff` | src/analytics/_options_sql.py:93-117 | For a listing of strikes, spots and row counts: every answer, for every option type and non-negative interest, has no more pain than any settlement price if and only if each strike has a group of no more rows than any group. |
| `MaxPainListings.UnevenMisleads` | src/analytics/_options_sql.py:93-117 | For every other listing, the option types and interest that make the query answer with a strike that has more pain than another one. |
| `MaxPainListings.MisledIff` | src/analytics/_options_sql.py:93-117 | Of the row counts of an answer and of a strike with less pain that was passed over: the possible pairs are exactly those with the second larger. |
| `ExceptionHierarchy.InheritsFromGoodBase` | scripts/architecture/check_exception_hierarchy.py:93-108 | Terminates on every graph; a positive answer is a path, and a negative one leaves all newly visited classes without an exit to a good base. |
| `ExceptionHierarchy.ExhaustedReachesNothing` | scripts/architecture/check_exception_hierarchy.py:93-108 | From a visited set left by failed searches no path reaches a good base, although siblings shared it. |
| `ExceptionHierarchy.SearchFromScratch` | scripts/architecture/check_exception_hierarchy.py:93-108 | With a fresh visited set the answer is true if and only if a path of base edges reaches a good base, cycles included. |
| `ExceptionHierarchy.ScanFile` | scripts/architecture/check_exception_hierarchy.py:111-177 | Reports exactly the exception classes with neither a path to a good base nor an allowed standard base, in the breadth-first order of the walk over the syntax tree. |
| `ExceptionHierarchy.LastStatementCounts` | scripts/architecture/check_exception_hierarchy.py:121-129 | A class has the bases of its last class statement. |
| `ExceptionHierarchy.ReportsEachViolation` | scripts/architecture/check_exception_hierarchy.py:131-170 | One report per class statement, with its line, name and first base, exactly when some base has "Error" or "Exception" in its name and none is allowed or reaches a good one. |
| `ExceptionHierarchy.ScanRepositoryFile` | scripts/architecture/check_exception_hierarchy.py:53-85 | The same for the repository's own lists of bases. |
| `DateWindows.Chunks` | scripts/correct_tz_window.py:60-67 | Whenever it ends, the loop gives consecutive windows from start to end, each of one to the maximum of days. |
| `DateWindows.WindowsCover` | src/infrastructure/historical_data.py:112-132 | Page windows start and end with the range, follow one another without a gap and keep to the page size. |
| `DateWindows.EachDayInOneWindow` | src/infrastructure/historical_data.py:112-132 | A day is in a window if and only if it is in the range, and then in one only. |
| `HistoricalData.PaginatedFetch` | src/infrastructure/historical_data.py:104-133 | The loop collects the pages of consecutive windows in order; a failing page contributes nothing. |
| `HistoricalData.PagesSpec` | src/infrastructure/historical_data.py:112-133 | A page that fails leaves out its own candles and no others; all other pages follow one another as returned. |
| `HistoricalData.PagingIsInvisible` | src/infrastructure/historical_data.py:104-133 | With a range-exact client the pages are one single fetch, for every page size. |
| `HistoricalData.CountByDay` | src/infrastructure/historical_data.py:149-162 | Exactly the days with a readable candle are counted, each with the number of its candles. |
| `HistoricalData.FindGaps` | src/infrastructure/historical_data.py:135-187 | The reported gaps are exactly the maximal runs of absent days of the range, which defaults to the days present. |
| `HistoricalData.ScanGaps` | src/infrastructure/historical_data.py:169-187 | The scan finds all maximal runs of absent days and nothing else, in order. |
| `HistoricalData.ExactGapsAreUnique` | src/infrastructure/historical_data.py:135-187 | Only one list meets that description. |
| `HistoricalData.BackfillGap` | src/infrastructure/historical_data.py:189-199 | Fetches the pages of the gap's own range. |
| `HistoricalData.BackfillingLeavesNoGap` | src/infrastructure/historical_data.py:135-199 | After backfilling each gap from a client with every day, the range has no gap. |
| `Resampling.SortSpec` | src/datalake/gateway.py:117-129 | Rows are rearranged into order of time. |
| `Resampling.SortIsStable` | src/datalake/gateway.py:117-129 | Rows of one time stay in their order. |
| `Resampling.GroupedInOrder` | src/datalake/gateway.py:107-129 | Before incomplete bars are dropped, for rows in any order: one bar per bucket with rows, strictly ascending, each the aggregate of exactly its rows in order of time. |
| `Resample.AggregateSpec` | src/datalake/gateway.py:118-129 | Open is the first present value, close and interest are the last; extremes bound every row and are attained; volumes are summed; a column is missing only when it is missing in every row. |
| `Resample.BarsAreAligned` | src/datalake/gateway.py:107-129 | Every bar, dropped later or not, starts at a multiple of the width. |
| `Resample.InBucketSpec` | src/datalake/gateway.py:107-129 | A row is in the bar that starts at a multiple of the width at or less than a width before it, behind the earlier rows. |
| `Resampling.ResampledSpec` | src/datalake/gateway.py:97-137 | What is returned, for rows in any order: bars in strict order of time at multiples of the width, and one for a bucket if and only if every column has a value in it, namely the aggregate of its rows in order of time. |
| `Resample.ReturnedIsKept` | src/datalake/gateway.py:117-130 | Dropping bars is the same as never having had the rows of their buckets. |
| `Resample.VolumeIsPreserved` | src/datalake/gateway.py:118-129 | Grouping preserves total volume. |
| `Resampling.ResampledVolume` | src/datalake/gateway.py:97-137 | The returned volume is the total less that of the rows in buckets that lack a column, and the total when no value is missing. |
| `ResampleComposition.GroupComposes` | src/datalake/gateway.py:107-129 | Grouping to a finer width first changes nothing, missing values included. |
| `Resampling.TwoStepsUseFullBuckets` | src/datalake/gateway.py:97-137 | Two steps are one step on the rows whose finer buckets have every column. |
| `Resampling.ResamplingComposesIff` | src/datalake/gateway.py:97-137 | For rows in any order, two steps agree with one when no row is in a filled coarser bucket and in a finer one that is not filled; and, for volumes that are not negative and rows without volume that lack no other value, only then. |
| `Resampling.TimeframesCompose` | src/datalake/gateway.py:97-137 | Any two supported time frames compose on rows without missing values. |
| `Resampling.DroppedBarBreaksComposition` | src/datalake/gateway.py:130 | For every pair of rows of which the first lacks its open interest, the finer step drops a bar with its volume and the two ways differ. |
| `WindowCorrection.KeepLastSpec` | scripts/correct_tz_window.py:141 | Of rows with one time stamp exactly the last stays. |
| `WindowCorrection.KeepSpec` | scripts/correct_tz_window.py:135-138 | Exactly the rows of days that are not corrected stay, with their order of duplicates. |
| `WindowCorrection.SortSpec` | scripts/correct_tz_window.py:142 | Strict order of time, with the same rows. |
| `WindowCorrection.CorrectionIsExactReplacement` | scripts/correct_tz_window.py:125-147 | The new table is in strict order of time; a row on the same day, from midnight to midnight, as some fetched row is in it if and only if it was fetched, any other if and only if it was stored, last duplicates counting; nothing fetched changes nothing. |
| `WindowCorrection.CorrectionIsIdempotent` | scripts/correct_tz_window.py:125-147 | A second run with the same fetch changes nothing. |
| `Expiry.ResolveExpiry` | src/domain/instrument_resolver.py:117-161 | Weekly or monthly rule by kind, and an error for any other. |
| `Expiry.WeeklyIsTheThursday` | src/domain/instrument_resolver.py:130-136 | The only Thursday of the seven days that start the given weeks after the reference. |
| `Expiry.WeeklyFailsIff` | src/domain/instrument_resolver.py:130-136 | The weekly expiry fails if and only if the reference's own Thursday, or the day the given weeks from it, is no day of the calendar. |
| `Expiry.OrdinalInClosedForm` | src/domain/instrument_resolver.py:138-159 | The days that the rules count in are those of the Gregorian calendar: 365 a year, one more for each leap year before, and the days of the months before. |
| `Expiry.WeeklyRisesWithOffset` | src/domain/instrument_resolver.py:130-136 | Offsets move the weekly expiry by seven days each. |
| `Expiry.ResolveMonthly` | src/domain/instrument_resolver.py:138-159 | The recursive method with its month-carrying loop computes the monthly rule, and ends for every offset, negative ones included. |
| `Expiry.ThirdThursdaySpec` | src/domain/instrument_resolver.py:147-153 | The date is a Thursday on the 15th to 21st of its month. |
| `Expiry.EveryDayIsADate` | src/domain/instrument_resolver.py:138-159 | Every counted day is the day of a date of the calendar. |
| `Expiry.MonthlyAhead` | src/domain/instrument_resolver.py:138-159 | From offset 1 on: the third Thursday of that month, after the reference, with no further step; an error exactly beyond the last year. |
| `Expiry.MonthlyNow` | src/domain/instrument_resolver.py:138-159 | Offset 0: this month's third Thursday, or next month's, one step on, when it is past. |
| `Expiry.MonthlyRisesWithOffset` | src/domain/instrument_resolver.py:138-159 | From offset 1 on, a smaller offset has an expiry whenever a larger one has, and a strictly earlier one. |
| `Expiry.OffsetsZeroAndOneCoincideIff` | src/domain/instrument_resolver.py:138-159 | Offset 0 is never later than offset 1, and the same if and only if this month's third Thursday is past. |
| `Expiry.NegativeOffsetIsCurrentMonth` | src/domain/instrument_resolver.py:155-157 | A negative offset within the year climbs back to the answer of offset 0; one that leaves the year fails. |
| `Conventions.PaisaRoundTripIff` | src/domain/conventions.py:58-69 | All whole paisa survive the way to rupees and back if and only if the scale is at most 100. |
| `Conventions.SmallScaleSurvives` | src/domain/conventions.py:58-69 | Every amount, negative ones included, survives at scales 1 to 100. |
| `Conventions.AmountsAreNearest` | src/domain/conventions.py:58-69 | Both conversions give the nearest whole unit, with a half away from zero. |
| `Conventions.SnapIsNearest` | src/domain/conventions.py:71-84 | The snapped price is a multiple of the tick within half a tick, no multiple is closer, and of two equally close ones it is the higher. |
| `Conventions.SnapIsIdempotentAndMonotone` | src/domain/conventions.py:71-84 | Snapping again changes nothing, and a higher price never snaps lower. |
| `Conventions.SnappedIsAligned` | src/domain/conventions.py:86-102 | A snapped price passes the alignment test under any tolerance. |
| `Conventions.AlignedIff` | src/domain/conventions.py:86-102 | A price passes if and only if it is zero or within the tolerance, whatever its sign, of some multiple of the tick. |
| `Conventions.NearestStrikeSpec` | src/domain/instrument_resolver.py:164-175 | A multiple of the strike interval at most half an interval from the price, and on a tie the even one. |
| `Conventions.StepsLeaveTheSpot` | src/domain/instrument_resolver.py:178-198 | From one step on, out-of-the-money strikes are above and in-the-money strikes below the spot, by at least half an interval; each step is one interval. |

## Left out

Stated weaker, or under a condition:

- Resampling.ResamplingComposesIff: its second half assumes volumes that are not negative and that rows without volume lack no other value, because a lost row without volume may leave every column of the result as it was.
- Conventions.SnapIsNearest: assumes a price of at least zero, which is what prices are; rounding half up is toward the larger magnitude only there.
- DateWindows.Chunks: for a range that is not empty it needs windows of at least one day, since the script's loop does not end otherwise.
- Serialization.RoundTripIff: constructors keep the values they take and derive the other fields from them; constructors that change or reject what they are given, and enumerations of other than primitive values, are not covered.
- ResourceManager.ResourceManager.ShutdownAll: newest-first order is stated for a lone shutdown; overlapping ones share the entries in an order that depends on the interleaving.
- BatchExecutor.BatchExecute: an error callback that raises itself is not modelled.
- PositionKeys.SameKeyIff: assumes exchanges without a colon, since a colon in one shifts the boundary between symbol and exchange.

Not modelled:

- The 28-digit context of decimals, floating point, and Unicode case folding: position keys fold ASCII letters only.
- Marking prices across a whole book, total realised profit, holdings and position states beyond average price and profit of one position.
- Fill metadata such as timestamps, source and broker order ids, and the database behind the ledger.
- Real files, fsync, torn lines, the JSON text itself, filters of replay by time and type, and corrupt lines.
- Concurrent use of the event log's guard, which runs outside its lock; the model is sequential there. The buffered log's exit hook and statistics.
- Registration of data classes as a side effect of encoding: the classes known to the decoder are a parameter.
- Threads and futures: a submission is a number, and the order of completion is arbitrary.
- Cache metrics, decorators, snapshots and stored null values. The numbering of insertions is not bounded by the limit in the code, since expired entries keep theirs, and no bound is stated.
- Acquiring resources, health checks and the locks themselves: a locked section is one step.
- Put-call ratio, IV skew and the canonicalisation of option types in the options query; rows without open interest.
- Gap finding in intraday mode, Parquet storage, and the gateway's queries, batches and streams.
- The symbol, exchange and time-frame columns of resampled and corrected tables, and the validation and normalisation of fetched rows.
- Parsing of strategy selectors, instrument lookups, strikes and expiries of particular exchanges' holidays.
- Broker connections, web sockets, command lines, HTTP handlers, analytics facades and configuration: plumbing without a hard property.
