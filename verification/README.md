# A verified model of the Basilisk indexer

The indexer feeds ClickHouse tables from the blocks of one chain. Its code is mostly input and output; what it
promises rests on a smaller set of protocols and computations. This project models those in Dafny and proves what
they keep over every run, every interleaving and every input.

## How the model is built

Two writers and their crashes. `Publication` and `RawPipeline` describe the durable tables and one process's memory as
values. An insert statement is atomic, and a parameter `left` counts the statements the server still completes
before the process is cut off, so every crash point is one value of `left`. `PublicationWriter` and `RawWriter`
hold the classes whose methods do the inserting; every method is tied to the corresponding function, and
`PublicationRuns` and `RawRuns` prove the run properties about those functions, `PublicationProgress` and
`RawProgress` that a crash can always be made up for. What a block's rows are is a parameter of a run. For the
price writer that parameter also takes the number of the process, because carried-forward prices and upgrade rows
depend on what the process has seen; for the raw writer rows are a function of the block.

Prices. `Xyk` is the whole-number pool arithmetic and the two price scales, `PriceResolution` builds the graph and
publishes prices, `BreadthFirst` and `PathSearch` are the two searches, each measured against a set defined without a
search (`PriceGraph.Crossings`, `Routes.RoutesTo`), `PathShelf` is the bounded list of one asset's observations, and
`Median` is the weighted median. The entries a path search queued are part of its result: they account for the
liquidity, that is the weight, of every observation.

Volumes. `VolumeTotals` says what a list of trades is worth, asset by asset, in exact numbers. `VolumeLive` and
`VolumeRepair` are the two pipelines, written separately as in the source, and both are proved against that statement,
text for text. `SwapDecoding` holds the two decoders, `LegValue` the two valuations, and `VolumeReplacement` the
rewriting of the stored rows.

Ranges. `RangeMerging` and `Islands` work on plain lists of ranges; `RangeLedger` and `RangeWriter` are the status
table, its writers and the hash chain across finalizations.

Reads, caches and derived tables. `Workers` is the shared counter under every choice of who moves next; `BatchedReads`
and `BalanceReads` sit on it. A handler writes synchronously when its one read resolves, so effects are applied in
completion order. `Reference`, `ReferenceRuns` and `ReferenceService` are the KSM/USD index and service, `PoolCache`
the pool composition cache and the part of the block loop around it, `LpShares` and `AtomicReplace` the derived
tables, `Calendar` the month partitions, `SqlSplit` the statement splitter.

Behind the keys, weights and scanners. `PublishedRows` restates what the price writer keeps in the columns of its rows,
`SqlTexts` what the splitter does as laws about whole texts. The same is done beside the definitions for graph edges
(in reserves and decimals), medians (in liquidity), flush decisions (in blocks, rows and time), leg values (by
inequalities between whole numbers) and decoded trades (by asset and amount).

`Arithmetic`, `BlockRanges`, `Decimals`, `Options` and `Sorting` are shared. Integers are unbounded, as `bigint` is
in the source; block heights and days stay far below the widths of their columns.

## What the proofs found

Each point is stated as a condition, with the member that proves it.

- The candle views skip rows whose timestamp is zero (`clickhouse/schema/003_materialized_views.sql:41-48`), while the
  writer accepts timestamp zero at block 0. An accepted price row is in no candle exactly when its height and its
  timestamp are both zero (`PublicationSafety.InNoCandleExactly`, `PublicationSafety.GenesisPriceReachesNoCandle`);
  candle totals are the sums over price rows with a positive timestamp.
- Without a checkpoint `connect` reports head 0, so block 0 is fed exactly to writers that start at genesis
  (`PublicationRuns.BlockZeroIsFedExactly`).
- Once a deferring writer has published by reaching its block, later batches are staged again, and no number of them
  changes the tables or the checkpoint; only an explicit call does (`PublicationRuns.PublishedWriterOnlyStages`).
- The status page's islands query takes a running maximum of zero for "no earlier range". With a completed range 0-0,
  no other range from block 0, and ranges from block 1 that run unbroken to the end, it reports the stretch as
  beginning at block 1. `Islands.AnswerIsLastMerged` shows this is the only shape it gets wrong.
- The adjacency check of a finalization reads one completed range per boundary. Abutting completed ranges are linked
  throughout a run exactly when, at every finalization that succeeds, the completed ranges on either side of it agree on
  the hash at the boundary (`RangeLedger.AbuttingRangesAreLinked`). Two pipelines that finalize one block before and
  after it is replaced break the chain (`RangeLedger.TwinsBreakLinks`).
- A reload of the reference that is answered before a settle and taken in after it makes the index forget the settled
  day. A cycle can rewrite a stored close exactly when the hourly gate is open and the index has lost a recent one
  (`ReferenceRuns.CycleKeepsClosesExactly`); the index equals the table throughout a run exactly when every reload it
  takes in has read all that is stored (`ReferenceRuns.IndexIsTableExactly`). `ReferenceRuns.OverlappingReloadRewrites`
  is a run in which a close is rewritten, although a comment in the service says that it is written once.
- `priceTo24` pads a fraction to twelve digits but does not cut a longer one. A price text survives the trip to 24
  decimals and back exactly when it is canonical (`Xyk.PriceTextSurvivesExactly`).
- Beyond eighteen decimals the normalized reserve is rounded. The computed side of a pool is valued at most as high as
  the known side, for all reserves and prices, exactly when the known asset has at most eighteen decimals
  (`Xyk.ConservativeExactly`).
- The repair reads events whose runtime has no matching codec, which the live pipeline skips
  (`SwapDecoding.DecodersAgreeExactly`). The two pipelines file a block alike under every key exactly when each of its
  swap events has a codec, a shape neither decoder reads, or no legs (`VolumeRepair.SameEventsSameFiling`).
- A repair deletes a row with volume but without a positive price, and does not write it back
  (`VolumeReplacement.PricesHoldRecomputedVolumes`). Its deletes and inserts are separate statements: stopped between
  them, the next attempt refuses exactly when a deleted row is one to be corrected, because the price is gone with the
  row (`VolumeReplacement.StoppedRepairRefusesExactly`).
- Merging volumes into price rows repeats an asset's volume if two price rows name it (`VolumeMerge.MergeKeepsTotals`).
- `Date.UTC` takes the years 0 to 99 for 1900 to 1999. A partition text of such a year has the blocks of that
  month of the 1900s, except `009912`: its range ends before it begins (`Calendar.TwoDigitYears`).
- With no worker at all `forEachConcurrent` completes without handling anything (`Workers.ForEachConcurrent`); the
  configured concurrencies are positive.

## Model

| member | source | states |
|---|---|---|
| PublicationRuns.EveryRunIsSafe | src/store/clickhouseStore.ts:344-402 | over every run of connects, batches, deferred publications and crashes at any insert: no probed key is stored twice, every candle is the sum of its price rows, every price row follows its block row, the checkpoint passes no block that is not fully published, and memory holds what is still owed |
| PublicationRuns.StepKeepsInvariant | src/db/database.ts:29-85 | every single connect, transact, publication or crash, cut off anywhere, keeps that invariant; a publication that fails may leave the process alive to try again |
| PublishedRows.EveryRunPublishesRows | src/store/clickhouseStore.ts:41-69 | in the columns of the rows: after every run each row that some process made for a block up to the checkpoint has a row with the same height, asset and height, asset, height and account, or other identifying columns; no two block, price, trade or upgrade rows share theirs; every price row follows a row of its block |
| PublishedRows.EveryCrashIsRecoverableInRows | src/db/database.ts:29-85 | one restart that is not cut off stores, in that sense, every row of every block up to the batch's last |
| PublishedRows.UniqueKeepsTheLast | src/store/clickhouseStore.ts:33-39 | de-duplication keeps exactly the last row for each combination of those columns, and one of each |
| PublishedRows.InsertWritesExactly | src/store/clickhouseStore.ts:219-240 | an insert refuses when a row to be written is a price without a usable time, and otherwise appends exactly the last row of each combination, where blocks, prices, trades and upgrades must be new to the table |
| PublicationRuns.ReadersSeeEachKeyOnce | src/store/clickhouseStore.ts:145-217 | after every run a candle equals the sum over the rows a reader of the replacing prices table sees, and every block up to the checkpoint has its block row |
| PublicationProgress.EveryCrashIsRecoverable | src/db/database.ts:29-85 | whatever was cut off before, one restart that is not cut off, fed rows with valid timestamps, publishes every block up to the batch's last and moves the checkpoint there, deferring or not |
| PublicationProgress.InsertTablesCompletes | src/store/clickhouseStore.ts:353-398 | rows with valid timestamps are all written when the server completes one statement a row |
| PublicationProgress.DeferredBatchPublishesExactly | src/db/database.ts:50-69 | an uncut batch of a deferring writer publishes everything deferred exactly when it is the first to reach the publishing block; otherwise it only waits in memory |
| PublicationRuns.CandlesMatchFinalView | clickhouse/schema/003_materialized_views.sql:41-48 | with no probed key stored twice, the additive sum over inserted rows equals the sum over the table read with one row per key |
| PublicationRuns.BlockZeroIsFedExactly | src/db/database.ts:29-48 | over every run, a process that connects is fed block 0 exactly when its writer starts at genesis |
| PublicationRuns.PublishedWriterOnlyStages | src/db/database.ts:50-69 | after a deferring writer has published, no sequence of batches changes the tables or the checkpoint |
| PublicationSafety.InNoCandleExactly | clickhouse/schema/003_materialized_views.sql:41-48 | an accepted price row belongs to no candle exactly when it is at height 0 with timestamp zero |
| PublicationSafety.GenesisPriceReachesNoCandle | src/store/clickhouseStore.ts:219-240 | such a row is accepted and becomes visible while every candle stays as it was |
| PublicationSafety.InsertRowsSafe | src/store/clickhouseStore.ts:219-240 | one probe-then-insert adds exactly the absent keys, leaves candles equal to sums, and on failure leaves the tables as they were |
| PublicationSafety.InsertChunksSafe | src/store/clickhouseStore.ts:242-342 | a chunked flush cut off at any chunk keeps soundness and, when it completes, holds every key of its rows |
| PublicationSafety.StatementsAreBounded | src/store/batch.ts:7-12 | a flush writes at most a chunk's worth of rows with every statement it uses |
| PublicationSafety.InsertTablesSafe | src/store/clickhouseStore.ts:353-398 | writing blocks before prices, tables in order, keeps every visible price's block row present at every cut |
| PublicationSafety.UniqueByKeyIsKeyed | src/store/clickhouseStore.ts:33-39 | the deduplicated rows have distinct keys and exactly the keys of the input |
| PublicationWriter.UniqueRowsByKey | src/store/clickhouseStore.ts:33-39 | the map-based loop keeps the first occurrence's place and the last occurrence's row |
| PublicationWriter.ClickHouseStore.InsertRows | src/store/clickhouseStore.ts:219-240 | the probing method's tables, remaining statements and outcome are those of the insert function |
| PublicationWriter.ClickHouseStore.FlushTable | src/store/batch.ts:7-12 | the index loop writes one bounded chunk a statement and stops at the first failure |
| PublicationWriter.ClickHouseStore.StageCurrentBatches | src/store/clickhouseStore.ts:344-351 | every buffer moves to the end of its deferred list and empties |
| PublicationWriter.ClickHouseStore.PublishDeferred | src/store/clickhouseStore.ts:353-381 | deferred rows are written in table order and dropped only when every table took them |
| PublicationWriter.ClickHouseStore.FlushAll | src/store/clickhouseStore.ts:386-398 | staged when deferring, written in order otherwise; the buffers are empty either way |
| PublicationWriter.Database.Connect | src/db/database.ts:29-48 | the height a process resumes after: -1 for a genesis start, else the checkpoint, else 0 |
| PublicationWriter.Database.Transact | src/db/database.ts:50-69 | flush before checkpoint; when deferring, the pending checkpoint only grows and the first batch to reach the publishing block publishes |
| PublicationWriter.Database.PublishDeferred | src/db/database.ts:71-85 | the pending checkpoint is saved only after every deferred row was written |
| RawRuns.EveryRunIsSafe | src/raw/database.ts:42-107 | over every run with crashes: all rows of all blocks from the start to the checkpoint are durable in their tables, memory is exactly the contiguous run of blocks above it, and a finalized range is durable to its end |
| RawRuns.StepKeepsInvariant | src/raw/database.ts:34-89 | each connect, batch, resumed finalization or crash, cut off at any insert, keeps that invariant |
| RawRuns.FlushMakesRunDurable | src/raw/store.ts:216-227 | a flush of the buffered run is harmless wherever it is cut off and makes every block of the run durable when it is not |
| RawRuns.PendingIsBounded | src/raw/flushPolicy.ts:71-78 | between batches fewer blocks than the block limit and, in every table, fewer rows than the row limit are pending |
| RawRuns.RecoveredEqualsUninterrupted | src/raw/database.ts:128-137 | two runs of the same chain, however batched, flushed, cut off and resumed, have equal tables once both rest at the same height |
| RawProgress.RecoveryReachesUninterruptedResult | src/raw/database.ts:42-107 | after any crashes, one restart that is not cut off, to the head or to the end of the range, leaves exactly the tables of a run that never crashed |
| RawProgress.EveryCrashIsRecoverable | src/raw/database.ts:34-89 | such a restart brings the writer to rest at the batch's last block, whether that is the head or the end of the range, and finalizes a range that ends there |
| RawProgress.BatchFlushesExactly | src/raw/flushPolicy.ts:71-78 | an uncut batch empties the buffers, makes all blocks to its last durable and saves the checkpoint there exactly when it is at the head, ends the range, makes as many blocks pending as the block limit or in some table as many rows as the row limit, or comes after the time limit; otherwise the tables stay and the rows wait |
| RawProgress.InvalidNeverFinalizes | src/raw/database.ts:75-89 | a batch or a resumed range whose validation fails never finalizes the range |
| RawProgress.FlushCompletes | src/raw/store.ts:216-227 | a flush needs no more statements than rows wait in its tables |
| RawRuns.ByteChunksAreGreedy | src/raw/store.ts:147-176 | each balance chunk has at most the row limit and, unless it is one row, at most the byte limit, summed over the rows' sizes; no chunk could have taken the next chunk's first row |
| RawRuns.CountChunksAreFull | src/raw/store.ts:114-125 | the other tables' chunks are full but for the last, which is not empty |
| RawWriter.RawClickHouseStore.ByteChunked | src/raw/store.ts:147-176 | the loop over the current chunk and its bytes produces those chunks |
| RawWriter.RawClickHouseStore.FlushBatch | src/raw/store.ts:114-125 | one table's buffer is written chunk by chunk and left empty |
| RawWriter.RawClickHouseStore.PendingRows | src/raw/store.ts:201-214 | the largest single table's buffer |
| RawWriter.RawClickHouseStore.FlushAll | src/raw/store.ts:216-227 | the ten tables are drained in order |
| RawWriter.RawDatabase.Transact | src/raw/database.ts:42-89 | buffers are kept when no trigger fires; otherwise flush, checkpoint and, at the range's end, finalization, in that order |
| RawWriter.RawDatabase.Connect | src/raw/database.ts:128-137 | a range from block 0 without a checkpoint resumes at -1; anything else at the checkpoint or 0 |
| Xyk.PriceThereAndBack | src/price/graph.ts:342-371 | pricing across a pool and back never exceeds the start price and falls short by less than one plus the pool's exchange ratio |
| Xyk.ComputedSideIsConservative | src/price/graph.ts:46-59 | with at most eighteen decimals the computed side's USD liquidity never exceeds the known side's |
| Xyk.MoreDecimalsOverstate | src/price/graph.ts:29-36 | for every number of decimals beyond eighteen there is a pool and a price whose computed side claims more than the known one |
| Xyk.ConservativeExactly | src/price/graph.ts:29-59 | over all reserves, other sides and prices, the computed side never claims more exactly when the known asset has at most eighteen decimals |
| Xyk.PriceTextRoundTrip | src/price/graph.ts:304-315 | canonical twelve-decimal texts survive the trip to 24 decimals and back |
| Xyk.PriceNumberRoundTrip | src/price/graph.ts:304-315 | the reverse trip loses exactly the part below the twelfth decimal |
| Xyk.PriceTextSurvivesExactly | src/price/graph.ts:304-315 | a price text comes back as it was exactly when it is canonical |
| PriceResolution.BuildGraph | src/price/graph.ts:317-383 | every asset's list is its usable pools' edges, sorted stably by liquidity |
| PriceResolution.EdgesAreThePools | src/price/graph.ts:331-380 | an edge leaves an asset exactly when a usable pool trades that way, and deeper pools come first |
| PriceResolution.EdgesInNumbers | src/price/graph.ts:342-371 | in reserves and decimals: what each of a pool's two edges makes of a price is that price times the known reserve over the other, at equal decimals, rounded down; its depth is the smaller of the two sides' USD values at eighteen decimals; lists are sorted by the sum of both reserves at eighteen decimals |
| PriceResolution.GraphPricesPools | src/price/graph.ts:331-380 | every edge of the graph prices that way across some pool with two reserves and known decimals |
| PriceResolution.PoolsHaveEdges | src/price/graph.ts:331-380 | every such pool has an edge each way |
| PriceResolution.CrossingBackNeverGains | src/price/graph.ts:342-371 | the two edge closures of one pool, composed either way, never raise a price |
| PriceResolution.ResolvePrices | src/price/graph.ts:396-442 | seeds keep their texts, every other published asset has the text of a weighted median of its observed routes, whose weights are accounted for by the crossings of the search and clear the liquidity floor; nothing unlisted is published, and an asset is published exactly when it is a seed or was observed |
| PriceResolution.ObservedRoutes | src/price/graph.ts:396-442 | the routes observed cross one to three pools, begin at a seed, meet no other seed and no asset twice, clear the liquidity floor, and are at most as many as allowed |
| BreadthFirst.BfsResolvePrices | src/price/graph.ts:108-149 | seeds are never overwritten, every result lies at the end of a walk of its hop count that enters no anchored asset, and when no price rounds to zero every asset within the hop limit is resolved at its shortest distance |
| BreadthFirst.ClosedIsComplete | src/price/graph.ts:128-146 | a drained queue with every edge done leaves nothing within the hop limit unresolved |
| PathSearch.SearchPaths | src/price/graph.ts:216-248 | the search ends; every observation is the nonzero fold of edge prices along a simple path from a seed with hops one less than its length and liquidity above the floor; lists stay within the cap and equal their index; every queued entry is a crossing out of an earlier one and every listed liquidity is brought by crossings; with threshold zero and room for all, the observed routes are exactly all such routes |
| PathSearch.ListedLiquidity | src/price/graph.ts:227-246 | an observation's weight is at least the floor and, when nothing is evicted, exactly the sum over all crossings to its route of the smaller of the crossing entry's liquidity and the pool's depth; eviction only lowers it |
| PathSearch.EntriesCrossPools | src/price/graph.ts:221-247 | every queued entry is a seed or lies across one pool from an earlier entry, at that pool's nonzero price, with the smaller of the two liquidities, at an asset neither seeded nor on its way |
| PathSearch.ArrivalKeepsLedger | src/price/graph.ts:221-247 | one arrival enters its liquidity under its own key, and queues an entry only, when nothing is evicted, for the first crossing to a key |
| PathSearch.ExpansionReducesWork | src/price/graph.ts:216-248 | replacing an entry by its extensions lowers the sum of (D+1)^(maxHops - hops) over pending entries |
| PathShelf.AddObservation | src/price/graph.ts:174-214 | an equal key adds liquidity to the observation already listed; a new one is inserted in order and the list cut to the cap; the index holds exactly the listed observations; the verdict says whether a new observation stayed |
| PathShelf.AddingCreditsOneKey | src/price/graph.ts:174-190 | unless something is evicted, an observation adds its liquidity to its own key, once, and to no other key, merged or listed anew |
| Sorting.SortedIsStable | src/price/graph.ts:193-201 | the runtime's sort keeps the order of elements that its comparison does not tell apart |
| PathShelf.EvictsTheShallowest | src/price/graph.ts:191-211 | what is evicted has no more liquidity than what stays; with as much, no fewer hops; with as many, no lower price |
| PathSearch.ResolveByWeightedMedian | src/price/graph.ts:250-267 | seeds over a weighted median for every observed asset, and nothing else; the weights are those the search accounts for |
| Routes.RoutesAreSimplePaths | src/price/graph.ts:216-248 | the reference set: routes start at a seed, repeat no asset, enter no anchored asset, and have one more asset than crossings |
| Median.WeightedMedian | src/price/graph.ts:68-98 | the scan picks an observation at which the running weight first reaches half the total, and nothing for an empty list |
| Median.MedianInLiquidity | src/price/graph.ts:73-95 | an observation is a median exactly when the liquidity before it, in order of price, hops and falling liquidity and counting none below one, is less than half the total rounded up, and with it and its ties at least that |
| Median.HeaviestIsMedian | src/price/graph.ts:81-95 | an observation with more liquidity than all others together is the median |
| Median.MedianIgnoresOrder | src/price/graph.ts:68-98 | reordering the observations does not change which are medians |
| Median.MedianIsUnique | src/price/graph.ts:68-98 | two medians agree in price, hops and liquidity |
| Median.MedianIsRobust | src/price/graph.ts:68-98 | if more than half the liquidity, counting none below one, is priced within bounds, so is the median |
| Decimals.ScaledRoundTrip | src/blocks/volumeMath.ts:3-18 | parsing undoes formatting on all integers, negative ones included |
| VolumeMath.FieldSumsAreExact | src/blocks/volumeMath.ts:20-42 | summing four texts is summing the four numbers they stand for |
| VolumeMath.TextsAreFaithful | src/blocks/volumeMath.ts:12-18 | different numbers have different texts |
| VolumeMath.Aggregate | src/blocks/volumeMath.ts:44-60 | one entry for every key that has a row, with the exact sums and counts of its rows |
| SwapDecoding.DecodersAgreeExactly | src/scripts/tradeEventDecoder.ts:82-145 | of a swap event, named, tuple, inverted or broadcast, the two decoders make the same exactly when a codec matches it or its shape goes with no event of its name; otherwise only the repair reads a trade |
| SwapDecoding.TradingEvents | src/registry/swapEvents.ts:280-290 | the events that count, by name: two unified ones from spec 124 on, four per-pallet ones before it |
| SwapDecoding.LegacyTrades | src/blocks/extractVolume.ts:397-434 | what each per-pallet event trades, asset by asset and amount by amount, with the exchanged amounts of an LBP buy put right |
| SwapDecoding.BroadcastTrades | src/blocks/extractVolume.ts:467-512 | a unified event trades what it lists, except that an exact-out fill of one asset by another in an XYK or LBP pool has its two amounts exchanged |
| SwapDecoding.TraderIsItsText | src/scripts/tradeEventDecoder.ts:36-43 | the trader is the text given, plain or wrapped, unless it is empty |
| LegValue.PriceParsersAgree | src/blocks/extractVolume.ts:123-130 | what the strict price parser accepts, the lenient one reads alike |
| LegValue.StrictPrices | src/blocks/extractVolume.ts:123-130 | the texts read as prices are digits, alone or followed by a dot and one to twelve more, and each is read as the number it is the notation of, times ten to the twelfth |
| LegValue.NoLegIsSelfConversion | src/blocks/extractVolume.ts:57-82 | the self-conversion filter never drops a leg |
| LegValue.LiveIsWorth | src/blocks/extractVolume.ts:84-185 | the live value of a leg is the text of amount times price over ten to the decimals, rounded down, and zero without a price or decimals |
| LegValue.LiveRefusesExactly | src/blocks/extractVolume.ts:147-185 | the live pipeline throws on a leg exactly when a nonzero amount meets a malformed price |
| LegValue.RepairIsWorth | src/scripts/repair-volume.ts:218-260 | a leg the repair values has the same text |
| LegValue.LegTextsAreValues | src/blocks/extractVolume.ts:147-185 | the number behind the text that either pipeline writes for a leg is amount times price over ten to the asset's decimals, rounded down, by two inequalities; zero without a positive price or without decimals |
| LegValue.RepairRefusesExactly | src/scripts/repair-volume.ts:218-236 | the repair throws on a leg exactly when a nonzero amount of a listed asset has no positive price or a priced asset has no decimals |
| VolumeTotals.AccountRowsAddUpToMarketRow | src/blocks/extractVolume.ts:526-648 | of the rows the two extractions return: the texts of an asset's account rows in a block, summed, and what was traded without a trader give the very texts of its market row |
| VolumeTotals.VolumeIsConserved | src/blocks/extractVolume.ts:526-648 | behind the texts: a block's volume of an asset, on each side and in both units, is the sum over its traders plus the trades without a trader |
| VolumeTotals.InputsAreSold | src/blocks/extractVolume.ts:217-261 | of a trade, an asset is sold by what its inputs amount to and are worth, and bought by what its outputs are |
| VolumeRows.AggregateCovering | src/blocks/extractVolume.ts:733-751 | aggregating unaggregated rows that cover the trades gives a row for exactly the touched keys, with exact sums |
| VolumeLive.TradeToVolumeRows | src/blocks/extractVolume.ts:217-261 | one trade's market rows add up to what it is owed; it fails exactly when a leg is refused |
| VolumeLive.ExtractVolumeFromSwaps | src/blocks/extractVolume.ts:526-554 | a block's market rows cover the trades of its swap events |
| VolumeLive.TradeToAccountVolumeRows | src/blocks/extractVolume.ts:556-617 | one trade's account rows, one an asset with count one, hold what it is owed; a trade without a trader has none |
| VolumeLive.ExtractTradeVolumeFromSwaps | src/blocks/extractVolume.ts:625-648 | the aggregated account rows are exactly what the block's trades are owed |
| VolumeMerge.MergePriceAndVolumeRows | src/blocks/extractVolume.ts:667-722 | price rows in order with their volumes, then one row for every other traded asset |
| VolumeMerge.MergeKeepsTotals | src/blocks/extractVolume.ts:667-722 | a traded asset's total ends up in exactly one row if and only if at most one price row names the asset |
| VolumeMerge.MergeAddsNothing | src/blocks/extractVolume.ts:694-712 | the row of an untraded asset is one of its price rows, unchanged |
| VolumeRepair.RowsForTrade | src/scripts/repair-volume.ts:335-409 | market and account rows of one trade hold what it is owed; it fails exactly when a leg is refused |
| VolumeRepair.RepairChunk | src/scripts/repair-volume.ts:728-767 | both aggregates over a stretch of blocks are exactly what its trades are owed; it fails exactly on a block without a snapshot or a refused leg |
| VolumeRepair.RepairEqualsLivePipeline | src/scripts/repair-volume.ts:335-431 | for the same events, price values and decimals, a key has the same row after a repair as live, the same four texts and the same count, exactly when no trade without a codec is filed under it, or, for a market row that exists anyway, when those trades are worth nothing |
| VolumeRepair.SameEventsSameFiling | src/scripts/tradeEventDecoder.ts:121-145 | decoding, filtering and filing a block by either pipeline give the same totals and counts under every key exactly when each of its swap events has a codec, a shape neither decoder reads, or no legs |
| VolumeRepair.RepairFilesMissedToo | src/scripts/repair-volume.ts:335-431 | in general the repair's totals and counts are the live ones plus those of the trades without a codec |
| VolumeReplacement.PricesHoldRecomputedVolumes | src/scripts/repair-volume.ts:433-462 | after a repair every price row in scope holds exactly the recomputed volumes, zero where nothing was traded; prices, hops and all other rows stay, and only rows read back without a positive price disappear |
| VolumeReplacement.RepairRefusesPricesExactly | src/scripts/repair-volume.ts:443-446 | the repair refuses exactly when something was traded of a wanted asset where no positive price is stored |
| VolumeReplacement.RepairIsIdempotent | src/scripts/repair-volume.ts:770-797 | repairing the repaired table again changes nothing |
| VolumeReplacement.StoppedRepairRefusesExactly | src/scripts/repair-volume.ts:793-796 | after a stop among its deletes, the next attempt refuses exactly when a corrected row was already deleted |
| VolumeReplacement.AccountsAreRecomputed | src/scripts/repair-volume.ts:784-791 | the account rows in scope become exactly the recomputed ones; no other changes |
| VolumeReplacement.RowsReadBack | src/scripts/repair-volume.ts:622-687 | the price rows a repair reads back: of known blocks, those in scope that hold a volume, and those of an asset traded somewhere in a block where something was |
| RangeMerging.MergeRawRanges | src/raw/ranges.ts:339-353 | the heights are kept for any input, and for non-empty ranges the result is sorted with a gap between neighbours |
| BlockRanges.CanonicalIsUnique | src/raw/ranges.ts:339-353 | equal sets of heights have equal canonical lists |
| RangeMerging.MissingRawCoverage | src/raw/ranges.ts:379-401 | exactly the sorted complement of the completed ranges inside the window |
| RangeMerging.GetCompletedRawRanges | src/raw/ranges.ts:355-377 | exactly the covered heights of the window, merged |
| RangeMerging.AssertFinalizedRawCoverage | src/raw/ranges.ts:403-419 | accepted exactly when every height of the window is covered |
| Islands.AnswerIsLastMerged | api/src/routes/indexer.ts:123-168 | the window query returns the last merged range if and only if the table is not a lone block 0 followed by an unbroken stretch from block 1 |
| Islands.LastIslandIsAnswer | api/src/routes/indexer.ts:123-168 | on every non-empty table the query has an answer: the last island, from its first row to the highest block of all |
| Islands.SplitHappens | api/src/routes/indexer.ts:135-142 | ranges 0-0 and 1-9 merge to 0-9, and the query answers 1-9 |
| RangeLedger.FinalizesExactly | src/raw/ranges.ts:183-337 | a range is completed exactly when every height is present, every inner parent link holds and both recorded neighbours agree; its row then records its ends, its width and no broken link |
| RangeLedger.FullCountMeansAllPresent | src/raw/ranges.ts:183-198 | as many distinct heights as the range is wide, if and only if all of them are there |
| RangeLedger.CompletedRangesWereIntact | src/raw/ranges.ts:289-337 | over every run of the status writers and raw writes, each completed row was written at a moment its range was intact |
| RangeLedger.CompletedStays | src/raw/ranges.ts:139-181 | no mark and no failed finalization undoes a completed range |
| RangeLedger.MarksRunning | src/raw/ranges.ts:139-156 | a range that is not completed becomes running, with its width expected and nothing found; nothing else changes |
| RangeLedger.MarksFailed | src/raw/ranges.ts:158-181 | a range that is not completed becomes failed and the log gains its failure; a completed one and the log stay |
| RangeWriter.RangeTables.MarkRawRangeRunning | src/raw/ranges.ts:139-156 | the tables are those of the marking function, and a completed range is left alone |
| RangeLedger.FinishKeepsLinksExactly | src/raw/ranges.ts:244-287 | a finalization keeps abutting completed ranges linked last hash to first parent hash exactly when the completed ranges that end just below it agree on their last hash and those that start just above it on their parent hash |
| RangeLedger.AbuttingRangesAreLinked | src/raw/ranges.ts:244-287 | over every run, abutting completed ranges are linked at all times exactly when every finalization that succeeds meets that condition |
| RangeLedger.TwinsBreakLinks | src/raw/ranges.ts:251-262 | a run from empty tables in which two pipelines finalize one block before and after it is replaced, and a third finalization that succeeds is not linked to one of them |
| RangeWriter.RangeTables.MarkRawRangeFailed | src/raw/ranges.ts:158-181 | a range that is not completed becomes failed and the failure is logged; a completed one is left alone |
| RangeWriter.RangeTables.FinalizeRawRange | src/raw/ranges.ts:289-337 | the tables and the verdict are those of the finalization function |
| LpShares.TotalSharesAreHolderSums | api/src/derivations/jobs.ts:413-432 | at every emitted block the running sum of lag deltas equals the sum over holders of their balance at the highest block, and there the highest id, observed at or before it |
| LpShares.UptoIsHolderSum | api/src/derivations/jobs.ts:417-422 | the deltas up to any block telescope to the balances at it |
| LpShares.RunningIsUpto | api/src/derivations/jobs.ts:423-426 | grouping by block and summing in order adds up all deltas up to the block |
| AtomicReplace.LiveIsOneCompleteRun | api/src/derivations/jobs.ts:81-95 | whatever attempts died at whichever statement, the live table is the rows of the latest attempt that reached its swap, and nothing else |
| AtomicReplace.Publisher.AtomicFullReplace | api/src/derivations/jobs.ts:81-95 | truncate, fill, swap, truncate: both tables after any number of completed statements |
| AtomicReplace.Publisher.WriteBatches | api/src/derivations/jobs.ts:374-383 | the batched insert loop stages exactly a prefix of whole batches, or all rows |
| Workers.ForEachConcurrent | src/util/collections.ts:7-18 | under every choice of the next worker to move, each index is handled exactly once and at most `concurrency` are in flight |
| BatchedReads.ChunkIndexed | src/raw/snapshot.ts:27-33 | every item is in a chunk under its own index, and no chunk is empty or too long |
| BatchedReads.GetManyChunked | src/raw/snapshot.ts:35-49 | whatever the interleaving, the values are one pointwise read of all keys |
| BatchedReads.ReadXykPoolReserves | src/pool/reserves.ts:34-97 | each leg gets what a lookup of its own would return, the native default included; it fails exactly when a needed storage item is missing |
| BatchedReads.NativeIsAssetZero | src/pool/reserves.ts:34-97 | asset 0 is read from the accounts and always has a reserve, every other asset from the tokens |
| BalanceReads.BuildRowsFromCandidates | src/raw/balance.ts:721-835 | batched or grouped, whatever the interleaving and even after a failed page, the result is that of looking up each distinct candidate in order of first appearance |
| BalanceReads.ReadsInOrder | src/raw/balance.ts:721-835 | the rows of a longer list are those of its parts in its order: an observation for each balance found, a warning for each that is not |
| BalanceReads.NativeIsAssetZero | src/raw/balance.ts:573-578 | asset "0" is read from the accounts, every other asset from the tokens |
| BalanceReads.FirstAppearancesAreDistinct | src/raw/balance.ts:732-737 | one candidate for each observation id that occurs |
| BalanceReads.ReadBalancesBatched | src/raw/balance.ts:660-670 | the merged map holds every candidate's own lookup; it fails if a lookup would |
| BalanceReads.ReadPages | src/raw/balance.ts:610-622 | concurrent pages write each key's value to exactly its ids |
| BalanceReads.GroupedReads | src/raw/balance.ts:767-834 | one lookup a group of equal candidates gives every one of them its own result in its own place |
| Calendar.PartitionBlockRangeInverts | api/src/services/accountTradeVolume.ts:102-113 | for every month from 1970 to 9999, written as a partition text, a block is in the range exactly when the civil month of its synthetic time is that partition |
| Calendar.RangeIsPartition | api/src/services/accountTradeVolume.ts:102-113 | the same for every year from 1970 on, before texts |
| Calendar.MonthsTile | api/src/services/accountTradeVolume.ts:102-113 | every block is in its own month's range and in no other month's |
| Calendar.MonthsAbut | api/src/services/accountTradeVolume.ts:102-113 | each month's range ends where the next begins, none is empty, and the first begins at block 0 |
| Calendar.DayIsInMonth | api/src/services/accountTradeVolume.ts:102-113 | year and month of a day, as section 21.4.1 of ECMA-262 defines them, are those between whose first days it lies |
| Calendar.StalenessBoundAgrees | api/src/derivations/jobs.ts:149-179 | the staleness query's first block of a partition is the same block |
| Calendar.MonthLengths | api/src/services/accountTradeVolume.ts:102-113 | the months have their civil lengths, leap years included |
| Calendar.SixCharactersAreRead | api/src/services/accountTradeVolume.ts:103-104 | only the first six characters of a partition text matter |
| Calendar.TwoDigitYears | api/src/services/accountTradeVolume.ts:108-112 | months of the years 0 to 99 have the blocks of the same months of 1900 to 1999, except December of 99, whose range is inverted |
| Reference.KsmReferenceIndex.PutRow | src/price/reference.ts:157-167 | the day list stays the strictly sorted key set of the closes, and the contents change by that row only |
| Reference.KsmReferenceIndex.LowerBound | src/price/reference.ts:185-195 | the binary search splits the days at the first one not before the given day |
| Reference.KsmReferenceIndex.LatestSettledBefore | src/price/reference.ts:198-202 | the newest close strictly before a day, and nothing exactly when there is none |
| Reference.KsmReferenceIndex.Lookup | src/price/reference.ts:222-241 | the one anchor that the plain rule admits: the own day's live row inside the window, else the newest earlier close within the staleness bound |
| Reference.WindowInMilliseconds | src/price/reference.ts:222-241 | the live row of the own day answers up to the last millisecond of the window, and after it only a close of an earlier day within the staleness bound |
| Reference.DayOfTime | src/price/reference.ts:84-86 | a day is 86400 seconds from time zero |
| ReferenceRuns.CycleKeepsClosesExactly | src/price/referenceService.ts:191-237 | whatever the source offers, a cycle rewrites no stored close exactly when the hourly gate is closed or the index holds every stored close of a recent ended day |
| ReferenceRuns.StoredClosesAreNeverRewritten | src/price/referenceService.ts:191-237 | over every run of polls, settles, reloads and restarts whose cycles meet that condition, overlapping reloads included, a stored close is never rewritten or lost |
| ReferenceRuns.IndexIsTableExactly | src/price/referenceService.ts:153-156 | the index holds exactly the stored closes throughout a run if and only if every reload it takes in has read all that is stored by then; every cycle then meets the condition |
| ReferenceRuns.AnswersAreReplayable | src/price/referenceService.ts:164-177 | in such a run a block outside the live window whose previous day's close the index holds gets the same answer at a later point if and only if the index holds a close for that day then |
| ReferenceRuns.WholeReloadsAnswerAlike | src/price/referenceService.ts:164-177 | with whole reloads, once the previous day's close is stored the answer never changes |
| ReferenceRuns.AnchorIsFinalExactly | src/price/reference.ts:222-241 | outside the live window an answer can never change again if and only if the previous day's close is stored |
| ReferenceRuns.CompletedCycleSettles | src/price/referenceService.ts:191-237 | a cycle in which everything succeeds stores exactly the recent ended days the source offers and the table lacks, and today's live row |
| ReferenceRuns.CycleEffects | src/price/referenceService.ts:191-237 | a cycle without a price, or whose live row is not stored, changes nothing; any other stores today's live row, tries to settle exactly when one of the last thirty days is missing and the last try is an hour old, notes the try even if it fails, and stores closes only if it succeeds |
| ReferenceRuns.OverlappingReloadRewrites | src/price/referenceService.ts:153-156 | a run from an empty table in which a reload overlaps a settle and the stored close is rewritten |
| ReferenceService.MissingSettledDays | src/price/reference.ts:284-294 | exactly the ended days of the window without a close, in order |
| ReferenceService.SelectRowsForDays | src/price/reference.ts:368-375 | the last row offered for each wanted day, in day order, and nothing else |
| ReferenceService.KsmReferenceService.PollOnce | src/price/referenceService.ts:191-212 | table and service after one cycle, wherever a request or insert fails |
| ReferenceService.KsmReferenceService.SettleRecent | src/price/referenceService.ts:225-237 | stores only days without a close, at most hourly, in table and index alike |
| ReferenceService.KsmReferenceService.RefreshIfStale | src/price/referenceService.ts:180-189 | the index is read anew when five minutes have passed, and a failed read keeps the rows that serve |
| ReferenceService.KsmReferenceService.SeedFor | src/price/referenceService.ts:164-177 | KSM at its anchor, or no seed at all |
| PoolCache.CachedPoolsAreTheChains | src/raw/indexer.ts:365-429 | over every run of consecutive blocks the list read at a block is, as a map, the chain's pools at that block, and absent only before the pallet exists |
| PoolCache.EventsKeepList | src/pool/compositionCache.ts:77-129 | a cache that survives a block's events has followed complete events only, one by one, creations and destructions mixed |
| PoolCache.BootstrapLists | src/pool/compositionCache.ts:150-170 | a fresh read lists every stored pool once, with its assets |
| PoolCache.ThrowsExactly | src/pool/compositionCache.ts:10-42 | a block stops the run exactly when its runtime is unchanged and one of its events has arguments no decoder reads, destroys a pool without naming it, or lacks a field while the list is still cached, or when a working storage codec is gone |
| PoolCache.PoolCompositionCache.ProcessAll | src/pool/compositionCache.ts:77-129 | fields, failure and change flag after any list of events |
| PoolCache.PoolCompositionCache.Pools | src/pool/compositionCache.ts:150-170 | the list, from storage only when nothing is cached, and the failure when support is lost |
| PoolCache.RawRun.Step | src/raw/indexer.ts:365-429 | upgrade, short-circuited event processing, flagged storage call and read, in the loop's order |
| SqlSplit.SplitSqlStatements | api/src/db/schemaBootstrap.ts:17-82 | the scanner loop returns the trimmed segments that hold SQL, and fails exactly when the scan ends inside a quote or block comment |
| SqlSplit.SegmentsRebuildInput | api/src/db/schemaBootstrap.ts:17-82 | the raw segments joined by semicolons are the input |
| SqlSplit.SegmentsHaveNoEnds | api/src/db/schemaBootstrap.ts:17-82 | no segment has a semicolon outside quotes and comments, and all but the last end outside both |
| SqlSplit.SplittingAgain | api/src/db/schemaBootstrap.ts:17-82 | splitting the returned statements, joined by newline and semicolon, returns them again |
| SqlTexts.SemicolonCuts | api/src/db/schemaBootstrap.ts:17-82 | a semicolon outside quotes and comments ends a segment, and the scan goes on behind it |
| SqlTexts.LineCommentHides | api/src/db/schemaBootstrap.ts:17-82 | everything between `--` and the end of the line is kept and cuts nothing |
| SqlTexts.LineCommentMayEnd | api/src/db/schemaBootstrap.ts:17-82 | or to the end of the text, which is no error |
| SqlTexts.BlockCommentHides | api/src/db/schemaBootstrap.ts:17-82 | everything between `/*` and the next `*/` is kept and cuts nothing |
| SqlTexts.BlockCommentMustClose | api/src/db/schemaBootstrap.ts:17-82 | without a `*/` the text ends inside the comment |
| SqlTexts.QuotesHide | api/src/db/schemaBootstrap.ts:17-82 | everything between a quote mark and the next of its kind is kept and cuts nothing |
| SqlTexts.EscapeHides | api/src/db/schemaBootstrap.ts:17-82 | inside quotes a backslash keeps the character behind it from closing them |
| SqlTexts.DoubledQuoteHides | api/src/db/schemaBootstrap.ts:17-82 | inside quotes a doubled mark does not close them |
| SqlTexts.QuoteMustClose | api/src/db/schemaBootstrap.ts:17-82 | without a second mark the text ends inside the quotes |
| SqlTexts.PlainCharacterIsKept | api/src/db/schemaBootstrap.ts:17-82 | any other character that opens nothing is kept |
| SqlTexts.TrimmedExactly | api/src/db/schemaBootstrap.ts:17-82 | what is trimmed from the ends of a statement is the white space and line ends of ECMAScript, and nothing else |

## Left out

- ClickHouse, RPC, HTTP and runner internals: tables are values, an insert is one atomic step, and a query reads the modelled table.
- Two writers for the same blocks, and two processes finalizing neighbouring ranges at once: the source's checks are read-then-write, so runs have one writer and finalization is atomic.
- The carry-forward skip of `src/indexer.ts`, the net trade-volume SQL, the OHLC repair SQL and the rollback commands.
- The meaning of `containsSql`: a parameter of the splitter, only required to reject the empty text.
- PublicationRuns.ReadersSeeEachKeyOnce: speaks of candles of any width through one bucket function; open, high, low and close prices are not modelled.
- RawRuns.EveryRunIsSafe: whether a finalization's validation passes is a parameter there; what it checks is in `RangeLedger`. Aggregate views fed by inserts into the raw tables are not modelled.
- RangeLedger.AbuttingRangesAreLinked: start and completion times of rows are not modelled.
- RangeMerging.MissingRawCoverage: says nothing of a window whose first block is above its last, or of ranges that are empty; callers pass neither.
- PathSearch.SearchPaths: with eviction it bounds the weights and does not say which routes remain; that is `PathShelf.EvictsTheShallowest`, list by list.
- PriceResolution.ResolvePrices: the diagnostic list of unpriced connected assets is not modelled; asset order in its maps is not modelled.
- VolumeMath.Aggregate: the order in which a JavaScript map returns aggregated rows is not modelled.
- VolumeRepair.RepairChunk: stored prices are taken to be well-formed decimals, as their column makes them; the asset filter and the rewriting of stored rows are in `VolumeReplacement`, where the candles that the rewritten rows feed again are left out.
- SwapDecoding.DecodersAgreeExactly: event arguments are abstract shapes; the generated codecs and JSON parsing behind them are not modelled.
- LpShares.TotalSharesAreHolderSums: is about one share token, which is how the query partitions.
- AtomicReplace.LiveIsOneCompleteRun: one publisher; the busy probe is a parameter.
- Workers.ForEachConcurrent: handlers that fail are modelled at the readers that use them, as an absent result.
- BalanceReads.BuildRowsFromCandidates: observation ids and warning texts are opaque, and the keys the source joins with colons are tuples; candidate extraction from events and calls is left out.
- Calendar.PartitionBlockRangeInverts: partition texts are digits, as the database writes them; other shapes JavaScript would read as numbers are not modelled, nor is the overflow of 32-bit timestamps in 2106.
- Reference.KsmReferenceIndex.Lookup: days are numbers; the source's ISO day texts order the same way.
- ReferenceRuns.StoredClosesAreNeverRewritten: the backfill script is another writer and is left out, as are the parsers and URLs of the price sources.
- PoolCache.CachedPoolsAreTheChains: a processor that rewinds to an earlier block is left out; the cache is not told.
- JSON shape sniffing in `src/raw/xcm.ts`, the explorer, routes and validation, argument and environment parsing, logging, and the account-affinity score in floating point.
