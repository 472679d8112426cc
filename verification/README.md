# Verified model of the two-leg arbitrage bot

The bot watches liquidity pools on Solana, looks for a token that is cheap in one pool and dear in
another, and trades both legs in one transaction through its own on-chain program. This project models
the parts of it that carry real algorithms and proves what they are for.

| module | what it models |
|---|---|
| `ClmmTicks`, `ClmmMath`, `ClmmWalk`, `ClmmQuote` | the two quotes of a concentrated-liquidity pool: the search for the next tick, one iteration, the whole walk, the quote functions |
| `ClmmTheorems`, `ClmmRoundTrip` | what the walk guarantees: splitting a swap, price bounds, the ticks crossed, swapping back |
| `OverflowHistory`, `OverflowStream` | the buffer that merges account updates while the bounded channel is full |
| `DlmmFees`, `DlmmQuote`, `DlmmTheorems` | the bin-by-bin quote of a Meteora pool and its integer fees |
| `ActivityWindow` | the pruned queue of recent events that every known pool keeps |
| `RaydiumBitmap`, `MeteoraBins` | which bit of which account says that a tick array or a bin array exists |
| `TwoHopCodec`, `TwoHopExecutor` | the instruction as the client packs it and the program reads it, and its execution on chain |
| `LookupTablePlan` | the planner that gives missing addresses to lookup tables |
| `LookupTableChunks`, `LookupTableExtender`, `LookupTableRetry` | sending a plan in chunks that may be lost, the remembered tables it is made from, and what a retry adds |
| `SendThrottle`, `PoolWatcher` | the throttle between submissions, the table of watched pools |
| `ConstantProduct` | the arbitrage quote between two constant-product pools |
| `Bytes`, `Sorting`, `Wrappers` | little-endian bytes and bits, stable sorting, option and result types |

## How the model reads the program

- Code that changes things step by step is imperative here: loops with invariants, and classes for the
  stream, the channel, the table of known pools, the byte cursor, the ledger and the watcher. Each such
  method is proved equal to a function of its inputs or of the old state, and the theorems are about
  those functions. Code made of expressions is functions.
- Quotes computed in `f64` are computed in `real`. Where the program divides by zero and later rejects
  the infinity, the model rejects the division. The square-root price of a tick is a parameter; lemmas
  that need it to be positive or increasing say so. Conversions back to integers saturate as Rust's do.
- Integers are unbounded, with saturation, wrap-around, truncating division and range checks written out
  where the program has them. Public keys and mints are strings. An account's bytes are sequences of bytes.
- A hash map yields its entries in an arbitrary order. The receiver of the channel runs at every moment at
  which it can make a difference, takes any number of updates, and may go away. The programs called by the
  two-hop executor are arbitrary functions on the whole ledger that may also fail; a failed instruction is undone.
- Clocks, account data, the results of polls and the messages of a stream are inputs.

## Findings

Some properties one would expect hold only under a condition. Each is proved with its exact condition or
with a counterexample.

- `ClmmRoundTrip.SwapBackExactly`: from a start strictly within its range, swapping everything back returns the input and restores price and liquidity exactly when
  the first swap did not stop at the price of a listed tick. If it did, the quote the other way fails with an invalid price,
  however small it is (`NoWayBackFromATick`), and spending exactly what a range absorbs does it (`BoundaryInputStopsOnATick`).
- `ClmmQuote.SingleRangeRefined`: for base input the multi-range quote names the last array that lists the boundary tick and the
  single-range quote the first. The two quotes are equal exactly for quote input or when those arrays have the same start;
  where every tick is listed once they always are (`OneListingAgrees`), and `ListedTwiceDiffers` gives two that differ.
- `ActivityWindow.CountsAgreeExactly`: the counts of a queue are those of the full history exactly when none of the oldest
  events, which prunings have dropped, is recent at the time asked about; `EarlierQuestionsCanMiss` gives a run and a time.
- `MeteoraBins.SlotMapsBackExactly`: numbering the bins of an array checks the first number but not the others for
  32-bit overflow; a bin maps back to its array exactly when its number fits (`HighestSlotsWrap` is one that does not).
- `TwoHopCodec.UnpackPacked`: the program's own packing casts lengths to 16 bits, and unpacking recovers the
  arguments exactly when both data lengths fit. The client's packing checks them (`LongDataIsRejected`).
- `TwoHopExecutor.ProfitGuaranteed`: the profit bound saturates at the largest balance; the guarantee holds exactly
  when the required balance can be represented (`NoProfitAtTheTop`).
- `LookupTableRetry.RetryRestoresExactly`: tables are remembered for ten minutes and forgotten only once they are complete. A
  retry of an interrupted extension leaves the network as the uninterrupted plan would have exactly when no chunk of the table
  in which sending stopped had landed, or that table is no longer remembered. Otherwise it adds the whole share of that table
  again, also beyond its room (`StaleRetryDiffers`); `StaleRetryAddsTwice` has forty addresses of which twenty arrive twice.
- `LookupTablePlan.OverfilledExactly`: a plan takes a table past 256 addresses exactly when the table has room, is listed more
  than once, and more addresses are missing than all the entries before a later entry of it can take. `SharedKeyOverflows`
  gives candidates and tables.
- `ConstantProduct.OrderOfPoolsExactly`: only the first pool is checked for quoting its token in itself, so the order of two
  pools of one token matters exactly when one of them does so and the pools, mints and trade size allow a path (`OrderCanMatter`).

## Model

| member | source | states |
|---|---|---|
| ClmmTicks.NextTick | src/strategy/clmm.rs:260-288 | The next initialized tick is eligible and no eligible tick is nearer; none is reported exactly when none is eligible. |
| ClmmTicks.SearchesAgree | src/strategy/clmm.rs:229-249 | The sort-and-scan search of the single-range quote and the iterator search of the multi-range quote stop at the same tick. |
| ClmmTicks.ListedIffIterated | src/strategy/clmm.rs:290-301 | The array lookup finds a tick exactly when the iteration over all arrays meets it, and names an array that lists it. |
| ClmmTicks.UpwardSearchNamesFirstListing | src/strategy/clmm.rs:277-301 | For quote input the search names the first array that lists the tick, as the separate lookup does. |
| ClmmTicks.DownwardSearchNamesLastListing | src/strategy/clmm.rs:265-276 | For base input the search names the last array that lists the tick. |
| ClmmWalk.StepByCoord | src/strategy/clmm.rs:166-204 | In both directions one iteration is the same motion: input is liquidity times the coordinate gained, output liquidity times the inverse coordinate lost. |
| ClmmWalk.StepKind | src/strategy/clmm.rs:162-204 | Whether an iteration stops, crosses or fails is decided by comparing the coordinate the input would reach with that of the boundary. |
| ClmmWalk.ResumeInside | src/strategy/clmm.rs:148-204 | An iteration that stopped inside a range can be resumed: error for error it is the iteration that spends both amounts at once. |
| ClmmTheorems.SplitSwap | src/strategy/clmm.rs:148-210 | Spending a + b equals spending a and then b from where a ended: same final position, total output, crossings and error, in both directions. |
| ClmmTheorems.SmallerInputSucceeds | src/strategy/clmm.rs:148-210 | If a larger input can be quoted, so can every smaller one. |
| ClmmTheorems.PartsMakeTheWhole | src/strategy/clmm.rs:148-210 | If the whole succeeds, both parts succeed within the same iteration limit and together give the whole. |
| ClmmTheorems.OutputBetweenMarginalPrices | src/strategy/clmm.rs:142-204 | The output lies between the net input at the marginal price of the end and at that of the start, and the price moves strictly in the swap's direction. |
| ClmmTheorems.AveragePriceWorsens | src/strategy/clmm.rs:142-204 | A larger swap gets strictly more output, at no better an average price. |
| ClmmTheorems.CrossedInOrder | src/strategy/clmm.rs:153-209 | Crossed ticks are initialized, strictly monotone and on the way; liquidity changes by exactly the sum of their net liquidity, with the direction's sign. |
| ClmmTheorems.NoTickSkipped | src/strategy/clmm.rs:153-209 | Every initialized tick between the start and the end of a walk was crossed. |
| ClmmTheorems.CrossedIffReached | src/strategy/clmm.rs:148-210 | With increasing prices of the listed ticks, a listed tick ahead of the start is among the crossed ones exactly when the final price is at or beyond it. |
| ClmmTheorems.InvalidPriceOnlyAtStart | src/strategy/clmm.rs:162-189 | With positive, increasing prices of the listed ticks, the walk fails for the order of its boundary exactly when the starting position faces no boundary ahead: never after a crossing. |
| ClmmRoundTrip.SwapBackRestores | src/strategy/clmm.rs:148-210 | Apart from fees, a swap of everything received the other way returns exactly the input and ends at the starting price and liquidity, across any number of crossings, if the first swap ended inside a range. |
| ClmmRoundTrip.NoWayBackFromATick | src/strategy/clmm.rs:162-189 | After a walk that stopped exactly on a tick, every opposite quote fails with an invalid price. |
| ClmmRoundTrip.SwapBackExactly | src/strategy/clmm.rs:148-210 | From a start strictly within its range, swapping everything back restores input, price and liquidity exactly when the first swap did not stop at the price of a listed tick, and is refused as an invalid price exactly when it did. |
| ClmmRoundTrip.SwapBackToATickExactly | src/strategy/clmm.rs:148-210 | From a start at the price of the tick behind, swapping everything back returns input and price and steps behind that tick, exactly when the first swap did not stop at the price of a listed tick. |
| ClmmRoundTrip.FacingBothWaysIsOffTicks | src/strategy/clmm.rs:162-189 | A position that faces its next ticks in both directions is at the price of no listed tick. |
| ClmmRoundTrip.BoundaryInputStopsOnATick | src/strategy/clmm.rs:172-209 | Spending exactly what the current range absorbs succeeds and stops on its boundary tick. |
| ClmmQuote.CrossTicks | src/strategy/clmm.rs:148-210 | The loop, with its price, liquidity, tick and list of touched arrays, yields the outcome of the recursive walk. |
| ClmmQuote.QuoteExactInput | src/strategy/clmm.rs:109-227 | The multi-range quote is the walk of the net input within 128 iterations, with every check and every field of the result. |
| ClmmQuote.OpenExactly | src/strategy/clmm.rs:109-140 | A quote starts exactly from a positive amount, a complete pool with liquidity and a price, and one of its mints; the starting price is the stored one over 2^64. |
| ClmmQuote.WalkIsQuoted | src/strategy/clmm.rs:142-227 | Whatever a walk of the net input reaches in at most 128 iterations is quoted: its output, fee, end price, whether it crossed, and exactly the arrays it consulted, each once. |
| ClmmQuote.QuoteIsOfAWalk | src/strategy/clmm.rs:142-227 | Every quote is of such a walk, so it crosses at most 128 ticks. |
| ClmmQuote.TooManyCrossings | src/strategy/clmm.rs:148-214 | A walk that needs more than 128 iterations is refused for want of a boundary. |
| ClmmQuote.ReportedPrice | src/strategy/clmm.rs:219-226 | The end price is reported in units of 2^-64, rounded down, up to the largest 128-bit number. |
| ClmmQuote.Distinct | src/strategy/clmm.rs:303-307 | Touched arrays are listed without repetition and without loss. |
| ClmmQuote.CrossingRequiredExactly | src/strategy/clmm.rs:28-107 | The single-range quote asks for a crossing exactly when the first iteration of the multi-range loop would reach its boundary. |
| ClmmQuote.SingleRangeRefined | src/strategy/clmm.rs:28-227 | A single-range quote is the multi-range quote in every field but the touched array: one names the first listing of the boundary tick, the other the last for base input, and they are equal exactly for quote input or when the two listings have one start. |
| ClmmQuote.RefusalsAgree | src/strategy/clmm.rs:28-227 | What the single-range quote refuses, but a crossing, the multi-range quote refuses too, with the same error unless the pool has no liquidity or no price. |
| ClmmQuote.OneListingAgrees | src/strategy/clmm.rs:28-227 | Where every tick is listed once, a single-range quote always is the multi-range quote. |
| ClmmQuote.ListedTwiceDiffers | src/strategy/clmm.rs:260-301 | With one tick priced below one listed by two arrays of different starts, both quotes succeed for any base input within the range above it and name different arrays. |
| ClmmQuote.QuoteInputAgrees | src/strategy/clmm.rs:28-227 | For quote input a single-range quote always equals the multi-range quote. |
| ClmmQuote.QuoteBetweenMarginalPrices | src/strategy/clmm.rs:109-227 | A successful quote pays for exactly its net input, at an average between the pool's marginal prices before and after. |
| OverflowHistory.SentAtOnceFaithful | src/grpc/subscribe.rs:235-240 | Sending an arrival at once, while nothing is held, keeps every account in order and its newest update reachable. |
| OverflowHistory.HeldBackFaithful | src/grpc/subscribe.rs:241-258 | Holding an arrival back, in place of an older held one, keeps the same and counts the overwritten update. |
| OverflowHistory.ReleasedFaithful | src/grpc/subscribe.rs:299-306 | Sending a held update later, in whatever order accounts are taken, keeps the same. |
| OverflowHistory.AccountSeesNewest | src/grpc/subscribe.rs:183-321 | Per account, what was sent followed by what is held is a subsequence of the arrivals that ends in the newest one. |
| OverflowHistory.DeliveredInOrder | src/grpc/subscribe.rs:183-321 | Whatever the receiver has taken, each account's updates are a subsequence of its arrivals; also after the receiver has gone. |
| OverflowStream.Channel.TrySend | src/grpc/subscribe.rs:236-252 | A send is accepted at the end of the queue, refused because the channel is full, or refused because it is closed; nothing accepted is lost. |
| OverflowStream.Stream.FirstKeys | src/grpc/subscribe.rs:294-298 | A batch is up to 1024 distinct held accounts, in any order. |
| OverflowStream.Stream.Release | src/grpc/subscribe.rs:299-316 | A held update is taken out and sent, or put back when the channel is full. |
| OverflowStream.Stream.FlushOverflow | src/grpc/subscribe.rs:285-321 | Flushing keeps the invariant and the arrivals, and empties a batch unless the channel is full or closed. |
| OverflowStream.Stream.Hold | src/grpc/subscribe.rs:247-258 | Holding replaces the account's held update and counts it. |
| OverflowStream.Stream.Receive | src/grpc/subscribe.rs:206-261 | An update of a subscribed account is sent only while nothing is held and there is room, and is held otherwise; other messages change nothing. |
| OverflowStream.Stream.Turn | src/grpc/subscribe.rs:183-282 | After a turn in which the channel refused nothing, and before which no more than a batch was held, nothing is held. |
| OverflowStream.Stream.Serve | src/grpc/subscribe.rs:183-321 | Over a whole stream: sent, held and overwritten updates account for all arrivals, order and newest value hold per account, no more is held than accounts are subscribed, and, where a batch holds all accounts, nothing is held at an end with room in the channel; and only a receiver that has gone cuts the stream short, after some of its messages. |
| OverflowStream.HeldWithinSubscribed | src/grpc/subscribe.rs:217-258 | No more updates are held than there are subscribed accounts. |
| DlmmFees.TotalFeeRate | src/bin/pool_scanner.rs:3203-3232 | The total fee rate is at most a tenth, below the whole input. |
| DlmmFees.TotalRateExactly | src/bin/pool_scanner.rs:3203-3232 | The rate is exactly the base fee plus the least number that covers the variable fee, or a tenth if that is less: for parameters of the stored widths, saturation never shows. |
| DlmmFees.BaseRateByPower | src/bin/pool_scanner.rs:3215-3218 | The base fee is ten times factor and bin step, and ten times that for every power. |
| DlmmFees.CapExactly | src/bin/pool_scanner.rs:3229-3231 | The rate is the cap exactly when the rate without a cap reaches it. |
| DlmmFees.RateMonotone | src/bin/pool_scanner.rs:3203-3232 | The rate is monotone in every parameter and in the bin step. |
| DlmmFees.RateScale | src/bin/pool_scanner.rs:3254-3262 | A fee is the share of the gross amount in parts of a thousand million, rounded up. |
| DlmmFees.WholeRate | src/bin/pool_scanner.rs:3254-3272 | At a rate of all of the input or more, nothing is left of a gross amount and an added fee is the product itself. |
| DlmmFees.FeeFromGrossRounds | src/bin/pool_scanner.rs:3254-3262 | The fee contained in a gross amount is its share rounded up, and at most the amount. |
| DlmmFees.GrossRoundsUp | src/bin/pool_scanner.rs:3264-3272 | A net amount with its added fee is the inverse share rounded up, unless it saturates. |
| DlmmFees.FeesAreInverse | src/bin/pool_scanner.rs:3254-3272 | The fee contained in a net amount plus its added fee is that fee: the two roundings are inverse. |
| DlmmFees.LeastGross | src/bin/pool_scanner.rs:3254-3272 | A gross amount nets at least a net amount exactly when it is at least that amount plus its added fee. |
| DlmmFees.NetMonotone | src/bin/pool_scanner.rs:3254-3262 | What is left after the fee is monotone in the gross amount. |
| DlmmFees.CapNeverExceeded | src/bin/pool_scanner.rs:3323-3333 | Gross amounts within a bin's cap never net more than the net cap, also when the cap saturates. |
| DlmmQuote.FillBins | src/bin/pool_scanner.rs:3309-3359 | The loop over the sorted bins computes the takes of the recursive walk, their sums and the arrays touched. |
| DlmmQuote.QuoteMeteoraExactIn | src/bin/pool_scanner.rs:3278-3378 | The quote is that of the walk over the bins sorted away from the active one, with every rejection and the final rounding. |
| DlmmTheorems.CapPaysForReserve | src/bin/pool_scanner.rs:3323-3351 | A bin's net cap is positive, pays for all the bin holds unless it saturates, and for less than one input unit's worth more. |
| DlmmTheorems.EveryTakeWithinBin | src/bin/pool_scanner.rs:3309-3359 | Every take is of a usable bin on the route, spends something, nets at most the cap, and pays less than the reserve plus one unit's worth. |
| DlmmTheorems.OnlyLastIsPartial | src/bin/pool_scanner.rs:3309-3359 | Only the last take can leave room in its bin. |
| DlmmTheorems.InputConserved | src/bin/pool_scanner.rs:3309-3361 | The gross amounts taken add up to the input, or to the capacity of the usable bins if that is less. |
| DlmmTheorems.QuoteExistsExactly | src/bin/pool_scanner.rs:3284-3363 | A quote exists exactly when the input is positive, the usable bins can absorb it, and it is more than one unit or the pool charges no fee. |
| DlmmTheorems.WithoutFeeNeverLess | src/bin/pool_scanner.rs:3365-3377 | The result without fee is its own rounded amount, kept at one or more, and never below the result with fee. |
| DlmmTheorems.MoreInMoreOut | src/bin/pool_scanner.rs:3309-3359 | More input never buys less along one route. |
| DlmmTheorems.QuoteMonotone | src/bin/pool_scanner.rs:3278-3378 | The quoted amount is monotone in the input. |
| DlmmTheorems.NoBinSkipped | src/bin/pool_scanner.rs:3298-3359 | A usable bin nearer to the active one than a touched bin has been used up. |
| DlmmTheorems.NoStockedBinSkipped | src/bin/pool_scanner.rs:3298-3359 | In plain terms: selling X uses up every priced bin holding Y from the active one down to the last touched, selling Y every priced bin holding X upward. |
| DlmmTheorems.SoleBinIsTaken | src/bin/pool_scanner.rs:3309-3359 | A single bin is taken from exactly when it is on the way from the active one, the active one included, and holds what is bought. |
| DlmmTheorems.TakesInPlainTerms | src/bin/pool_scanner.rs:3309-3359 | Selling X takes bins at or below the active one and pays their Y at the price; selling Y takes bins at or above it and pays their X. |
| DlmmTheorems.QuoteInOneBin | src/bin/pool_scanner.rs:3278-3378 | Where the nearest usable bin takes the whole input, the quote is what the input net of its fee buys there, and without fee what all of it buys, each less ten basis points and rounded down to at least one. |
| DlmmTheorems.RouteListsBins | src/bin/pool_scanner.rs:3289-3307 | The route has every bin of every array with its array index, nearest first and ties as listed. |
| DlmmTheorems.BinPrices | src/bin/pool_scanner.rs:3234-3252 | A stored price is in units of 2^-64; without one, prices are one at bin zero and grow by the bin step. |
| Sorting.SortIsStable | src/bin/pool_scanner.rs:3302-3307 | Bins of one number keep their order. |
| ActivityWindow.RecentActivityCounts | src/bin/pool_scanner.rs:4531-4545 | One pass counts the queued events of the last five and fifteen minutes. |
| ActivityWindow.CountsAreOfRecent | src/bin/pool_scanner.rs:4531-4545 | The counts are the numbers of events of the last 300 and of the last 900 seconds. |
| ActivityWindow.PrunePoolActivity | src/bin/pool_scanner.rs:4504-4513 | Pruning drops the longest expired front of the queue and nothing behind it. |
| ActivityWindow.PrunedExactly | src/bin/pool_scanner.rs:4504-4513 | Pruning drops the longest beginning of the queue older than 900 seconds. |
| ActivityWindow.KnownPools.UpsertKnownPool | src/bin/pool_scanner.rs:1204-1229 | A known pool keeps its queue, liquidity and newest slot and takes everything else; a new one is taken as it comes. |
| ActivityWindow.KnownPools.RecordPoolActivity | src/bin/pool_scanner.rs:4515-4529 | Recording prunes, appends, and counts, for a known pool only. |
| ActivityWindow.KnownPools.RemovePool | src/bin/pool_scanner.rs:1053-1068 | Removing forgets the pool and its queue. |
| ActivityWindow.SlotsAndHits | src/bin/pool_scanner.rs:1204-1229 | An operation that tells of a pool raises its newest slot to what it told and counts one hit, up to the largest number; others leave both. |
| ActivityWindow.QueueIsSuffix | src/bin/pool_scanner.rs:4504-4529 | After any run of upserts, recordings, prunings and removals the queue is a suffix of everything recorded since insertion, and what is missing had expired at some pruning. |
| ActivityWindow.CountsAgreeExactly | src/bin/pool_scanner.rs:4504-4545 | After any run and for any time asked about, the queue is the history without its oldest events, and the counts are those of the history exactly when none of these is recent at that time. |
| ActivityWindow.CountsMatchHistory | src/bin/pool_scanner.rs:4504-4545 | After any run, counts asked for no earlier than every pruning equal those of the full history; the clock need not be monotone. |
| ActivityWindow.EarlierQuestionsCanMiss | src/bin/pool_scanner.rs:4504-4545 | A pool inserted with an empty queue and two recordings, after which a question about an earlier time is answered wrongly. |
| RaydiumBitmap.StartIsFloor | src/parser/raydium_clmm.rs:42-49 | The start of a tick's array is the multiple of the array width at or below the tick, negative ticks included. |
| RaydiumBitmap.PositionByIndex | src/parser/raydium_clmm.rs:254-292 | The extension position depends only on the array's index, for every non-zero spacing. |
| RaydiumBitmap.ArrayOwnsItsPosition | src/parser/raydium_clmm.rs:254-292 | An array has a position exactly when it lies beyond the pool's bitmap and within the extension's reach, and the inverse formula leads back to it. |
| RaydiumBitmap.PositionHasOneOwner | src/parser/raydium_clmm.rs:254-292 | Every side, group and bit is the position of exactly the array that the inverse formula names. |
| RaydiumBitmap.PositionsFillExtension | src/parser/raydium_clmm.rs:294-312 | Positions number the bits of the extension from 0 to 14335 without gap or overlap. |
| RaydiumBitmap.TestReadsItsBit | src/parser/raydium_clmm.rs:294-312 | The bit test reads exactly the bit of the account that its position numbers. |
| RaydiumBitmap.ScanFitsI32 | src/parser/raydium_clmm.rs:142-227 | For every non-zero 16-bit spacing, widths, scanned starts and the step beyond the last fit 32 bits. |
| RaydiumBitmap.PushUniqueStartIndex | src/parser/raydium_clmm.rs:248-252 | A start is appended unless it is listed already; a list without repetitions stays one. |
| RaydiumBitmap.PushWordInitializedStartIndexes | src/parser/raydium_clmm.rs:229-246 | Whatever list it is given, one word adds the starts of its set bits that are not listed yet, in order. |
| RaydiumBitmap.StartsAbove | src/parser/raydium_clmm.rs:229-252 | Arrays with higher indexes than those listed are appended as they are: the check for repetitions drops none. |
| RaydiumBitmap.StartsFromPoolState | src/parser/raydium_clmm.rs:114-140 | The pool scan returns the starts of the indexes its words mark, or the error for its length or spacing. |
| RaydiumBitmap.StartsFromBitmapExtension | src/parser/raydium_clmm.rs:142-176 | The extension scan returns the starts of the marked indexes from the lowest to the highest tick, or the error for length, discriminator or spacing; it never overflows. |
| RaydiumBitmap.PoolScanExact | src/parser/raydium_clmm.rs:114-140 | The pool scan finds, strictly increasing, exactly the arrays whose bit is set. |
| RaydiumBitmap.ExtensionScanExact | src/parser/raydium_clmm.rs:142-176 | The extension scan finds, strictly increasing, exactly the marked arrays that meet the permitted ticks. |
| RaydiumBitmap.ScansDisjoint | src/parser/raydium_clmm.rs:114-176 | No array is found by both scans, and together their bits cover a contiguous range of indexes. |
| RaydiumBitmap.PoolTestReadsItsBit | src/parser/raydium_clmm.rs:114-140 | The pool mark of an array from -512 to 511 is one bit of the 128 bytes from 832 on. |
| RaydiumBitmap.ExtensionMarkIsItsBit | src/parser/raydium_clmm.rs:254-312 | The extension mark of an array beyond these is one bit of the 896 bytes of its side, negative groups counted from their far end. |
| RaydiumBitmap.EveryTickArrayHasABit | src/parser/raydium_clmm.rs:42-49 | Every permitted tick has an array of sixty spacings, and that array has a bit in the pool account or in the extension. |
| MeteoraBins.IndexIsFloor | src/parser/meteora.rs:112-119 | A bin's array index is its number divided by seventy, rounded down. |
| MeteoraBins.AddressesAreOneToOne | src/parser/meteora.rs:27-32 | The permitted array indexes and the bits of the three bitmaps correspond one to one. |
| MeteoraBins.LookupsReadOneBit | src/parser/meteora.rs:145-225 | For every index whatever, the two lookups together read the one bit that stands for it, and none outside the bounds. |
| MeteoraBins.ReadU64Array | src/parser/meteora.rs:338-355 | Reading an array of words gives the little-endian words at the offset, or an error if they are not all there. |
| MeteoraBins.ReadU64Matrix | src/parser/meteora.rs:357-367 | Reading one side of the extension gives its twelve chunks of eight words. |
| MeteoraBins.ParseBitmapExtension | src/parser/meteora.rs:158-188 | An extension account is rejected for its length or discriminator, and otherwise both sides are read. |
| MeteoraBins.ParsedExtensionReadsItsBit | src/parser/meteora.rs:158-225 | Looking an index up in a parsed extension reads exactly the bit of the account bytes that its address names. |
| MeteoraBins.ParseBinArray | src/parser/meteora.rs:227-264 | A bin array's bins are those of its seventy slots that hold anything, or the error for length or index. |
| MeteoraBins.BinsComeFromSlots | src/parser/meteora.rs:243-261 | A bin is listed exactly when it is some slot's and holds anything. |
| MeteoraBins.SlotReadsBack | src/parser/meteora.rs:240-257 | A slot written as two 64-bit and two 128-bit little-endian numbers reads back those amounts, price and supply. |
| MeteoraBins.IndexIsRead | src/parser/meteora.rs:227-232 | The index is the signed little-endian number in bytes 8 to 15. |
| MeteoraBins.SlotMapsBackExactly | src/parser/meteora.rs:234-246 | A slot's bin maps back to its array exactly when its number fits 32 bits. |
| MeteoraBins.HighestSlotsWrap | src/parser/meteora.rs:234-246 | In the highest array index accepted, slot 58 gets the lowest bin number and maps to another array. |
| MeteoraBins.PermittedBinsMapBack | src/parser/meteora.rs:227-264 | Every bin of an array within the permitted indexes maps back to it. |
| TwoHopCodec.Pack | programs/two_hop_executor/src/lib.rs:78-92 | Packing writes the header and both legs' data in their layout, lengths cut to 16 bits. |
| TwoHopCodec.Cursor.ReadBytes | programs/two_hop_executor/src/lib.rs:454-465 | Reading returns the next bytes and moves past them, or fails without moving. |
| TwoHopCodec.UnpackArgs | programs/two_hop_executor/src/lib.rs:55-76 | Reading field by field gives the parsed arguments, and fails unless the lengths account for every byte. |
| TwoHopCodec.Unpack | programs/two_hop_executor/src/lib.rs:40-51 | An input unpacks only with the right tag and a parsable rest. |
| TwoHopCodec.UnpackPacked | programs/two_hop_executor/src/lib.rs:55-92 | Unpacking recovers what was packed exactly when both data lengths fit 16 bits. |
| TwoHopCodec.LongDataIsRejected | programs/two_hop_executor/src/lib.rs:55-92 | First-leg data of 65536 bytes packs to a message that does not unpack. |
| TwoHopCodec.PackUnpacked | programs/two_hop_executor/src/lib.rs:40-92 | Whatever unpacks is the packing of what it unpacks to, so trailing bytes are rejected. |
| TwoHopCodec.MessageLayout | programs/two_hop_executor/src/lib.rs:78-92 | Byte by byte: a zero tag, little-endian numbers, the two account counts, and the data of both legs. |
| TwoHopCodec.ClientPack | src/executor/onchain.rs:19-54 | The client's packing fails exactly when a length does not fit its field, and otherwise writes the program's layout. |
| TwoHopCodec.BuildExecuteTwoHopInstruction | src/executor/onchain.rs:57-98 | Whenever the client can build an instruction, the program recovers both legs' programs, account lists and data, and the two token accounts. |
| TwoHopCodec.SplitExactly | programs/two_hop_executor/src/lib.rs:136-166 | Dividing takes four accounts and those of both legs in that order, fails exactly when there are fewer, and ignores more. |
| TwoHopExecutor.Runtime.ExecuteTwoHop | programs/two_hop_executor/src/lib.rs:128-275 | The execution, changing the ledger call by call, has the outcome of its step-by-step specification, error for error. |
| TwoHopExecutor.Runtime.ProcessInstruction | programs/two_hop_executor/src/lib.rs:118-126 | An instruction completes with both legs' effects, or leaves the ledger as it was. |
| TwoHopExecutor.ShortfallExactly | programs/two_hop_executor/src/lib.rs:277-291 | A shortfall is reported exactly when a positive minimum is missed, and it is what the final balance lacks; the required balance is capped at the largest. |
| TwoHopExecutor.BuiltLegsAreCalled | programs/two_hop_executor/src/lib.rs:128-275 | End to end: when an instruction built by the client completes, the first call was exactly its first leg, the second its second leg but for the amount, and the minimum profit was met or the balance is the largest. |
| TwoHopExecutor.CompletesExactly | programs/two_hop_executor/src/lib.rs:168-257 | Once both calls have been made, an execution completes exactly when the balances can be read, the first leg brought something in, the amount fits the data and the profit is met. |
| TwoHopExecutor.MeasuredAccount | programs/two_hop_executor/src/lib.rs:353-382 | The first leg is measured at the fourth account of a Raydium leg, if there is one, and else at the intermediate account. |
| TwoHopExecutor.ClampExactly | programs/two_hop_executor/src/lib.rs:293-351 | For any amount, the clamp gives the lesser of it and the balance of the fourth account of a Raydium leg, and the amount itself for other legs. |
| TwoHopExecutor.BalanceIsRead | programs/two_hop_executor/src/lib.rs:407-422 | A balance is the little-endian number in bytes 64 to 71 of an account of at least 72. |
| TwoHopExecutor.InjectedIsTheFirstLegsYield | programs/two_hop_executor/src/lib.rs:168-215 | For arbitrary calls, the injected amount is positive and is what the first leg added to the observed account: the clamp never lowers it. |
| TwoHopExecutor.OnlyTheAmountIsPatched | programs/two_hop_executor/src/lib.rs:217-243 | The second leg gets its own program, accounts and data, with only the eight bytes of the amount replaced. |
| TwoHopExecutor.ProfitGuaranteed | programs/two_hop_executor/src/lib.rs:245-291 | With a positive minimum, completion means that the quote balance rose by at least it, exactly when the required balance can be represented. |
| TwoHopExecutor.NoProfitAtTheTop | programs/two_hop_executor/src/lib.rs:277-291 | With the quote balance at its largest, an execution that changes nothing of it completes with a minimum profit of one. |
| LookupTablePlan.PlanLookupTableExtensions | src/executor/executor.rs:355-389 | The planner's cursor loop fills the tables in order with the missing addresses and returns what is left over. |
| LookupTablePlan.Missing | src/executor/executor.rs:359-371 | Missing addresses are the candidates in no table, each once. |
| LookupTablePlan.PlanPartitionsMissing | src/executor/executor.rs:373-388 | The planned addresses followed by the remainder are the missing addresses, in order. |
| LookupTablePlan.PlanRespectsCapacity | src/executor/executor.rs:373-388 | With distinct keys no table is filled beyond 256, and a remainder means that every table is full. |
| LookupTablePlan.OverfilledExactly | src/executor/executor.rs:355-389 | If entries with one key stand for one table, a plan takes a table past its limit exactly when it has room, is listed again, and the missing addresses reach the later entry. |
| LookupTablePlan.CapacityRespectedExactly | src/executor/executor.rs:355-389 | No table ends above 256 exactly when none began above it and no table with room has a later entry that is reached. |
| LookupTablePlan.AppliedHoldsPlanned | src/executor/executor.rs:355-389 | After applying a plan the tables hold what they held and what was planned. |
| LookupTablePlan.ReplanningAddsNothing | src/executor/executor.rs:355-389 | Planning again after applying a plan extends nothing and leaves the same remainder. |
| LookupTablePlan.SharedKeyOverflows | src/executor/executor.rs:355-389 | Two candidates in no table and a table with room for one of them that is listed twice: applying the plan overfills it. |
| LookupTableExtender.Extender.SendExtensions | src/executor/executor.rs:518-554 | Extensions are sent in chunks, one table after the other; what lands, which tables are forgotten and whether all of it was confirmed are those of the step-by-step specification. |
| LookupTableExtender.Extender.Fetch | src/executor/transaction.rs:382-466 | Tables come from memory for ten minutes and from the network after that; a table that does not exist is skipped and forgotten. |
| LookupTableExtender.Extender.SendChunks | src/executor/executor.rs:522-551 | The chunks of one table land one after the other up to the first that is not confirmed, which may have landed too. |
| LookupTableExtender.CompleteExactly | src/executor/executor.rs:518-554 | A plan is completed exactly when every chunk of it is confirmed. |
| LookupTableExtender.LandedOfPlan | src/executor/executor.rs:518-554 | What lands is all of the completed tables and a beginning of the one in which sending stopped. |
| LookupTableExtender.Extender.ExtendLookupTables | src/executor/executor.rs:484-576 | A whole extension: nothing without configured tables or once they were found full; otherwise fetched, planned and sent, with the errors of an unreachable network, a lost chunk and a failed warm-up, and given up for good when addresses are left over, also when no configured table exists. |
| LookupTableChunks.ExhaustedMeansFull | src/executor/executor.rs:501-569 | With distinct keys, a remainder means that after the chunks every planned-for table is full. |
| LookupTableChunks.FillInTwo | src/executor/executor.rs:373-388 | Filling the tables with some addresses and then with more ends in the tables and remainder of filling them with all at once. |
| LookupTableChunks.FreshPlanResumes | src/executor/executor.rs:355-389 | Planning again from the tables as the network then holds them, not as they are remembered, ends in the tables and remainder of the uninterrupted plan. |
| LookupTableRetry.FetchedSees | src/executor/transaction.rs:382-466 | Fetching finds remembered tables as remembered and the others as the network holds them. |
| LookupTableRetry.SyncKeptExactly | src/executor/executor.rs:518-554 | After an attempt, what is remembered of the configured tables is what the network holds, except exactly when sending stopped in a table of which some chunk had landed and that is still remembered. |
| LookupTableRetry.RetryRestoresExactly | src/executor/executor.rs:484-576 | From remembered tables in step with the network, an attempt and a retry without losses leave the network as the uninterrupted attempt would have, exactly when no table was left stale. |
| LookupTableRetry.StaleRetryDiffers | src/executor/executor.rs:484-576 | A stale table ends longer than the uninterrupted attempt would have left it, by all that had landed of it. |
| LookupTableRetry.StaleRetryAddsTwice | src/executor/executor.rs:484-576 | One empty table, forty missing addresses, the first chunk confirmed and the second lost: a retry within ten minutes adds all forty. |
| LookupTableRetry.GivenUpMeansFull | src/executor/executor.rs:501-569 | From remembered tables in step with the network, giving up for good happens only when every configured table that exists is full. |
| LookupTableRetry.GivesUpExactly | src/executor/executor.rs:501-569 | Extending is given up for good exactly when more is missing than all tables can take, and all they can take was confirmed and has warmed up. |
| LookupTableRetry.RememberedForTenMinutes | src/executor/transaction.rs:389-400 | A table is fetched anew once it has been remembered for ten minutes, and not before. |
| LookupTableChunks.ChunksHaveTheSameEffect | src/executor/executor.rs:518-549 | Chunks of at most twenty addresses, none empty, have together the effect of the plan. |
| LookupTableChunks.ChunksAreOfTwenty | src/executor/executor.rs:522-530 | A table's addresses go out in order, twenty in every chunk but the last. |
| SendThrottle.StepKeepsInvariant | src/executor/manager.rs:70-90 | Every step of every caller keeps the lock discipline, the spacing, and the time of the last grant. |
| SendThrottle.GrantsAreSpaced | src/executor/manager.rs:59-90 | For any callers and any interleaving, consecutive grants are at least the interval apart. |
| SendThrottle.CheckExactly | src/executor/manager.rs:70-80 | The lock holder is approved exactly when the interval has passed since the last grant, and else waits for just the rest. |
| SendThrottle.FirstCaller | src/executor/manager.rs:47-66 | The first caller is granted at once, or after one interval if the clock is younger than that. |
| SendThrottle.GrantedWhenDue | src/executor/manager.rs:70-90 | A caller that slept until the interval had passed, with no other grant since, is granted. |
| SendThrottle.WindowHoldsFewGrants | src/executor/jito.rs:122-142 | A window of any length holds at most one grant more than whole intervals fit in it. |
| PoolWatcher.UpdateState | src/bin/jd6_pool_watcher.rs:525-589 | One poll's in-place edits yield the aged table as a list with unique addresses, sorted by token, venue and address. |
| PoolWatcher.AfterPollAt | src/bin/jd6_pool_watcher.rs:538-573 | One poll refreshes or inserts a sighted pool, ages an unsighted one by a miss, and drops it at the limit. |
| PoolWatcher.ListReadsBack | src/bin/jd6_pool_watcher.rs:531-536 | Reading a stored list back gives the table it lists, without excluded tokens. |
| PoolWatcher.TableIsFunctionOfHistory | src/bin/jd6_pool_watcher.rs:525-589 | From any stored table and after any polls, an address is present exactly when it has been missed fewer times than permitted since its last sighting, or since its stored entry; its entry is that of its sightings on top of the stored one. |
| PoolWatcher.HitsAccumulate | src/bin/jd6_pool_watcher.rs:538-561 | Hits are the saturating sum over the current stay: those of the stored entry if it lasted, and at least one for every sighting. |
| PoolWatcher.EntrySpansLifetime | src/bin/jd6_pool_watcher.rs:538-561 | An entry spans its current stay, which may go back to the stored entry: first and last sighting, and the newest slot seen in between. |
| PoolWatcher.EntryDescribesLastSighting | src/bin/jd6_pool_watcher.rs:538-561 | An entry has the venue and the mints of its last sighting. |
| PoolWatcher.ListGoesBy | src/bin/jd6_pool_watcher.rs:574-579 | A stored list goes by token, then by venue, then by address. |
| PoolWatcher.StringLeExactly | src/bin/jd6_pool_watcher.rs:574-579 | Texts are in lexicographic order: one begins the other, or the first difference decides. |
| PoolWatcher.Watcher.constructor | src/bin/jd6_pool_watcher.rs:530-536 | The watcher may start from any stored list, also an unsorted one or one with repeated addresses. |
| PoolWatcher.Watcher.RunPoll | src/bin/jd6_pool_watcher.rs:525-589 | Poll after poll, the stored list is the sorted list of the table that the first stored list and the polls determine. |
| ConstantProduct.OutputBelowReserveExactly | src/strategy/quote.rs:428-467 | A quoted output stays below the reserve exactly when the fee is below the whole input. |
| ConstantProduct.ProductNeverFallsExactly | src/strategy/quote.rs:428-467 | The product of the reserves never falls, exactly when the fee is not negative. |
| ConstantProduct.WorseThanSpot | src/strategy/quote.rs:428-467 | A swap is strictly worse than the spot price. |
| ConstantProduct.SwapLaw | src/strategy/quote.rs:428-467 | Net of its fee a swap keeps the product of the reserves exactly, and its reported prices are those of the reserves and of the amounts. |
| ConstantProduct.ImpactIsShortfall | src/strategy/quote.rs:449-454 | With a fee from zero up to the whole input, the price impact is what the output falls short of the spot price. |
| ConstantProduct.NoImpactExactly | src/strategy/quote.rs:453-454 | The impact is never negative, and zero exactly when the output is no worse than the spot price. |
| ConstantProduct.ConversionsByUnit | src/strategy/quote.rs:537-567 | Conversions to and from USDC exist for the same mints and are division and multiplication by one unit value. |
| ConstantProduct.PathParts | src/strategy/quote.rs:197-248 | A path's legs, amounts and profits fit together: the sale spends what the purchase yielded, and net profit is below gross. |
| ConstantProduct.QuoteReports | src/strategy/quote.rs:491-535 | Gross and net profit, the half-percent buffer, the gas cost, the percentage and the prices per token of a quote are those of its amounts. |
| ConstantProduct.UnitsAre | src/strategy/quote.rs:537-567 | A USDC unit is a millionth of a dollar, and a lamport a billionth of a SOL. |
| ConstantProduct.PathExistsExactly | src/strategy/quote.rs:197-248 | For fees below the whole input, a path is quoted exactly for positive reserves, mints that can be valued, and a positive purchase and sale value. |
| ConstantProduct.QuotableBothWays | src/strategy/quote.rs:197-248 | At a positive SOL price a path is quotable in one direction exactly when it is in the other, and only for a positive size. |
| ConstantProduct.ProfitOnlyTowardHigherPrice | src/strategy/quote.rs:197-248 | A gross profit is possible only toward the pool with the strictly higher spot price in USDC. |
| ConstantProduct.OneProfitableDirection | src/strategy/quote.rs:155-248 | At most one direction between two pools makes a gross profit. |
| ConstantProduct.BestBuysCheaper | src/strategy/quote.rs:155-195 | If the best quote makes a net profit, it is the path that buys in the cheaper pool. |
| ConstantProduct.BestIsBest | src/strategy/quote.rs:155-195 | The best quote is one of the two paths, no path nets more, and a tie goes from the first pool to the second. |
| ConstantProduct.BestExistsExactly | src/strategy/quote.rs:155-195 | There is a best quote exactly for pools of one token, the first quoting it in another mint, with a quotable path in some direction. |
| ConstantProduct.OrderOfPoolsExactly | src/strategy/quote.rs:155-195 | For fees below the whole input, swapping the pools leaves the best net profit unchanged, except exactly when they share a token, one of them quotes it in itself, and reserves, mints and trade size allow a path. |
| ConstantProduct.OrderCanMatter | src/strategy/quote.rs:155-195 | A pool of SOL against USDC and one of SOL against itself are quoted in one order and not in the other. |

## Left out

- Network access, transaction building, signing and confirmation, configuration, logging and file access: no property of their own.
- IEEE rounding: quotes are exact real arithmetic, so amounts within rounding of a boundary are decided exactly here.
- The formula for the square-root price of a tick and its rounding to 64.64 fixed point: a parameter of the quotes.
- 32-bit overflow of tick numbers in the walk (`tick - 1`): tick numbers are unbounded there.
- Liveness of the overflow buffer: it is flushed only when the loop turns over on a message and is dropped at a reconnect, so the claims are safety claims about one stream.
- Order across different accounts: the buffer does not preserve it.
- Overflow statistics kept for logging (duration, peak, intervals) and the idle timeout: a timeout or a stream error ends a run like the stream's own end.
- Account privileges merged by the runtime: an account listed twice with different flags keeps them separately in `BuildExecuteTwoHopInstruction`.
- The program's log messages and the account lists passed alongside each call: the called programs are arbitrary anyway.
- SendThrottle.GrantsAreSpaced: the mutex-guarded field is modelled as a state machine over lock, check, stamp and sleep steps, because the property is about interleavings; time is counted in whole ticks of any length.
- Selection of routeable pools, ranking, scoring and per-venue caps of the scanner and the watcher: counters a reading settles.
- The rotation over Jito endpoints: a counter modulo a length.
- The Pump and Raydium variants of the two-leg quote: the same swap formula with other fields.
- ConstantProduct.OrderOfPoolsExactly: stated for fees below the whole input, at which a path exists by its inputs alone; `OrderByPaths` has the same for every fee, in terms of the quotes.
- LookupTableRetry.RetryRestoresExactly: about one attempt and one retry with no other fetch in between; another fetch would only bring tables no longer remembered up to date. Other writers to the tables are left out; the network's own refusal of an extension past 256 addresses is one of the ways a transaction is lost.
- The JSON file between polls: a stored list is read back as it was written.
- Parsing of pools, tick arrays and price data other than the bitmaps and bin arrays: fixed offsets.
- MeteoraBins.ParseBinArray: an addition past 32 bits wraps around, as in builds without overflow checks; with them the program would stop there.
- Whirlpool quotes, the snapshot's adjacent-only removal of duplicates and the subscription filter keyed by an address prefix: no unconditional guarantee to prove, or code outside the repository.
