# Constant-product arbitrage detection, modelled in Dafny

This project models the detection half of a Uniswap V2 triangular-arbitrage
bot, and the part of its execution side that is plain control flow:

- `simulator.dfy` (module `Simulator`): the constant-product swap formula
  `getAmountOut` in exact integer arithmetic. JavaScript `BigInt` division
  truncates toward zero, so it is modelled by `TruncDiv`.
- `paths.dfy` (module `Paths`): the `range` helper and the `ArbPath` record:
  its hop count, its pool lookup, the blacklist check, the multi-hop quote,
  the step-search optimiser and the router parameters. It also models the
  O(n³) enumeration of closed three-hop cycles from a base token.
- `utils.dfy` (module `Utils`): the next-block base-fee prediction, with the
  random 0–9 term as a parameter. It also models the fold of one block's
  `Sync` logs into the latest reserves per pool.
- `strategy.dfy` (module `Strategy`): the start-up filter that keeps the
  pools of non-blacklisted paths. The per-block handler is a method of the
  `Scanner` class, which owns the live reserve map. It merges the touched
  reserves into the map, selects the touched paths, and records the paths
  whose one-token quote is above par.
- `pools.dfy` (module `Pools`): the `Pool` record and the block-range
  chunking. It also models the seven-column comma-separated cache format:
  the serialiser, the parser, and the round trip between them.
- `multi.dfy` (module `Multi`): the split of the pool list into multicall
  batches of at most 200, the rule that only successful calls are kept, and
  the `Object.assign` merge of the batches.
- `bundler.dfy` (module `Bundler`): `Path.toList`, the `Flashloan` enum, the
  transaction builders with their gas limits, and the parallel type and
  value lists of the order calldata. The `sendBundle` protocol runs against
  abstract relay responses.
- `common.dfy` (module `Common`): shared vocabulary: `Option`, addresses,
  reserve pairs, powers of ten and the `Math.ceil` loop count.

Numbers that the program turns into floating-point `Number`s are kept as
exact integers. `amountIn * 10 ** d` is an exact product. The optimiser's
profit stays in the input token's smallest unit. The scanner's test
`spread > 0` is the equivalent integer test `quote > 10^usdcDecimals`.

A JavaScript exception that aborts an operation is the `None` of an
`Option`. This covers a pool missing from the reserve map in
`simulateV2Path`, and `Object.assign()` with no batches. A rejected bundle
submission is the `Threw` outcome of `SendBundle`.

Behaviour of the code worth knowing:

- `shouldBlacklist` returns inside the first loop iteration, so the tokens
  of pool2 and pool3 are never checked (`ShouldBlacklist`,
  `ShouldBlacklistReadsPool1Only`).
- A missing reserve entry makes `simulateV2Path` throw. In the block
  handler this aborts the whole scan (`SpreadsSpec`); it does not skip the
  one path.
- `generateTriangularPaths` yields three-hop cycles only. Two-hop paths
  exist as values of `ArbPath` (`NHop`) but are never generated.
- The cache parser skips only empty rows and the header row. The numeric
  columns go through `parseInt`, which skips leading white space, reads a
  sign and a `0x` prefix, and stops at the first character that is not a
  digit (`ParseInt`).

## Model

| member | source | states |
|---|---|---|
| `Simulator.TruncDiv` | src/simulator.js:31 | BigInt division truncates toward zero: the magnitude of the quotient is the floor of the magnitudes' quotient, a non-zero quotient is negative exactly when the operands' signs differ, on non-negative operands it is floor division, and a zero dividend gives 0 |
| `Simulator.TruncDivNegative` | src/simulator.js:31 | -7 / 2 is -3 (not the floor -4), 7 / -2 is -3 and -7 / -2 is 3 |
| `Simulator.ZeroDenominatorGivesZero` | src/simulator.js:30-31 | when `reserveIn*1000 + amountIn*(1000 - fee/100)` is 0 the output is 0, with no division |
| `Simulator.FeeIsFlooredToHundreds` | src/simulator.js:24-26 | only `fee / 100` matters: two fees in the same hundred give the same output, and fees 300 and 399 both mean the multiplier 997 |
| `Simulator.ZeroInputGivesZero` | src/simulator.js:26-31 | an input of 0 gives an output of 0, whatever the reserves |
| `Simulator.FloorForm` | src/simulator.js:26-31 | with `fee/100 <= 1000` and a non-empty input reserve, the output is the floor of `w*reserveOut / (reserveIn*1000 + w)` with `w = amountIn*(1000 - fee/100)`, and it is non-negative |
| `Simulator.GetAmountOut` | src/simulator.js:18-32 | for a non-negative input and `fee/100 <= 1000` the output lies between 0 and `reserveOut` |
| `Simulator.OutputBelowReserve` | src/simulator.js:28-31 | with both reserves positive, a swap pays out strictly less than `reserveOut` |
| `Simulator.OutputMonotone` | src/simulator.js:26-31 | with fixed reserves and fee, a larger input never gives a smaller output |
| `Common.LoopCount` | src/paths.js:8 | `Math.ceil((stop - start) / step)` as an iteration count: the least count of steps from `start` that reaches `stop`, and 0 when `stop <= start` |
| `Paths.Steps` | src/paths.js:7-15 | the range has `ceil((stop-start)/step)` elements; element i is `start + i*step` and is below `stop` |
| `Paths.StepsBounds` | src/paths.js:7-15 | every value of the range lies in `[start, stop)`, so `stop` is never included |
| `Paths.Range` | src/paths.js:7-15 | the push loop builds exactly `Steps(start, stop, step)` |
| `Paths.ArbPath.NHop` | src/paths.js:28-30 | the hop count is 2 exactly when pool3 is undefined and 3 exactly when it is present |
| `Paths.ArbPath.Hops` | src/paths.js:61-65 | the `pool${i+1}` / `zeroForOne${i+1}` lookups give one hop per `nhop()`, in pool order |
| `Paths.HopTokens` | src/paths.js:72-73 | for every reserve pair, the input reserve is reserve0 and the output reserve is reserve1 when zeroForOne holds, and the other way round otherwise; a hop sells one of its pool's two tokens for the other |
| `Paths.SwapHop` | src/paths.js:67-76 | one hop's swap throws exactly when its pool has no reserve entry; for a non-negative amount and `fee/100 <= 1000` it pays out between 0 and the hop's output reserve |
| `Paths.ArbPath.HasPool` | src/paths.js:32-37 | true exactly when one of the three pool addresses equals the argument ignoring case; it needs a three-hop path |
| `Paths.HasPoolIgnoresCase` | src/paths.js:32-37 | a path has each of its own pools, the result does not change when the argument is lower-cased, and an address matching no pool ignoring case is absent |
| `Paths.ShouldBlacklist` | src/paths.js:39-47 | the path is flagged exactly when pool1's token0 or token1 is a blacklisted token |
| `Paths.ShouldBlacklistReadsPool1Only` | src/paths.js:39-47 | two paths with the same pool1 get the same verdict; blacklisting only the other pools' tokens does not flag a path |
| `Paths.Quote` | src/paths.js:61-77 | folding `getAmountOut` over the hops fails exactly when some hop's pool has no reserve entry |
| `Paths.QuoteMonotone` | src/paths.js:61-77 | with every pool present, a larger input quotes at least as much, and quotes are non-negative |
| `Paths.QuoteOfZero` | src/paths.js:61-77 | quoting 0 through pools that are all present gives 0 |
| `Paths.QuoteBelowLastReserve` | src/paths.js:67-76 | a quote never reaches the last hop's output reserve when that pool is non-empty |
| `Paths.SimulateV2Path` | src/paths.js:49-79 | the hop loop starts from `amountIn * 10^d` (d the decimals of pool1's input token), takes each hop's in/out reserves by its direction, and returns the fold; it throws exactly when a pool is missing from `reserves` |
| `Paths.FirstDrop` | src/paths.js:95-111 | the step search stops at the first step whose quote throws or whose profit is strictly below the best so far; every earlier step was accepted |
| `Paths.FirstDropAt` | src/paths.js:95-111 | that stopping step is unique |
| `Paths.NonDecreasingRunsToEnd` | src/paths.js:95-111 | on a non-negative, non-decreasing profit sequence the search runs through the whole range and returns the last input with its profit, or (0, 0) on an empty range |
| `Paths.PeakIsFound` | src/paths.js:95-111 | on profits that rise to a peak and then drop, the search stops right after the peak and returns the peak's input and profit |
| `Paths.ClimbNonNegative` | src/paths.js:91-111 | the best profit held during the search is never negative |
| `Paths.OutcomeBounds` | src/paths.js:85-114 | the best input is 0 or a tried input, and the best profit is at least 0 |
| `Paths.OutcomeOfEmpty` | src/paths.js:90-114 | with nothing to try the result is (0, 0) |
| `Paths.SearchSteps` | src/paths.js:95-111 | the loop with early `break` returns the search outcome: the last accepted input and its profit, (0, 0), or a throw |
| `Paths.OptimizeAmountIn` | src/paths.js:85-114 | searches `range(0, maxAmountIn, stepSize)`; the best input is 0 or in the range, the best profit is at least 0, and an empty range gives (0, 0) |
| `Paths.ToPathParams` | src/paths.js:116-137 | returns `nhop()` entries; entry i has `routers[i]`, and its tokenIn/tokenOut are token0/token1 when zeroForOne holds and swapped otherwise |
| `Paths.CycleChains` | src/paths.js:159-226 | a cycle starts at the base token, each hop sells what the previous one bought, and the last hop returns the base token |
| `Paths.DirectionCheckNeverFires` | src/paths.js:163-205 | once a pool can trade a token, the chosen direction sells exactly that token, so the `continue` checks on the input token never fire |
| `Paths.UniqueCount` | src/paths.js:209-215 | the size of the address set is 3 exactly when the three addresses are pairwise distinct |
| `Paths.Candidate` | src/paths.js:159-226 | the innermost loop body emits a path over the three pools it was given, or nothing |
| `Paths.CandidateSound` | src/paths.js:159-226 | every emitted candidate is a closed three-hop cycle from the base token through three distinct pools |
| `Paths.CandidateComplete` | src/paths.js:159-226 | any three pools that can be traded as a closed cycle yield a candidate that trades the same tokens hop by hop |
| `Paths.CloseCycles` | src/paths.js:194-228 | the innermost loop pushes the candidates for each third pool in k order |
| `Paths.CyclesFrom` | src/paths.js:182-230 | the middle loop pushes, for each second pool in j order, what the innermost loop finds |
| `Paths.GenerateTriangularPaths` | src/paths.js:140-238 | the three nested loops return exactly the candidates in (i, j, k) order |
| `Paths.TriangularSound` | src/paths.js:140-238 | every generated path is a closed cycle from the base token through three distinct pools of the input |
| `Paths.TriangularComplete` | src/paths.js:140-238 | every closed cycle through three of the input pools is generated |
| `Utils.NextBlockBaseFee` | src/utils.js:6-31 | above the target gas the prediction is at least `baseFee + rand`; at or below it, at most `baseFee + rand` |
| `Utils.TargetGasUsed` | src/utils.js:12-14 | the target is `gasLimit/2` floored, replaced by 1 when that is 0 |
| `Utils.FeeDeltaFacts` | src/utils.js:22-26 | the two successive floor divisions equal one division by `8*target`; a gap up to the target moves the fee by at most an eighth, and a gap equal to it by exactly an eighth |
| `Utils.DivDiv` | src/utils.js:22-26 | dividing by a and then by b, both floored, equals dividing by `a*b` |
| `Utils.BaseFeeRises` | src/utils.js:19-22 | above the target, result minus rand is `base + base*(gasUsed-target)/(8*target)` rounded down, so it is at least base |
| `Utils.BaseFeeFalls` | src/utils.js:23-27 | at or below the target, result minus rand is `base - base*(target-gasUsed)/(8*target)`; it lies between `base - base/8` and base, and equals base when gasUsed is the target |
| `Utils.BaseFeeMonotone` | src/utils.js:6-31 | more gas used never predicts a lower next base fee |
| `Utils.Absorb` | src/utils.js:69-80 | one log adds its pool to the keys of both dictionaries, which stay equal |
| `Utils.SyncFold` | src/utils.js:69-80 | the insertion order is no longer than the log list |
| `Utils.SyncFoldSummarises` | src/utils.js:69-80 | from fresh dictionaries, the fold's keys are exactly the addresses in the logs; each holds the reserves and index of its winning log (the highest index, the later log on a tie); the insertion order lists each key once |
| `Utils.GetTouchedPoolReserves` | src/utils.js:59-82 | the log loop returns the fold: exactly the logged addresses as keys, each with its winning log's reserves, and the keys in insertion order |
| `Utils.LaterTransactionWins` | src/utils.js:74-79 | logs at indices 3 and 7 for one pool, in either order, leave the index-7 reserves |
| `Strategy.PathPools` | src/strategy.js:51-53 | a three-hop path's pools, in hop order |
| `Strategy.KeptPoolsSpec` | src/strategy.js:44-55 | the filtered map's keys are exactly the addresses of the pools of non-blacklisted paths; each entry is such a pool stored under its own address |
| `Strategy.FilterPools` | src/strategy.js:44-55 | the start-up loop builds that filtered map |
| `Strategy.MergeKnown` | src/strategy.js:87-93 | merging touched reserves keeps the key set of the live map |
| `Strategy.KnownTouched` | src/strategy.js:87-93 | the known touched pools are no more than the touched ones, and each is a key of the live map |
| `Strategy.SpreadsOf` | src/strategy.js:95-115 | a spread is recorded only for a path already visited, whose quote succeeded and lies above par, and it holds that quote |
| `Strategy.MergeKnownSpec` | src/strategy.js:87-93 | the merge keeps the key set; a known touched pool takes the touched reserves and every other entry is unchanged |
| `Strategy.KnownTouchedSpec` | src/strategy.js:87-93 | `touchedPools` holds exactly the touched addresses already in `reserves`, each once |
| `Strategy.TouchCountPositive` | src/strategy.js:100-104 | the reduce count is positive exactly when some touched pool is on the path |
| `Strategy.TouchedFlagsMeaning` | src/strategy.js:97-104 | path i is evaluated exactly when one of the touched pools satisfies `hasPool` |
| `Strategy.SpreadsSpec` | src/strategy.js:97-115 | the scan throws exactly when a touched path's quote throws; otherwise the spreads are keyed by exactly the touched paths whose one-token quote exceeds `10^usdcDecimals`, each holding its quote |
| `Strategy.NoneSticks` | src/strategy.js:97-115 | once a quote has thrown, later paths cannot undo it |
| `Strategy.ScanSpreads` | src/strategy.js:95-115 | the spread loop computes the specified spreads over the merged reserves |
| `Strategy.Scanner.OnBlock` | src/strategy.js:83-115 | the handler merges the touched reserves into the live map for known pools only, keeps the key set, leaves untouched entries alone, lists the known touched pools in visit order, and returns the spreads |
| `Pools.BlockRanges` | src/pools.js:44-60 | `ceil((stop-start)/step)` chunks `[start+i*step, min(start+(i+1)*step, stop)]`; consecutive chunks share endpoints, the first starts at start and the last ends at stop |
| `Pools.ParseInt` | src/pools.js:90-92 | `parseInt` of a text made only of decimal digits is the value of those digits |
| `Pools.ParseIntOfNatToString` | src/pools.js:90-92 | `parseInt` of a number's decimal text gives the number back |
| `Pools.ParseIntSkipsSpace` | src/pools.js:90-92 | leading white space is skipped: `parseInt(" 18")` is 18 |
| `Pools.ParseIntReadsSign` | src/pools.js:90-92 | a leading minus sign negates: `parseInt("-1")` is -1 |
| `Pools.ParseIntReadsHex` | src/pools.js:90-92 | a `0x` prefix switches to base 16: `parseInt("0x12")` is 18 |
| `Pools.ParseIntStopsAtNonDigit` | src/pools.js:90-92 | reading stops at the first non-digit: `parseInt("12abc")` is 12 |
| `Pools.ParseIntNaN` | src/pools.js:90-92 | a text with no leading digit ("abc", "", "-") reads as `NaN` |
| `Pools.CacheRow` | src/pools.js:31-41 | the row has seven columns: address, "2" or "3" for the version, token0, token1, and three columns of decimal digits |
| `Pools.CacheRowNumbers` | src/pools.js:31-41 | `parseInt` reads the three numeric columns of a `cacheRow` back as decimals0, decimals1 and fee |
| `Pools.ParseRow` | src/pools.js:76-95 | a parsed row was non-empty, had at least seven columns, and its address is not "address" |
| `Pools.ParseRowOfColumns` | src/pools.js:76-95 | a row whose columns are a `cacheRow` parses back to that pool |
| `Pools.ParseRows` | src/pools.js:74-96 | every pool in the parsed map is stored under its own address |
| `Pools.SplitJoin` | src/pools.js:78 | splitting a comma-joined row gives back its fields when no field contains the separator |
| `Pools.CacheSyncedPools` | src/pools.js:106-124 | the text is the header line, then one comma-joined `cacheRow` line per pool, each ending in a newline |
| `Pools.LoadCachedPools` | src/pools.js:72-96 | the row loop stores each parsed row under its first column, a later row overwriting an earlier one |
| `Pools.HeaderAndEmptyRowsSkipped` | src/pools.js:76-80 | an empty row and a row whose first column is "address" are skipped |
| `Pools.VersionColumn` | src/pools.js:82-95 | version "2" reads as UniswapV2 and anything else as UniswapV3; the pool is keyed by column 0 |
| `Pools.RowRoundTrip` | src/pools.js:31-41 | parsing a `cacheRow` joined with commas gives back the pool (fields in the order address, version, token0, token1, decimals0, decimals1, fee) |
| `Pools.HeaderSkipped` | src/pools.js:106-116 | the header line is one line, and the parser skips it |
| `Pools.LoadAfterCache` | src/pools.js:74-124 | parsing the serialised text gives every pool under its own address and nothing else, when no text field has "," or a newline, no address is "address", and addresses are distinct |
| `Multi.GetUniswapV2Reserves` | src/multi.js:26-42 | an address has an entry exactly when one of its calls succeeded, and the entry is the answer of its last successful call |
| `Multi.KeepSucceeded` | src/multi.js:28-40 | every key of the answer is one of the queried addresses |
| `Multi.KeepSucceededKeys` | src/multi.js:28-40 | the keys are exactly the addresses with a successful call, so they are a subset of `poolAddresses` |
| `Multi.KeepSucceededAppend` | src/multi.js:71 | the answers to consecutive slices, merged with the later one winning, are the answer to the whole list |
| `Multi.BatchPlan` | src/multi.js:50-54 | for n > 0, batch = ceil(n/200) >= 1 and 1 <= ceil(n/batch) <= 200; batch slices reach n and batch-1 do not |
| `Multi.SlicesCover` | src/multi.js:58-67 | the slices are non-empty and at most 200 long; the first starts at 0, each starts where the previous ended, and the last ends at n |
| `Multi.Assign` | src/multi.js:71 | no batch's entry is lost in the merge, and the last batch wins on every address it holds |
| `Multi.AssignAll` | src/multi.js:71 | copying the batch maps over one another in turn gives `Assign` of the batches |
| `Multi.BatchGetUniswapV2Reserves` | src/multi.js:45-74 | with no pools `Object.assign()` throws; otherwise the merged batches equal the single-call answer over the whole list |
| `Bundler.Path.ToList` | src/bundler.js:21-23 | `[router, tokenIn, tokenOut]` |
| `Bundler.FlashloanCodes` | src/bundler.js:26-30 | NotUsed = 0, Balancer = 1, UniswapV2 = 2, and the codes are distinct |
| `Bundler.ToBundle` | src/bundler.js:52-59 | a one-entry bundle pairing the sender with the transaction |
| `Bundler.TransferInTx` | src/bundler.js:111-120 | a type-2 transaction with the common chain id, nonce and sender that sends amountIn to the bot with gas limit 60000 and the given fees |
| `Bundler.TransferOutTx` | src/bundler.js:122-135 | a type-2 transaction with the common chain id, nonce, sender and the given fees that calls `recoverToken(token)` with no value and gas limit 50000 |
| `Bundler.ApproveTx` | src/bundler.js:137-152 | a type-2 transaction with the common chain id, nonce, sender and the given fees that calls `approveRouter(router, tokens, force)` with gas limit 55000 per token |
| `Bundler.ApproveGasPerToken` | src/bundler.js:148 | one more token adds 55000 to the approval's gas limit |
| `Bundler.HopTypes` | src/bundler.js:167-169 | three "address" entries per hop |
| `Bundler.HopValuesAt` | src/bundler.js:167-170 | entry 3i+j of the hop values is element j of hop i's `toList()` |
| `Bundler.OrderCalldata` | src/bundler.js:162-170 | types `["uint","uint","address"]` then three "address" per hop; values `[amountIn, flashloan, loanFrom]` then each hop's `toList()`; both of length 3 + 3·nhop |
| `Bundler.OrderCalldataLayout` | src/bundler.js:162-170 | hop i's router, tokenIn and tokenOut sit at value positions 3+3i, 4+3i and 5+3i, typed "address" |
| `Bundler.OrderTx` | src/bundler.js:154-184 | a type-2 transaction to the bot with the common chain id, nonce, sender and the given fees; it carries those argument lists, no value and gas limit 600000 |
| `Bundler.SendBundle` | src/bundler.js:61-86 | simulates at blockNumber first; a simulation error returns "" with no submission; otherwise it submits for blockNumber + 1 with the replacement id it returns, and a rejected submission throws |

## Left out

- `reservesToPrice` (src/simulator.js:5-16) computes in floating point for display only.
- src/streams.js is not part of this model: it is WebSocket subscription and event-emitter plumbing.
- `estimateNextBlockGas` is an HTTP call to a fee-estimation service.
- `provider.getLogs` and the ABI decoding of `Sync` logs are left out: `GetTouchedPoolReserves` takes the decoded logs as input.
- The multicall contract call and the decoding of its answers are left out: `GetUniswapV2Reserves` takes the decoded answers as input.
- The `PairCreated` log scan and the ERC-20 `decimals` calls of `loadAllPoolsFromV2` are network I/O.
- File reads and writes are left out: the cache is modelled as a string.
- The nonce, chain id and sender of `_common_fields` are RPC results, so they are a `CommonFields` parameter.
- `sendTx`, `cancelBundle`, `waitBundle`, `setup` and the Flashbots provider forward to library calls. `signBundle`, `simulate`, `sendRawBundle`, `AbiCoder.encode` and `encodeFunctionData` are kept as uninterpreted values.
- `uuid.v4()` and `Math.random()` are sources of randomness, so they are parameters.
- `Promise.all`, the async event handler and the un-awaited `setup()` in the `Bundler` constructor are concurrency, which the model does not capture.
- Logging, progress bars and the configuration wiring of `main` are left out.
- NextBlockBaseFee: the random term's range `[0, 9]` is a precondition, since the term comes from `Math.floor(Math.random() * 10)`.
- SimulateV2Path: uses the exact integer `amountIn * 10^d` and `BigInt` quotes. It does not model the `Number` rounding of `getAmountOut`'s result (src/simulator.js:31) or of the scaled input.
- OptimizeAmountIn: returns the profit in the input token's smallest unit, not the floating-point `profit / 10**d` (src/paths.js:113).
- ScanSpreads: compares the quote with `10^usdcDecimals` and records the quote. The source records the floating-point percentage `(quote / 10^6 - 1) * 100`, which is positive exactly when that comparison holds.
- HasPool: lower-cases ASCII letters only, which covers hexadecimal addresses; full Unicode case mapping is not modelled.
- LoadCachedPools: a row with fewer than seven columns, or with a numeric column that `parseInt` reads as `NaN` or as a negative number, is dropped. The source builds a `Pool` with `undefined`, `NaN` or negative fields from such a row; the model has no such values. `parseInt` is exact here, while the source's `Number` result loses precision above 2^53.
- ParseRow: the same restriction: it returns `None` for the rows the source turns into a `Pool` with `undefined`, `NaN` or negative fields.
- ToPathParams: requires at least `nhop()` routers. With fewer, the source builds a `Path` whose router is `undefined`, which the model has no value for.
- LoopCount, Steps, Range, OptimizeAmountIn, BlockRanges: require a positive step. The two `range` helpers of the source (src/paths.js:7-15, src/pools.js:44-60) also accept a negative step, counting down when stop < start. With a step of 0 and stop > start, `Math.ceil` returns Infinity and the loop never ends.
- SyncFold: its own contract states only the length of the insertion order; its keys, values and order are stated by `SyncFoldSummarises`.
- GenerateTriangularPaths: the input is the pool sequence in `Object.values` order, and two-hop paths are never generated (as in the source).
