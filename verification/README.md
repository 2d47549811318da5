# Vertix: a verified model of the oracle, asset and fee machines

This project models, in Dafny 4.11, the three on-chain modules of Vertix and its price-feeding sidecar, and proves
what they guarantee over whole runs.

* **x/oracle.** Feeders submit prices for validators. At every vote-window boundary the end blocker checks a power
  quorum per pair, publishes a stake-weighted median, keeps a day of samples, slashes outliers and repeat missers,
  and clears the window.
* **x/rwa and x/fees.** Assets are registered against an escrowed bond, attested with an oracle price, minted as a
  per-asset denom, transferred under allow and deny lists, settled or slashed. Fees are collected, and a share of them
  is burned at every block end.
* **The feeder sidecar.** A cross-source median with deviating sources dropped, a cache of fresh prices, and a loop
  that submits once per vote window.

## How the model is organised

| files | content |
|---|---|
| `Dec`, `Sums`, `Sorting`, `Bytes`, `KvStore`, `Results` | 18-digit decimals with their real rounding, sums, in-place sorting, byte order, ordered iteration |
| `OracleKeys`, `OracleStores` | store keys as bytes, and scans of the byte-keyed store shown to visit exactly the typed records |
| `OracleAggregate`, `OracleTwap`, `OracleState`, `OracleMsgs`, `OracleMessages` | medians, quorum, time-weighted prices, the records, one window boundary stated record by record, the messages, and what they do said without their code |
| `OracleKeeper` | the keeper class, its loops and store writes, proved against those statements |
| `OracleRuns`, `OracleGenesis` | every run of messages, block ends and block starts; export and import |
| `Ledger`, `RwaState`, `RwaKeeper` | the bank ledger, closed forms of every message, the handlers that reach them through module accounts, delivery with rollback |
| `RwaRuns`, `RwaTheorems`, `RwaMessages`, `RwaGenesis`, `RwaExamples` | every run of messages, bank sends by anybody, burns elsewhere and block ends; exactly when each message succeeds and what it changes; export and import; runs that reach the exceptions |
| `RwaAttestation` | x/oracle and x/rwa on one chain |
| `FeederAggregate`, `FeederLoop`, `FeederOnChain` | the sidecar, and where its batches end up on the chain |

Decimals are integers scaled by 10^18. `Mul` chops a product half to even; `Quo` scales by 10^36, truncates, and then
chops, so it rounds twice. A failed message leaves the state unchanged. Validator powers are fixed inside one end
blocker and calls to x/slashing are an output log. Block times do not go back and are non-negative nanoseconds.
x/staking lists an operator once. Prices are parsed decimals and addresses are 1 to 255 bytes. Module accounts are named
by their module name, which stands for its hash. Anybody may send coins to any account, in every run. The x/rwa machine
takes the answer of x/oracle as an input; `RwaAttestation` runs the two together.

## Results that correct the obvious claim

* The published price is not always a textbook median: `TextbookExactlyWithoutOddCut` says exactly when it is, and
  `ThreeEqualStakes` shows three equal stakes publishing the lowest price.
* The quorum test can pass just below the configured fraction: `QuorumExactly` gives the share it really asks for, and
  `QuorumCanRoundUp` an instance.
* The design note (docs/specs/2026-05-29-phase-1-oracle-module-design.md:321) starts the leading sample of a
  time-weighted price at the window's start; the code counts it from its own time. The model follows the code.
  The two quotes agree when nothing precedes the window or the leading price is already the average (`ClampHarmless`),
  and only when the two averages are within about one unit of the last digit (`ClampSmallWhenQuotesAgree`);
  `ClampMattersExactly` closes the gap, rounding by rounding. `LeadingSampleNotClamped` gives a query where they differ
  and `RoundingHidesLeadIn` one where only the rounding makes them agree.
* The staleness limit is not always the configured number of seconds: beyond 9223372036 of them the 64-bit product
  wraps (`MaxAgeIsSecondsExactly`), and one second more makes every price stale (`MaxAgeWraps`).
* One account can feed for two validators: `SharedFeederExactly` says exactly when, `SharedFeederReached` gives a run.
* The registered price invariant fails after a parameter update that drops a stored pair, and only then:
  `PricesInvariantKeptExactly`, with a run in `PricesInvariantBroken`.
* The two x/fees invariants hold exactly while no other module burns uvtx and nobody sends uvtx to the fees account:
  `InvariantsHoldExactly`, with runs in `ReconcileBroken` and `ModuleBalanceBroken`.
* A coin of an asset sent to the x/rwa module account blocks settling for good: `StrandedCoinBlocksSettling`. Any holder
  can send it: `AnyHolderCanStrand`.
* A genesis export is not always importable: both `ExportAcceptedExactly` lemmas say exactly when it is, and both
  `ExportRefused` lemmas give a run after which it is not.
* An accepted x/rwa genesis need not be backed by the bank: `ImportedIsInitialExactly` says exactly when it is,
  `UnbackedGenesisAccepted` gives one that is not. The runs of x/rwa start from the backed ones.
* A feed key of the empty address collides with those of real addresses (`EmptyAddressCollides`), and asset ids 256
  bytes apart would collide as members (`LongIdsCollide`).

## Model

| member | source | states |
|---|---|---|
| `OracleAggregate.WeightedMedian` | x/oracle/keeper/aggregate.go:16-37 | the in-place sort and cumulative scan return the least submitted price whose at-or-below stake reaches half the total rounded down, of the slice as it was given; an empty slice gives zero; the slice is permuted only |
| `OracleAggregate.UnweightedMedian` | x/oracle/keeper/aggregate.go:39-47 | returns the least price that at least half of the prices do not exceed |
| `OracleAggregate.StakeMedianUnique` | x/oracle/keeper/aggregate.go:16-37 | the stake median is unique |
| `OracleAggregate.StakeMedianPermutes` | x/oracle/keeper/aggregate.go:16-37 | the order of the submissions does not matter |
| `OracleAggregate.StakeMedianAtMost` | x/oracle/keeper/aggregate.go:25-36 | the median is at or below a bound exactly when somebody is and the stake there reaches the half |
| `OracleAggregate.StakeMedianSplits` | x/oracle/keeper/aggregate.go:25-36 | less than half the stake is strictly below (from a total of two on) and at most the larger half above |
| `OracleAggregate.StakeMedianRobust` | x/oracle/keeper/aggregate.go:16-37 | more than the larger half of the stake inside an interval keeps the median inside |
| `OracleAggregate.StakeMedianMonotone` | x/oracle/keeper/aggregate.go:16-37 | raising one submitted price never lowers the median |
| `OracleAggregate.TextbookExactlyWithoutOddCut` | x/oracle/keeper/aggregate.go:28 | the published price leaves at most half the stake on either side exactly when the stake is even or no price cuts it at the rounded-down half |
| `OracleAggregate.ThreeEqualStakes` | x/oracle/keeper/aggregate.go:28 | three equal stakes publish the lowest price, which is no textbook median |
| `OracleAggregate.CountMedianRobust` | x/oracle/keeper/aggregate.go:39-47 | a strict majority by count inside an interval keeps the count median inside |
| `OracleAggregate.QuorumExactly` | x/oracle/keeper/aggregate.go:49-56 | the exact power share the twice-rounded quorum test accepts |
| `OracleAggregate.QuorumNeverRefusesShare` | x/oracle/keeper/aggregate.go:49-56 | a share at or above the fraction always passes |
| `OracleAggregate.QuorumCanRoundUp` | x/oracle/keeper/aggregate.go:49-56 | two thirds of the power passes a fraction just above two thirds |
| `OracleKeys.FeedKeyRoundTrip` | x/oracle/types/keys.go:28-52 | parsing a feed key gives back its parts exactly for non-empty addresses |
| `OracleKeys.ParsedKeyIsFeedKey` | x/oracle/types/keys.go:34-52 | whatever parses with a non-empty address is the key of what it parses to |
| `OracleKeys.EmptyAddressCollides` | x/oracle/types/keys.go:28-32 | the empty address would share keys with real ones |
| `OracleKeys.RawKeyInjective` | x/oracle/types/keys.go:17-92 | no two records of any of the eight kinds share a store key |
| `OracleKeys.TwapScanIsExact` | x/oracle/types/keys.go:58-71 | scanning one pair's prefix meets that pair's samples and no other record |
| `OracleKeys.TwapKeyOrder` | x/oracle/types/keys.go:58-65 | store order of a pair's samples is time order, both ways |
| `OracleStores.IterateAllFeeds` | x/oracle/keeper/keeper.go:233-254 | the scan of the raw store visits every stored feed exactly once with its value, in the order of the keys |
| `OracleStores.PutFeed` | x/oracle/keeper/keeper.go:126-137 | writing one raw key writes one feed and disturbs no other |
| `OracleStores.DeleteAllFeeds` | x/oracle/keeper/keeper.go:256-274 | deleting the collected keys leaves no feed |
| `OracleStores.IterateSamples` | x/oracle/keeper/twap.go:24-48 | the scan lists all of a pair's samples, oldest first |
| `OracleStores.PutSample` | x/oracle/keeper/twap.go:14-22 | writing one raw key writes one sample and disturbs no other |
| `OracleStores.PruneOlderThan` | x/oracle/keeper/twap.go:24-48 | the scan that stops early removes exactly the pair's samples before the cutoff |
| `OracleStores.WalkIsWindow` | x/oracle/keeper/twap.go:70-81 | the reverse walk that stops early collects exactly the samples in the window and the newest at or before its start |
| `OracleTwap.AverageInRange` | x/oracle/keeper/twap.go:95-116 | the weighted average lies between the lowest and highest price it averages, roundings included |
| `OracleTwap.AverageIsRounded` | x/oracle/keeper/twap.go:95-116 | the result is the price in force averaged over every nanosecond since the first sample, to within half a unit of the last digit plus 10^-18 of one |
| `OracleTwap.AreaIsPriceOver` | x/oracle/keeper/twap.go:95-109 | the running weighted sum is the price in force summed over every nanosecond, for any number of samples |
| `OracleTwap.AreaSplits` | x/oracle/keeper/twap.go:95-109 | the weighted sum splits at any sample, and one sample's is its price times the time since |
| `OracleTwap.ContributesExactly` | x/oracle/keeper/twap.go:64-81 | a query uses a sample exactly when it is the pair's newest at some instant of the window |
| `OracleTwap.QuotesInForce` | x/oracle/keeper/twap.go:64-116 | what the average takes as the price at an instant is that of the pair's newest stored sample then |
| `OracleTwap.QuoteInRange` | x/oracle/keeper/twap.go:50-117 | any quote lies between the lowest and highest contributing sample |
| `OracleTwap.TwapUnique` | x/oracle/keeper/twap.go:50-117 | a state determines the answer of a query |
| `OracleTwap.OnlyFirstLeads` | x/oracle/keeper/twap.go:70-81 | only the first sample of a window can lie at or before its start |
| `OracleTwap.ClampHarmless` | x/oracle/keeper/twap.go:78-116 | the two quotes agree when nothing precedes the window or the leading price is the average of the whole curve |
| `OracleTwap.ClampSmallWhenQuotesAgree` | x/oracle/keeper/twap.go:78-116 | when they agree, the two averages are within little more than one unit of the last digit, stated as a bound on the leading price, the area and the lead-in |
| `OracleTwap.ClampMattersExactly` | x/oracle/keeper/twap.go:78-116 | the quote equals the designed one, which counts the leading sample from the window's start, exactly when both averages, roundings included, are rounded to the same number |
| `OracleTwap.LeadingSampleNotClamped` | x/oracle/keeper/twap.go:78-80 | a state with two samples whose query answers 1.5 where the design answers at most 1.1 |
| `OracleTwap.RoundingHidesLeadIn` | x/oracle/keeper/twap.go:95-116 | two samples whose two averages differ and are quoted alike |
| `OracleState.SubmittedPowerBounded` | x/oracle/keeper/abci.go:66-97 | each validator's power is counted at most once per pair, so the submitted power is that of the voters and at most the listed power |
| `OracleState.BallotExactly` | x/oracle/keeper/abci.go:76-97 | a stored feed is a ballot, with its price and its validator's power, exactly when the price is positive and the validator is bonded with power |
| `OracleState.SubmittersExactly` | x/oracle/keeper/abci.go:76-97 | a feed counts exactly for a validator listed as bonded, with power and a positive price |
| `OracleState.LiveExactly` | x/oracle/keeper/abci.go:101-106 | a pair is aggregated exactly when it is accepted, somebody submits it, and the submitters' summed power reaches the share the twice-rounded test asks for |
| `OracleState.DeviatesExactly` | x/oracle/keeper/abci.go:134-138 | a price above or below the reference is an outlier exactly from a whole-number distance on, both roundings counted |
| `OracleState.MissedExactly` | x/oracle/keeper/abci.go:149-159 | a validator misses a window exactly when it has no feed for some pair that reaches the quorum |
| `OracleState.PublishedUnique` | x/oracle/keeper/abci.go:110 | the published price of a set of ballots is unique |
| `OracleState.PublishedIsSubmitted` | x/oracle/keeper/abci.go:76-113 | the published price is positive and was submitted by a bonded validator with power |
| `OracleState.PublishedMonotone` | x/oracle/keeper/abci.go:104-113 | a counted validator raising its submitted price never lowers the published price |
| `OracleKeeper.Validate` | x/oracle/types/params.go:25-64 | the checks in order, with the set of pairs seen so far, give the first failing check's error, and none exactly for valid parameters |
| `OracleKeeper.Keeper.EndBlocker` | x/oracle/keeper/abci.go:15-190 | off a boundary nothing happens; at one, prices, samples, counters and slash calls are exactly as the boundary relation says for every pair, sample, validator and call, the calls in the order the loops make them, and no feed is left |
| `OracleState.SlashedOnce` | x/oracle/keeper/abci.go:134-187 | no call to x/slashing is made twice at one boundary |
| `OracleKeeper.Keeper.AggregateAll` | x/oracle/keeper/abci.go:64-142 | exactly the pairs with a quorum get a price, a sample and a pruned history; exactly the outliers are slashed, pair by pair in accept-list order |
| `OracleKeeper.Keeper.AggregatePair` | x/oracle/keeper/abci.go:66-142 | one pair: skipped without submissions or quorum, otherwise published and its outliers slashed |
| `OracleKeeper.CollectBallots` | x/oracle/keeper/abci.go:76-97 | the visited feeds yield each valid ballot once, in the order of the feeds, and their exact summed power |
| `OracleKeeper.SlashOutliers` | x/oracle/keeper/abci.go:134-141 | exactly the ballots whose rounded deviation exceeds the threshold are slashed, in the order of the feeds |
| `OracleKeeper.SlashValidator` | x/oracle/keeper/abci.go:192-215 | x/slashing is called exactly for a validator with a consensus address and power |
| `OracleKeeper.Keeper.CountWindows` | x/oracle/keeper/abci.go:144-187 | every listed validator's counters advance or restart, and exactly the repeat missers are slashed, in the listed order |
| `OracleKeeper.Keeper.CountWindow` | x/oracle/keeper/abci.go:144-187 | one validator's counters and slash, all others untouched |
| `OracleKeeper.Keeper.SubmittedAll` | x/oracle/keeper/abci.go:149-159 | true exactly when no live pair was left out |
| `OracleKeeper.Keeper.SubmittedPairs` | x/oracle/keeper/keeper.go:276-286 | the set of pairs the validator has a feed for |
| `OracleKeeper.Keeper.AppendTwapEntry` | x/oracle/keeper/twap.go:14-22 | adds or overwrites one sample |
| `OracleKeeper.Keeper.PruneTwapOlderThan` | x/oracle/keeper/twap.go:24-48 | removes exactly the pair's samples before the cutoff |
| `OracleKeeper.Keeper.GetTwap` | x/oracle/keeper/twap.go:50-117 | the scan, reversal and running sums give the quote of the window's samples, or the right error |
| `OracleKeeper.Average` | x/oracle/keeper/twap.go:89-116 | the running sums are the area under the step curve and its length; the zero-weight error cannot occur |
| `OracleKeeper.Keeper.SubmitFeed` | x/oracle/keeper/msg_server.go:53-104 | stores the feed with the current height, or the first failing check's error |
| `OracleMessages.SubmitFeedExactly` | x/oracle/keeper/msg_server.go:53-104 | a submission succeeds exactly for a positive price of an accepted pair by the delegated account, or without a delegation the operator's, of a bonded validator with power; it writes that one feed; otherwise which error |
| `OracleMessages.SetFeederExactly` | x/oracle/keeper/msg_server.go:26-51 | delegating succeeds exactly for a bonded validator and an account no other validator is bound to; that account then submits for it, and for every other validator the same accounts as before |
| `OracleMessages.RedelegationSucceeds` | x/oracle/keeper/feeder.go:11-24 | a validator can return to an account it was bound to before |
| `OracleMessages.UpdateParamsExactly` | x/oracle/keeper/msg_server.go:106-132 | an update succeeds exactly from the authority and within the numeric bounds and pair format; it clears the counters exactly when the accept list changes |
| `OracleMessages.PairOkExactly` | x/oracle/types/params.go:9 | the pair format: upper-case letters or digits on both sides of one colon |
| `OracleMessages.GetPriceExactly` | x/oracle/keeper/keeper.go:62-94 | a price is read exactly when the pair is accepted and the stored price is at most the configured number of seconds old; otherwise which error |
| `OracleMessages.MaxAgeIsSecondsExactly` | x/oracle/keeper/keeper.go:80-85 | the staleness limit is the configured seconds exactly up to 9223372036 of them |
| `OracleMessages.MaxAgeWraps` | x/oracle/keeper/keeper.go:80-85 | with one second more every price is stale |
| `OracleRuns.InvHolds` | x/oracle/keeper/abci.go:15-190 | in every reachable state prices and samples are positive and not from the future, the sample at a price's time is that price and none is newer, delegations are mirrored, and misses never exceed windows |
| `OracleRuns.ReadersAgree` | x/oracle/keeper/twap.go:84-92 | in every reachable state both readers accept, or both report staleness, once a pair has a sample; neither reads a pair that is not accepted |
| `OracleRuns.PublishesExactly` | x/oracle/keeper/abci.go:101-120 | at a boundary exactly the pairs that reach the quorum get a new record: the median, the block's height and its time; no other step touches a record |
| `OracleRuns.SamplesAreLastDay` | x/oracle/keeper/abci.go:113-126 | a pair's samples are exactly its publications of the day before the latest one, with their prices |
| `OracleRuns.PriceIsLatestPublication` | x/oracle/keeper/abci.go:113-120 | a published pair's stored price is its latest publication |
| `OracleRuns.CountersRefineHistory` | x/oracle/keeper/keeper.go:153-231 | in every reachable state a validator's counters count the windows since its last restart and those in which it left out a pair that reached the quorum |
| `OracleRuns.MissSlashExactly` | x/oracle/keeper/abci.go:178-215 | the miss call, with its rate, power and height, is made exactly when the validator has a consensus address and power, its history is full and the misses exceed a whole-number bound; no other miss call is made |
| `OracleRuns.OutlierSlashExactly` | x/oracle/keeper/abci.go:101-142 | the outlier call for a pair, with its rate, power and height, is made exactly when the pair reaches the quorum and a counted, slashable validator's price is too far above or below the reference; no other outlier call is made |
| `OracleRuns.DiligentNeverSlashed` | x/oracle/keeper/abci.go:149-186 | a validator with a feed for every accepted pair at every boundary is never slashed for misses |
| `OracleRuns.FeedsOnlyFromAuthorized` | x/oracle/keeper/msg_server.go:53-104 | a feed appears or changes only by its authorized feeder, for an accepted pair and a bonded validator with power |
| `OracleRuns.FeedsAreWaiting` | x/oracle/keeper/keeper.go:126-137 | in every reachable state the stored feeds are exactly the latest accepted submissions since the last boundary, with their price and height |
| `OracleRuns.WaitingExactly` | x/oracle/keeper/abci.go:189 | a submission waits exactly until a boundary or a later submission of the same validator and pair |
| `OracleRuns.FeedsAreFromThisWindow` | x/oracle/keeper/abci.go:189 | every stored feed is younger than every past boundary, so no feed is read twice |
| `OracleRuns.FeedsWaitForBoundary` | x/oracle/keeper/keeper.go:126-137 | until the next boundary a stored feed is unchanged, or is the price and height of a later accepted submission of the same validator and pair |
| `OracleRuns.AggregatedOnce` | x/oracle/keeper/abci.go:66-189 | the first boundary after an accepted submission reads it, with its price, exactly when the validator has not replaced it; it is then one of the pair's ballots exactly when the pair is still accepted and the validator is bonded with power; no other boundary of the run ever reads it |
| `OracleRuns.BindingsArePermanent` | x/oracle/keeper/feeder.go:11-24 | a feeder once bound stays bound to the same validator |
| `OracleRuns.ExplicitFeedersDiffer` | x/oracle/keeper/feeder.go:11-24 | no two validators have the same explicit feeder |
| `OracleRuns.SharedFeederExactly` | x/oracle/keeper/feeder.go:38-45 | two validators share an authorized feeder exactly when one never delegated and the other delegated to its operator account |
| `OracleRuns.SharedFeederReached` | x/oracle/keeper/feeder.go:11-45 | one delegation, from a genesis without any, makes an account the feeder of two validators |
| `OracleRuns.PublishedRobust` | x/oracle/keeper/abci.go:104-120 | more than the larger half of the submitted power inside an interval puts the published price there |
| `OracleRuns.HonestMajorityNotSlashed` | x/oracle/keeper/abci.go:134-141 | if most counted validators report within a band the threshold allows at its lower end, none of them is slashed as an outlier for the pair, roundings included |
| `OracleRuns.PricesInvariantKeptExactly` | x/oracle/keeper/invariants.go:16-50 | a step breaks the registered price invariant exactly when a parameter update drops a stored pair |
| `OracleRuns.PricesInvariantBroken` | x/oracle/keeper/msg_server.go:106-132 | one parameter update that leaves out a stored pair breaks the registered invariant |
| `OracleGenesis.InitGenesis` | x/oracle/keeper/genesis.go:13-48 | a genesis is accepted exactly under its checks and loads nothing but parameters, prices and delegations |
| `OracleGenesis.ExportGenesis` | x/oracle/keeper/genesis.go:50-96 | lists parameters, every price once in the order of the pairs, and every explicit delegation once, sorted by a given order of the validators' texts |
| `OracleGenesis.ExportAcceptedExactly` | x/oracle/types/genesis.go:17-65 | an export of a reachable state is accepted back exactly when all stored prices are accept-listed and not from the future and all delegating validators exist |
| `OracleGenesis.ExportRefused` | x/oracle/types/genesis.go:17-65 | after that parameter update the export is refused by every chain |
| `OracleGenesis.RoundTrip` | x/oracle/keeper/genesis.go:13-96 | import after export restores parameters, prices and delegations; bindings come back as the exact inverse of the delegations, so all of them only if none was stale |
| `OracleGenesis.ImportedIsInitial` | x/oracle/keeper/genesis.go:13-48 | an accepted import is a state a run can start from |
| `RwaState.FeeIsFloor` | x/rwa/keeper/fee.go:13-20 | the fee is exactly the product rounded down |
| `RwaState.FeeAtMost` | x/fees/keeper/abci.go:35 | a fee or burn never exceeds its base |
| `RwaState.FeesWithinCount` | x/fees/keeper/abci.go:35 | k rounded shares, each at its own rate, fall short of the exact total by less than k units and never exceed it |
| `RwaState.SplittingSavesLittle` | x/rwa/keeper/fee.go:13-20 | splitting a mint into n parts lowers the total fee by less than n units |
| `RwaState.DenomRoundTrip` | x/rwa/keeper/denom.go:9-24 | parsing a built denom gives the id back, and no asset denom is uvtx |
| `RwaKeeper.Keeper.RegisterAsset` | x/rwa/keeper/msg_server.go:24-74 | escrows the bond and records a draft, or the first failing check's error |
| `RwaAttestation.AttestedWhenFresh` | x/rwa/keeper/msg_server.go:99-105 | on a chain with both modules, an asset past the draft status carries its genesis price or one x/oracle held for its pair at an earlier point of the run: positive, of an accepted pair, and fresh then |
| `RwaAttestation.PriceStep` | x/rwa/keeper/msg_server.go:88-117 | an event keeps an attested price or, attesting, takes the oracle's fresh positive one |
| `RwaKeeper.Keeper.MintRWA` | x/rwa/keeper/msg_server.go:119-171 | fee, mint into the module account and payout amount to charging the fee and crediting the issuer |
| `RwaKeeper.Keeper.UpdateRestrictions` | x/rwa/keeper/msg_server.go:213-262 | the four loops amount to additions then removals on each list |
| `RwaKeeper.Keeper.SettleRWA` | x/rwa/keeper/msg_server.go:264-324 | fee, collection, burn and release amount to charging the fee, burning the whole notional at the issuer and returning the bond |
| `RwaKeeper.Keeper.SlashBond` | x/rwa/keeper/msg_server.go:326-360 | the bond of an active asset goes to the community pool and the asset is settled with none |
| `RwaKeeper.Keeper.Deliver` | x/rwa/keeper/msg_server.go:24-374 | a message that fails after some bank calls leaves no trace; one that succeeds reaches its closed form |
| `RwaKeeper.Keeper.SendCoins` | x/rwa/keeper/send_restriction.go:9-24 | every send meets the restriction hook before the balances |
| `RwaMessages.SendExactly` | x/rwa/keeper/send_restriction.go:9-24 | a send of any coins goes through exactly when, for every asset coin in it, both accounts are free of restrictions or one is the module account, and the sender has the coins; it moves them and changes nothing else |
| `RwaMessages.TransferExactly` | x/rwa/keeper/msg_server.go:173-211 | a transfer succeeds exactly for an active asset and a positive amount the sender holds, between accounts that are open or listed and not denied, or to the module account; otherwise which error |
| `RwaMessages.TransferPays` | x/rwa/keeper/msg_server.go:192-200 | the amount leaves the sender and reaches the recipient; no other balance, supply or record changes |
| `RwaMessages.RestrictionsExactly` | x/rwa/keeper/msg_server.go:213-262 | restrictions change exactly by the issuer of an unsettled asset in batches of at most 100; an account is then on a list exactly when it was there or was added, and was not removed |
| `RwaMessages.DenyingFreezes` | x/rwa/keeper/restriction.go:41-61 | an account added to the deny list and not removed is frozen afterwards |
| `RwaMessages.MintExactly` | x/rwa/keeper/msg_server.go:119-171 | minting succeeds exactly for the issuer of an attested or active asset with a positive notional and uvtx for the floored fee; otherwise which error |
| `RwaMessages.MintPays` | x/rwa/keeper/msg_server.go:151-167 | the new coins reach the issuer and no one else, and the notional grows by them |
| `RwaMessages.RegisterPays` | x/rwa/keeper/msg_server.go:44-64 | the bond moves from the issuer into escrow and an open draft with that bond is recorded |
| `RwaMessages.ValidAssetIdExactly` | x/rwa/types/msgs.go:13-28 | the id format: a lower-case letter or digit, then 2 to 42 letters, digits or hyphens |
| `RwaKeeper.Keeper.LockBond` | x/rwa/keeper/bond.go:12-16 | moves the bond into the module account or fails without effect |
| `RwaKeeper.Keeper.ReleaseBond` | x/rwa/keeper/bond.go:18-22 | moves the bond back unless the recipient is blocked or funds are short |
| `RwaKeeper.Keeper.SlashBondToCommunityPool` | x/rwa/keeper/bond.go:24-29 | moves the bond to the community pool |
| `RwaKeeper.Keeper.CollectFee` | x/rwa/keeper/fee.go:22-31 | pays the fee into the fee collector in one hop; zero is a no-op |
| `RwaKeeper.Keeper.EndBlocker` | x/fees/keeper/abci.go:13-67 | moving the share to the fees account and burning it there amounts to burning it at the fee collector and recording it; the two swallowed bank errors cannot occur |
| `RwaKeeper.MintViaModule` | x/rwa/keeper/msg_server.go:151-157 | minting into a module account and paying out is minting to the payee |
| `RwaKeeper.BurnViaModule` | x/rwa/keeper/msg_server.go:294-302 | collecting into a module account and burning is burning at the payer |
| `RwaRuns.NextKeepsInv` | x/rwa/keeper/invariants.go:16-57 | every event keeps the ledger balanced, supplies tied to notionals, the escrow equal to non-settled bonds plus donations, and uvtx accounted for |
| `RwaTheorems.InvariantsHoldExactly` | x/rwa/keeper/invariants.go:16-57 | in every state reachable from a genesis whose assets the bank backs, the escrow equals non-settled bonds plus donations, missing uvtx equals what was burned here and elsewhere, both x/rwa invariants hold, and each x/fees invariant holds exactly without outside burns or donations |
| `RwaTheorems.SupplyFollowsNotional` | x/rwa/keeper/invariants.go:42-57 | in every state so reachable supply is the minted notional, zero after settling and for unknown ids, unchanged after slashing |
| `RwaTheorems.SettleSucceedsExactly` | x/rwa/keeper/msg_server.go:264-324 | settling succeeds exactly for the issuer of an active asset who can pay the fee and holds the whole supply; the escrow never blocks it |
| `RwaTheorems.SettleLeavesNothing` | x/rwa/keeper/msg_server.go:294-309 | after settling nobody holds any coin of the asset and the bond has left the escrow |
| `RwaTheorems.SlashSucceedsExactly` | x/rwa/keeper/msg_server.go:326-360 | governance can slash exactly the active assets |
| `RwaTheorems.MintCosts` | x/rwa/keeper/msg_server.go:147-150 | a mint costs exactly the floored fee, all of it collected |
| `RwaTheorems.SettlePays` | x/rwa/keeper/msg_server.go:289-309 | settling costs exactly the floored fee and returns the bond from the escrow |
| `RwaTheorems.SlashPays` | x/rwa/keeper/msg_server.go:340-345 | slashing moves exactly the bond and nothing else |
| `RwaTheorems.LifeStep` | x/rwa/keeper/msg_server.go:88-360 | an event changes an asset only along draft, attested, active, settled, by the issuer or governance as allowed; the price comes only with the attestation, the notional only with a mint, the bond goes only by slashing, and only the issuer changes the open flag |
| `RwaTheorems.LifeOverRun` | x/rwa/keeper/msg_server.go:24-360 | over any run an asset keeps its identity and its attested price, never moves back, and stays entirely unchanged once settled |
| `RwaTheorems.FrozenStep` | x/rwa/keeper/restriction.go:41-61 | an event changes a frozen holder's balance only by a mint payout or by what it gives up to the module account |
| `RwaTheorems.FrozenOverRun` | x/rwa/keeper/send_restriction.go:9-24 | over any run in which a holder stays denied, or not allowed, its balance is the old one plus payouts minus what it gave up |
| `RwaTheorems.StrandedCoinBlocksSettling` | x/rwa/keeper/restriction.go:41-47 | once the module account holds a coin of an asset, no later settle of it can succeed |
| `RwaTheorems.BlockEndSplits` | x/fees/keeper/abci.go:35-67 | a block end burns exactly the floored share of the collected fees and touches no other balance, nor the fees account |
| `RwaTheorems.BurnedIsSumOfShares` | x/fees/keeper/keeper.go:120-132 | over any run the counter grows by the floored share of every block's fees at that block's ratio |
| `RwaTheorems.BurnedWithinBlocks` | x/fees/keeper/abci.go:35 | over k block ends the burn is below the sum of each block's fees times its ratio by less than k units, and never above, however the ratio changes |
| `RwaGenesis.MembershipScanIsExact` | x/rwa/types/keys.go:65-76 | a scan of one asset's list meets exactly its members, and the address follows the id |
| `RwaGenesis.LongIdsCollide` | x/rwa/types/keys.go:69-76 | ids 256 bytes apart would not be told apart |
| `RwaGenesis.IterateMembers` | x/rwa/keeper/restriction.go:63-87 | lists exactly the asset's members from the raw keys, each once, in the order of the addresses |
| `RwaGenesis.AddMember` | x/rwa/keeper/restriction.go:12-22 | writing one raw key adds one member |
| `RwaGenesis.ExportGenesis` | x/rwa/keeper/genesis.go:39-64 | lists parameters, every asset once in the order of the ids, and every member of both lists once: asset by asset, allowed before denied, by address |
| `RwaGenesis.InitGenesis` | x/rwa/keeper/genesis.go:12-37 | a genesis is accepted exactly under its checks, which let a negative notional or an inactive negative bond through, and loads what it lists |
| `RwaGenesis.ExportAcceptedExactly` | x/rwa/types/genesis.go:14-59 | an export of a reachable state is accepted back exactly when every attested or active bond meets the current minimum |
| `RwaGenesis.RoundTrip` | x/rwa/keeper/genesis.go:12-64 | import after export restores parameters, assets, issuer index and both lists |
| `RwaGenesis.ImportedIsInitialExactly` | x/rwa/keeper/genesis.go:12-37 | an accepted genesis is one that runs can start from exactly when every supply is what the records tell and the module account holds the bonds |
| `RwaGenesis.RestartIsInitial` | x/rwa/keeper/genesis.go:12-64 | export and import over the same bank gives a state that runs can start from |
| `RwaExamples.ReconcileBroken` | x/fees/keeper/invariants.go:15-33 | one unit burned by another module breaks the supply reconciliation |
| `RwaExamples.ModuleBalanceBroken` | x/fees/keeper/invariants.go:35-45 | one unit sent to the fees account breaks the invariant that it is empty |
| `RwaExamples.DraftReached` | x/rwa/keeper/msg_server.go:24-74 | registering brings a new id into being exactly when id, name and pair are well-formed and the bond is positive, meets the minimum and is the issuer's to pay |
| `RwaExamples.AttestedReached` | x/rwa/keeper/msg_server.go:88-117 | then attesting, given a price, succeeds |
| `RwaExamples.ActiveReached` | x/rwa/keeper/msg_server.go:119-171 | then a first mint makes the asset active with the issuer holding a coin |
| `RwaExamples.AnyHolderCanStrand` | x/rwa/keeper/restriction.go:41-47 | any holder of a coin of an active asset, restricted or not, can send it to the module account, after which no run lets anybody settle |
| `RwaExamples.ExportRefused` | x/rwa/types/genesis.go:37-45 | raising the minimum above an attested or active bond makes the next export unacceptable |
| `RwaExamples.UnbackedGenesisAccepted` | x/rwa/types/genesis.go:14-59 | the module's checks accept a genesis whose bond its account does not hold, and the chain starts with the bond invariant broken |
| `FeederAggregate.Median` | feeder/feeder/aggregate.go:13-28 | the midpoint of the lower and the upper median, or an error for no price |
| `FeederAggregate.MedianOfSorted` | feeder/feeder/aggregate.go:13-28 | of a sorted list the median is the middle price, or half the sum of the two middles cut off toward zero |
| `FeederAggregate.DropDeviating` | feeder/feeder/aggregate.go:30-49 | keeps exactly the prices within the rounded band around their median, or all if that median is not positive |
| `FeederAggregate.SurvivesExactly` | feeder/feeder/aggregate.go:30-49 | around a positive median exactly the prices within the half-even rounded deviation survive, each as often as quoted |
| `FeederAggregate.CrossSourceMedian` | feeder/feeder/aggregate.go:51-63 | enough sources before and after dropping, then the median of the survivors |
| `FeederAggregate.AnswersExactly` | feeder/feeder/aggregate.go:51-63 | a price is answered exactly when the survivors are at least one and as many as required |
| `FeederAggregate.ResultInBand` | feeder/feeder/aggregate.go:36-63 | with a positive provisional median the result lies in the band around it |
| `FeederAggregate.MajorityDecides` | feeder/feeder/aggregate.go:51-63 | a strict majority inside an interval as narrow as the band at its lower end loses no member and holds the result |
| `FeederLoop.FreshExactly` | feeder/feeder/cache.go:28-56 | over any history a pair is fresh exactly when its last update was a price that is young enough |
| `FeederLoop.SubmitLoop.MaybeSubmit` | feeder/feeder/submitloop.go:66-116 | submits the fresh prices at most once per window, retrying as configured; only a success closes the window |
| `FeederLoop.SendsExactly` | feeder/feeder/submitloop.go:66-116 | a poll submits exactly when its window is not the last one submitted to, something is sendable and one of the attempts, at least one, succeeds |
| `FeederLoop.SubmitLoop.Collect` | feeder/feeder/submitloop.go:75-82 | the fresh prices of the configured pairs, in order |
| `FeederLoop.CollectsExactly` | feeder/feeder/submitloop.go:75-82 | a poll collects exactly the healthy, young enough prices of the configured pairs |
| `FeederLoop.CollectsInOrder` | feeder/feeder/submitloop.go:75-82 | in the order of the pairs |
| `FeederLoop.WindowsIncrease` | feeder/feeder/submitloop.go:70-73 | successful submissions fall into strictly increasing windows when heights do not go back |
| `FeederLoop.OncePerWindowExactly` | feeder/feeder/submitloop.go:66-116 | over any run of polls with heights not going back, a poll submits exactly when nothing was submitted in its window before and it can: no window is served twice and none with a chance is missed |
| `FeederLoop.SentIsFresh` | feeder/feeder/submitloop.go:75-82 | everything sent was healthy and at most the maximum age old |
| `FeederLoop.AggregatedInItsWindow` | x/oracle/keeper/abci.go:23-25 | a batch seen at h and included in block b meets the boundary ending window h / V first, exactly when b is not past it |
| `FeederLoop.BoundariesDiffer` | feeder/feeder/submitloop.go:66-116 | two successful submissions belong to different boundaries |
| `FeederOnChain.SubmissionIsAggregated` | x/oracle/keeper/abci.go:15-97 | on a run with a constant window such a submission is read with its price at that boundary exactly when not replaced, is a ballot there exactly when the pair is still accepted and the validator bonded with power, and is read by no other boundary |

## Left out

- Wire formats, bech32 and decimal parsing, events, logging and metrics: the model works on parsed values.
- The descriptions and timestamps of asset records, and asset statuses outside the four that a genesis accepts.
- 64-bit overflow of powers and window counters, and bit-length panics of decimals; the staleness limit's 64-bit product does wrap in the model.
- Stored feeds whose price text does not parse: submitting already refuses them.
- Vesting locks, send-enabled flags and module permissions of x/bank, and whether x/slashing accepts a call it receives.
- gRPC queries, which read the same records page by page, message simulation, store upgrades and application wiring.
- The price loop's fetching, timers and the retry delays of the submit loop; broadcast results are inputs.
