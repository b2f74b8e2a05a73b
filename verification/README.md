# Verified model of the SHA-256 research miner

A Dafny model of the algorithmic cores of the miner and of its research tools, with proofs of what
those cores are for. `dafny verify dfyconfig.toml` checks everything.

## What is modelled

**Live work allocation** (`WorkUnits`, `WorkAllocation`, `MiningRuns`, `MiningSafety`,
`MiningProgress`, `MiningBest`, `MiningGroups`, `MiningStale`, `CpuWorker`). `WorkAllocator` is a class whose methods
mutate the unit list and the metadata in place; each is tied to a function of the old state. `MiningRuns` is the
step relation of a whole live run for one announced job: take, hash one nonce, publish progress, complete, give
back, prepare again after a reconnect, begin / commit / fail a checkpoint (temporary file, then replace), crash at
any moment and reload, also before the first checkpoint, when the file still describes other work. The state
carries every pair (extranonce2, nonce) ever hashed, so the theorems are about all interleavings of any length:
nothing is lost, nobody shares, only what a crash forgot is repeated, and a kind of worker goes on being served
exactly as long as none of its units is dead. `MiningGroups` is about the slices a run adds for its workers,
`MiningStale` about stale marks and about taking up any stored list again. `CpuWorker` is the worker's loop over
one unit; its calls are steps that the worker's own hand entitles it to, wherever the others' steps fall in between.

**Exact statistics** (`LinearSolver`, `Ridge`, `Fenwick`, `Kendall`, `RankStatistics`, `Carries`).
Doubles are modelled as `real`. In-place elimination, the Fenwick tree, the tie loops, the merge of two
samples and the bit-column loop keep their loops and are proved against declarative definitions.

**Bounded worker pool** (`BoundedWorkers`). An interleaving transition system: every atomic access,
critical section, notification and exception is one step. Atomics are sequentially consistent;
the condition variable may wake up spuriously. Besides what is delivered, the results say what the stop flag stops
and which exception the caller sees.

**Targets and hash orders** (`Targets`, `ShareTargets`, `ByteNumbers`, `HashOrders`, `HexText`, `BlockHeader`).
Twelve 32-bit limbs in an array, shifted and divided in place. A double is its 53-bit mantissa and its
exponent, as `frexp` and `ldexp` give them.

**SHA-256** (`Sha256`, `Sha256Constants`, `Sha256Example`, `NonceDiffusion`). Words are `bv32`, bytes `bv8`; the
reference is FIPS 180-4, sections 4.1.2, 4.2.2, 5.1.1, 5.3.3 and 6.2.2. The constants are derived from the primes, and
the whole function is pinned by the digest of one message, computed inside the logic. These modules use bit-vector
bytes because they are about bits; the other modules read bytes as numbers.

**Dual-domain prediction** (`DualWords`, `DualRounds`, `DualDiffusion`, `DualChain`). The predictor follows a candidate
execution by XOR and modular differences from a recorded reference. Every `require` of the program is
an error result here; the theorems say exactly when one can be reached.

**Header-space scan** (`HeaderScan`, `HeaderIntegrity`, `SparseHits`). The double SHA-256 of a header is
a parameter; zone layout, per-zone statistics, aggregation, integrity checks and the sparse capture with
its retries are modelled.

**Certificates and planning** (`Certificates`, `RoundRobin`, `CampaignPlan`, `TrajectoryPlan`). Minimal
context certificates; quotas, strata, apportionment with repair, block counts; greedy assignment of
prevhash groups. Random draws are arbitrary choices and shuffles arbitrary permutations.

## Where the code does not do what it is for

- `share_target_from_difficulty` returns the exact, saturated share target **if and only if** the
  exponent of the difficulty is at least -122. Shifts of 161 to 175 bits already drop high bits, but
  enough remain to saturate; from 176 bits on the numerator is zero and the target collapses to 0 instead
  of 2^256 - 1 (`ShareTargets.ShareTarget`, `ShareTargets.WhenExact`, and the double 2^-124 in
  `ShareTargets.CollapsedTarget`). Raising the difficulty never raises the target, except from the collapsed
  range to a difficulty from there up to diff1 (`ShareTargets.ShareAntitone`, an equivalence).
- The allocator keeps every safety property but not progress. A crash after a unit's last publication and
  before its completion reloads a dead unit: pending, with no nonce left. `acquire` never offers it, and it
  still counts as open. Whatever happens then short of another crash, reconnects included, no unit of its
  kind is ever added (`MiningProgress.RunIsSteady`). Wherever a run has got, through any crashes, a kind of
  worker goes on being served **if and only if** none of its units is dead, and the failing runs are ones in
  which CPU workers publish in their batches of 65536 (`MiningProgress.ServedIffNotStuck`). A reload leaves a
  dead unit if and only if the checkpoint file holds an exhausted unit of the kind
  (`MiningProgress.ReloadSticks`), and without a crash there never is one
  (`MiningProgress.ServedWithoutCrash`). A run that begins with one worker and one unit, and publishes in
  batches, reaches the state in which nobody gets anything (`MiningProgress.StarvationIsReachable`).
- Reconnecting resumes a job only when this process has prepared it or the file records it. The workers of a
  job start before its first checkpoint; after a crash in between, the job starts afresh with its counter
  reset, and every hash so far is forgotten (`MiningSafety.ReconnectResumes`, an equivalence;
  `MiningProgress.EarlyCrashForgets`, a run).
- These two points are about one announcement and its repetitions without `clean_jobs`. A repetition with that
  flag marks every unit stale before it prepares (src/mining/mining_controller.cpp:1136-1137), so the job
  starts afresh and its dead units vanish (`MiningStale.CleanStartsAfresh`).
- A report of progress for a stale unit is ignored, but a completion of one is not: it appends new work of the job
  that was given up (`MiningStale.LateCompletionAppends`). The controller ends its workers before it marks
  (src/mining/mining_controller.cpp:1135-1137), and without such a call nobody is ever served from a marked list
  (`MiningStale.StaleForGood`).
- Partition fractions are accepted within 10^-9 of one, and the apportionment does not always keep what it is
  for. The sizes add up to the prevhashes **if and only if** the shares rounded down do not exceed them, and a
  zero fraction gets no prevhash **if and only if** no more is left over than there are partitions with a
  larger remainder, or an equal one and an earlier place (`CampaignPlan.PartitionSizes`). Two inputs well
  within the tolerance fail (`CampaignPlan.TooManyFloors`, `CampaignPlan.ZeroGetsOne`); fractions that sum to
  one, and fewer than 10^9 prevhashes, never do (`CampaignPlan.ToleratedIsClose`).

## Model

| member | source | states |
|---|---|---|
| WorkUnits.EncodeInjective | src/mining/work_allocator.cpp:87-94 | distinct counters below the capacity of a byte size have distinct extranonce2 texts |
| WorkUnits.UnitIdInjective | src/mining/work_allocator.cpp:233-266 | a unit identifier determines the extranonce2 counter, the worker kind and the slice, across first layouts and later groups, whatever generations they carry |
| WorkUnits.SliceOf | src/mining/work_allocator.cpp:261-267 | the CPU slices of a nonce space cover it: every nonce lies in the slice returned |
| WorkAllocation.WorkAllocator.constructor | src/mining/work_allocator.cpp:71-85 | the allocator holds the stored units, with those that were in progress pending again |
| WorkAllocation.WorkAllocator.AcquireUnit | src/mining/work_allocator.cpp:302-311 | the new state and the unit are those of the first pending unit of the kind that has nonces left; nothing changes when there is none |
| WorkAllocation.WorkAllocator.Update | src/mining/work_allocator.cpp:313-328 | clamped cursor, added hashes and kept best hash of the named open unit; closed units are untouched, unknown ones reported |
| WorkAllocation.WorkAllocator.ReleaseUnit | src/mining/work_allocator.cpp:363-366 | only the first in-progress unit of that name becomes pending |
| WorkAllocation.WorkAllocator.StaleAll | src/mining/work_allocator.cpp:373-376 | every unit that is not complete becomes stale |
| WorkAllocation.WorkAllocator.AppendLiveGroup | src/mining/work_allocator.cpp:247-268 | appends the group of the counter, whose slices `MiningGroups` describes, or changes nothing when the counter cannot be encoded |
| WorkAllocation.WorkAllocator.CompleteById | src/mining/work_allocator.cpp:330-361 | completes the unit, appends the next group when the kind has nothing open, compacts, and counts, including the error exits |
| WorkAllocation.WorkAllocator.PrepareLiveJob | src/mining/work_allocator.cpp:96-218 | the whole state and outcome of a prepare: restart, or resume with re-armed units and refilled groups, including the exit half way through the refill |
| MiningRuns.AppendKeepsGood | src/mining/work_allocator.cpp:247-268 | appending the group of the next counter keeps all units apart with distinct identifiers and publishes no nonce |
| MiningRuns.FilterDropsOne | src/mining/work_allocator.cpp:350-356 | compaction after completing a unit of an open list removes exactly that unit |
| MiningSafety.InitialInv | src/mining/work_allocator.cpp:96-245 | the state after a first prepare, whatever the allocator held before and whatever other work the file describes, satisfies the invariant |
| MiningSafety.StepKeepsInv | src/mining/work_allocator.cpp:76-418 | every step of every thread, every checkpoint step and a crash at any moment keep the invariant |
| MiningSafety.NoNonceIsLost | src/mining/work_allocator.cpp:96-361 | in every run each nonce of each extranonce2 issued so far has been hashed or lies in the unsearched rest of some unit |
| MiningSafety.IdentifiersDistinct | src/mining/work_allocator.cpp:228-266 | in every run the units have pairwise distinct identifiers, so the lookups by id hit the intended unit |
| MiningSafety.WorkersNeverShare | src/mining/cpu_miner.cpp:45-108 | in every run two workers never own a common (extranonce2, nonce), counting what each has hashed but not published |
| MiningSafety.HashesAreNew | src/mining/cpu_miner.cpp:68-93 | a hash never repeats a published pair nor one the checkpoint records; it repeats a pair at all only if a crash forgot it and nobody hashed it since |
| MiningSafety.RepeatsNeedCrashes | src/mining/cpu_miner.cpp:68-93 | in every run a pair is hashed at most once, and once more for each crash |
| MiningSafety.NoHashRepeatsWithoutCrash | src/mining/cpu_miner.cpp:68-93 | in every run without a crash no pair is hashed twice |
| MiningSafety.RecordedIsNeverRepeated | src/checkpoint/state_store.cpp:78-145 | what a committed checkpoint records as published stays published and recorded for ever, through failed saves and crashes |
| MiningSafety.ReconnectResumes | src/mining/work_allocator.cpp:107-206 | preparing the same job again without clean_jobs resumes and never resets the counter exactly when this process has prepared it or the file records it, and then fails exactly when the GPU needs a group and the space is used up; otherwise it starts afresh and every hash so far is forgotten |
| MiningProgress.TurnedAwayIffStarved | src/mining/work_allocator.cpp:302-311 | in every reachable state a kind gets nothing, with nobody of it at work, exactly when all its units are dead |
| MiningProgress.StepIsSteady | src/mining/work_allocator.cpp:157-203 | short of a crash no step makes a unit dead or revives one, adds a unit to a kind with a dead unit, or takes a kind its last unit |
| MiningProgress.RunIsSteady | src/mining/work_allocator.cpp:330-361 | the same for whole runs: with one dead unit no group of the kind is ever appended again |
| MiningProgress.RunDry | src/mining/cpu_miner.cpp:45-108 | from every state with a dead unit a run without a crash, in which CPU workers publish at the end of a batch of 65536 or of their unit, leads to a state where all units of the kind are dead |
| MiningProgress.ServedIffNotStuck | src/mining/work_allocator.cpp:302-361 | in every state of every run, crashes included, in which the job is prepared: however the run goes on short of a crash and an exhausted counter, with CPU workers that publish in batches or not, the kind is served if and only if none of its units is dead |
| MiningProgress.WorkOff | src/mining/cpu_miner.cpp:71-101 | a worker hashes the rest of its unit batch by batch and publishes each |
| MiningProgress.ServedWithoutCrash | src/mining/work_allocator.cpp:302-361 | in every run without a crash the CPU, and the GPU when enabled, is served until the counter is exhausted |
| MiningProgress.ReloadSticks | src/mining/work_allocator.cpp:76-85 | a reload leaves a dead unit of a kind exactly when the checkpoint file holds an exhausted unit of it |
| MiningProgress.EarlyCrashForgets | src/mining/mining_controller.cpp:1181-1184 | a crash before the first checkpoint lets the first pair be hashed a second time: a concrete run |
| MiningProgress.StarvedForGood | src/mining/work_allocator.cpp:161-182 | once all units of a kind are dead, nobody of it gets a unit again however the run goes on, reconnects without clean_jobs included, short of another crash |
| MiningProgress.StarvationIsReachable | src/mining/cpu_miner.cpp:71-103 | a concrete run, in which the worker publishes in its batches, reaches that state with almost the whole extranonce2 space unissued |
| MiningBest.BestOverRun | src/mining/work_allocator.cpp:313-328 | between crashes the best hash of every unit, with its nonce, is the best of what it was and of all the reports published for it, and identifiers never come back |
| MiningBest.BestIsLeastPublished | src/mining/work_allocator.cpp:313-328 | in every run without a crash it displays the least of the digests published for the unit, with the nonce published first with it, and is empty before the first |
| MiningGroups.EveryGroupTiles | src/mining/work_allocator.cpp:247-268 | in every run, crashes included, a completion or a prepare that raises the counter adds exactly the untouched slices of the old counter's extranonce2: one for each CPU worker the last prepare announced, or one for the GPU, tiling the nonce space with lengths that differ by at most one |
| MiningGroups.OthersAddNothing | src/mining/work_allocator.cpp:302-366 | no other step short of a crash changes the counter or the announced workers |
| MiningGroups.StartTiles | src/mining/work_allocator.cpp:220-245 | a run begins with such a tiling for the workers its first prepare announced, and the whole next extranonce2 for the GPU |
| MiningGroups.SharedLayoutTiles | src/mining/work_allocator.cpp:226-241 | without extranonce2 bytes the CPU slices and the slice of the GPU tile the one nonce space |
| MiningGroups.AllCanTake | src/mining/cpu_miner.cpp:48-49 | as many free workers as there are units on offer can all take one, one after the other |
| MiningGroups.GroupServesAll | src/mining/cpu_miner.cpp:48-49 | a new CPU group has a unit for every announced worker that is free |
| MiningStale.StaleForGood | src/mining/work_allocator.cpp:302-376 | after a stale mark nobody is given a unit and no result of a unit changes, however the workers' calls go on, as long as no completion appends a group |
| MiningStale.LateCompletionAppends | src/mining/work_allocator.cpp:330-361 | a completion of a stale unit does, in live mode |
| MiningStale.ResumesAfterMark | src/mining/work_allocator.cpp:107-115 | after a stale mark a prepare resumes exactly when everything announced is the same and a completed unit of the job is in the list |
| MiningStale.CleanStartsAfresh | src/mining/mining_controller.cpp:1136-1164 | in every state of a live run a clean announcement starts afresh and leaves what a first prepare leaves |
| MiningStale.ResumeTakesUpOpenUnits | src/mining/work_allocator.cpp:134-203 | resuming a live job from any stored list keeps exactly the open units of the job, waiting with all they have achieved; the rest is new, and each kind has an open unit |
| MiningStale.HistoryIsKept | src/mining/work_allocator.cpp:117-132 | outside live mode a prepare removes no unit and changes no cursor and no result |
| MiningStale.ReportIsClamped | src/mining/work_allocator.cpp:313-328 | a report touches only the first unit of the name, while it is open, and leaves the cursor at the point of the range nearest to the reported one |
| MiningStale.CompletionGoesOn | src/mining/work_allocator.cpp:330-361 | completing a unit of any live list takes the next counter exactly when nobody else works on the job with its kind and generation; the kind then has an open unit, no completed unit is left and no other unit is missing |
| CpuWorker.AllowedIsEnabled | src/mining/cpu_miner.cpp:68-107 | an action the worker's own hand entitles it to is a step of every run state with that hand, and moves the hand as the worker thinks |
| CpuWorker.TakenIsHeld | src/mining/cpu_miner.cpp:48-59 | a worker that takes a CPU unit holds exactly what its loop starts from |
| CpuWorker.HandInRun | src/mining/cpu_miner.cpp:45-108 | however a worker's actions are interleaved with the steps of the others, short of a crash it is left with the hand its own actions give it |
| CpuWorker.WorkerGoesOn | src/mining/cpu_miner.cpp:45-108 | wherever such a run has got with its first actions, its next action is a step the run can take |
| CpuWorker.MineUnit | src/mining/cpu_miner.cpp:45-108 | the loop over a unit only takes such actions, looks for an interruption before every 4096th nonce and stops exactly at the first one it sees, completes exactly at the end and gives back otherwise, publishes after every 65536 hashes and the rest when it leaves, each time the least digest hashed so far, and hands over exactly the digests that meet a target and, as personal bests, exactly the reports with a new text, each with the header of its nonce and right after its hash or report |
| CpuWorker.StopsSoon | src/mining/cpu_miner.cpp:72 | once the stop flag or another generation stays, the worker hashes fewer than 4096 further nonces |
| CpuWorker.WorstIsLargest | src/mining/cpu_miner.cpp:55 | no digest is above the one the search starts from, so the first hash is a best |
| LinearSolver.PivotKeepsSolutions | src/research/context_phase2.cpp:1251-1263 | normalising a pivot row and clearing its column neither gains nor loses solutions |
| LinearSolver.NoPivot | src/research/context_phase2.cpp:1244-1248 | a column without a usable pivot yields a vector with a unit component that the original matrix almost annihilates |
| LinearSolver.SolveLinear | src/research/context_phase2.cpp:1240-1265 | a result is the unique exact solution of the original system; a refusal comes with such a vector |
| Ridge.RidgeExcess | src/research/context_phase2.cpp:1267-1306 | how much larger the penalised error of any other intercept and coefficients is than that of the solution of the ridge system, exactly |
| Ridge.RidgeOptimal | src/research/context_phase2.cpp:1267-1306 | for a positive penalty and centred columns that solution with the mean response is the one minimiser over all intercepts and coefficients; without a penalty it is when it is the only solution |
| Ridge.RefusalBoundsPenalty | src/research/context_phase2.cpp:1248 | the ridge system can only be refused when lambda is at most 10^-14 (n + 1) / 2 |
| Ridge.FitRidge | src/research/context_phase2.cpp:1267-1306 | the scales are the standard deviations, or one for a column without variation, and for every lambda from zero on the mean response and the coefficients are the one minimiser of the penalised error of the standardised columns; a refusal bounds lambda |
| Fenwick.BitTrick | src/research/context_phase2.cpp:1001-1008 | in unsigned words of any width pos & (~pos + 1) is the lowest set bit the tree steps by |
| Fenwick.Tree.Add | src/research/context_phase2.cpp:1001-1003 | keeps every node equal to the count of its block, with the position inserted |
| Fenwick.Tree.Sum | src/research/context_phase2.cpp:1004-1008 | returns the number of insertions below the position |
| Kendall.Trichotomy | src/research/context_phase2.cpp:1028-1044 | concordant + discordant + ties in x + ties in y - ties in both is n(n-1)/2 |
| Kendall.SortKeepsPairs | src/research/context_phase2.cpp:993-1039 | sorting the points changes no pair count |
| Kendall.CountOrders | src/research/context_phase2.cpp:994-1027 | the grouped Fenwick loops count exactly the concordant and the discordant pairs |
| Kendall.CountTies | src/research/context_phase2.cpp:1031-1044 | the run loop counts exactly the pairs tied in the key |
| Kendall.TauBounded | src/research/context_phase2.cpp:1046-1050 | the two denominator factors are not negative and the squared numerator is at most their product, so tau-b lies in [-1, 1] |
| Kendall.KendallTauB | src/research/context_phase2.cpp:986-1051 | tau-b of the original points: the pair difference over the root of the product, zero when that is zero, within [-1, 1], and the two early exits |
| RankStatistics.RankBiserial | src/research/context_trajectory.cpp:1221-1240 | for non-empty samples, (pairs a > b - pairs a < b) / (number of pairs), in [-1, 1]; otherwise 0 |
| RankStatistics.JoinedRanks | src/research/context_trajectory.cpp:1224-1236 | twice the averaged-rank sum of sample a in terms of the pairwise comparisons alone |
| RankStatistics.BiserialAntisymmetric | src/research/context_trajectory.cpp:1221-1240 | swapping the samples negates the statistic |
| RankStatistics.KsDistance | src/research/context_trajectory.cpp:1242-1257 | the merge returns the supremum over all real thresholds of the gap of the two empirical distributions, attained |
| BoundedWorkers.StepKeepsInv | src/research/context_trajectory.cpp:695-789 | every step of every thread keeps the accounting of claimed tasks, the thread counts, the wake-up, end-game, failure and delivery invariants |
| BoundedWorkers.AtMostOnce | src/research/context_trajectory.cpp:717-781 | in every run a task is in at most one worker's hands and delivered at most once, only after its call returned and not while held |
| BoundedWorkers.PoolNeverStuck | src/research/context_trajectory.cpp:744-783 | until the call is over some thread can always move without failing and without a spurious wake-up |
| BoundedWorkers.PoolTerminates | src/research/context_trajectory.cpp:695-789 | no run has more than 12 steps a task, 21 a worker, 5 more, and two for every spurious wake-up |
| BoundedWorkers.NormalReturnDeliversAll | src/research/context_trajectory.cpp:783-788 | a call that returns without exception has run and delivered every task exactly once |
| BoundedWorkers.PoolSize | src/research/context_trajectory.cpp:701-707 | nothing starts without workers or tasks; otherwise there are as many threads as the smaller of the two numbers |
| BoundedWorkers.StopStops | src/research/context_trajectory.cpp:718-721 | in every run, once the stop flag is up, no more tasks are claimed than workers stand between the flag and their ticket, and everybody else claims none |
| BoundedWorkers.FailureStops | src/research/context_trajectory.cpp:728-783 | an exception of the handler or of the thread creation has raised the flag, and one of a task has, or its worker is about to |
| BoundedWorkers.PoolDeliversInOrder | src/research/context_trajectory.cpp:744-781 | the handler receives the completions in the order they were queued |
| BoundedWorkers.NothingAfterThrow | src/research/context_trajectory.cpp:744-781 | after the handler has thrown it is never called again |
| BoundedWorkers.SleeperIsWoken | src/research/context_trajectory.cpp:722-748 | a caller asleep while completions are queued is about to be woken |
| BoundedWorkers.OutcomeIs | src/research/context_trajectory.cpp:783-788 | the call rethrows the failed thread creation before what the handler threw, and that before what a task threw, and returns normally exactly when nothing was thrown |
| Targets.DoubleLimbs | src/bitcoin/difficulty.cpp:29-38 | one left-shift round doubles the 384-bit value modulo 2^384 |
| Targets.ShiftLeft | src/bitcoin/difficulty.cpp:29-38 | the value times 2^bits modulo 2^384 |
| Targets.ShiftRight | src/bitcoin/difficulty.cpp:40-49 | the value divided by 2^bits, rounded down |
| Targets.Divide | src/bitcoin/difficulty.cpp:51-62 | restoring division gives the floor of the quotient for every 53-bit denominator |
| Targets.DivideStep | src/bitcoin/difficulty.cpp:54-60 | quotient, remainder and the 64-bit range of the remainder register after one bit |
| Targets.LowerTarget | src/bitcoin/difficulty.cpp:64-78 | the big-endian target is the value, saturated at 2^256 - 1 |
| ShareTargets.FromTarget | src/bitcoin/difficulty.cpp:20-27 | the limbs carry the big-endian number of the target |
| ShareTargets.ShareTarget | src/bitcoin/difficulty.cpp:109-121 | for every finite positive double the target is min(2^256 - 1, floor(diff1 / difficulty)) if and only if the exponent is at least -122, and 0 below; other doubles are refused |
| ShareTargets.WhenExact | src/bitcoin/difficulty.cpp:117-120 | the returned value equals the exact saturated target exactly from exponent -122 on |
| ShareTargets.CollapsedTarget | src/bitcoin/difficulty.cpp:117-120 | the double 2^-124 has the largest exact target and gets zero |
| ShareTargets.ExactAntitone | src/bitcoin/difficulty.cpp:109-121 | a higher difficulty never has a larger exact target |
| ShareTargets.ShareAntitone | src/bitcoin/difficulty.cpp:109-121 | the returned targets of two ordered difficulties are ordered exactly when the first exponent is at least -122, the second is below too, or the second difficulty is beyond diff1 |
| ShareTargets.TargetFromNbits | src/bitcoin/difficulty.cpp:84-99 | the value of decoded compact bytes, truncated for small exponents, and each of the three refusals with its condition |
| ShareTargets.DiffOneIsCompact | src/bitcoin/difficulty.cpp:111 | the target of difficulty one is the compact target 1d00ffff |
| HexText.FromHex | src/crypto/sha256.cpp:142-149 | the bytes carry the number the text shows, in either case of letters; odd length and other characters are refused |
| HexText.RoundTrip | src/crypto/sha256.cpp:142-159 | reading the text written for any bytes gives the bytes back |
| HexText.TargetFromText | src/bitcoin/difficulty.cpp:82-99 | from the text: all four refusals with their conditions, and the value of the compact number otherwise |
| HashOrders.OrderIsNumeric | src/research/header_space.cpp:133-140 | lexicographic order of equally long digit arrays is numeric order |
| HashOrders.BetterHash | src/mining/cpu_miner.cpp:13-20 | true exactly when the candidate's little-endian number is smaller |
| HashOrders.HashMeetsTarget | src/bitcoin/difficulty.cpp:125-133 | true exactly when the digest's little-endian number is at most the target |
| HashOrders.PowValue | src/research/header_space.cpp:87-97 | the eight words carry the little-endian number of the digest |
| HashOrders.MinimumIsKeyOrder | src/research/header_space.cpp:133-140 | minimum_precedes is the order of value * 2^32 + nonce, a number that determines both |
| HashOrders.LeadingZeroBits | src/research/header_space.cpp:106-114 | the count reaches t exactly when the value is below 2^(256 - t), for every t up to 256 |
| HashOrders.BelowPowerOfTwoThreshold | src/research/header_space.cpp:116-122 | value < 2^(256 - bits), or a refusal exactly outside 1..256 |
| HashOrders.ClassifyTail | src/research/header_space.cpp:124-131 | one for exactly the thresholds 26, 28, up to 38 that the value is below |
| HashOrders.ToHex | src/crypto/sha256.cpp:151-159 | the text is the hexadecimal numeral of the big-endian number |
| HashOrders.HexOrder | src/mining/work_allocator.cpp:324 | hexadecimal texts of one width compare as the numbers they show |
| HashOrders.OrdersAgree | src/mining/work_allocator.cpp:322-327 | the text order of best_hash, the word order of the scan and the little-endian order agree on all digests, and equal numbers mean equal digests |
| BlockHeader.SetNonce | src/bitcoin/block_header.cpp:49-54 | exactly the last four header bytes become those of the nonce |
| BlockHeader.NonceRoundTrip | src/bitcoin/block_header.cpp:49-61 | set_nonce and get_nonce undo each other and touch nothing else |
| BlockHeader.NonceIsLittleEndian | src/bitcoin/block_header.cpp:49-54 | the field read least significant byte first is the nonce |
| Sha256.PaddingIsLeast | src/crypto/sha256.cpp:109-118 | the zero bits are as few as section 5.1.1 of FIPS 180-4 allows |
| Sha256.LengthField | src/crypto/sha256.cpp:115-118 | for fewer than 2^61 bytes the last eight bytes are the length in bits |
| Sha256.FillSchedule | src/crypto/sha256.cpp:39-45 | the in-place schedule is the message schedule of section 6.2.2 |
| Sha256.Compress | src/crypto/sha256.cpp:33-77 | the state becomes the next hash value of section 6.2.2 reduced to the rounds, and the trace grows by exactly the records of those rounds |
| Sha256.BuildTail | src/crypto/sha256.cpp:109-118 | the one- or two-block tail is the rest of the message with the padding |
| Sha256.Sha256Impl | src/crypto/sha256.cpp:86-126 | for 1 to 64 rounds the digest is that of the padded message, streamed or not, traced or not; other round counts are refused |
| Sha256.TraceAt | src/crypto/sha256.cpp:49-71 | record c * rounds + t is round t of block c, computed from the hash value of the blocks before it |
| Sha256.RecordsChain | src/crypto/sha256.cpp:48-76 | each record starts where the one before ended; the first starts at the hash value and the last ends in the next one |
| Sha256Constants.NextPrime | src/crypto/sha256.cpp:12-20 | the listed primes are exactly the first 64 |
| Sha256Constants.RoundConstants | src/crypto/sha256.cpp:12-20 | each round constant is the first 32 bits of the fraction of the cube root of its prime, as section 4.2.2 of FIPS 180-4 defines it |
| Sha256Constants.InitialHash | src/crypto/sha256.cpp:22-24 | the initial hash value is that of section 5.3.3, from the square roots of the first eight primes |
| Sha256Example.DigestOfExample | tests/test_sha256.cpp:13-16 | the digest of the three-byte example message is the published one |
| NonceDiffusion.Schedules | src/mining/mining_controller.cpp:616-700 | for two nonces the second block's words differ at 3, agree at 0..2 and 4..17, and differ again at 18 |
| NonceDiffusion.ResearchSchedule | src/mining/mining_controller.cpp:214-250 | the words rebuilt from the block are its schedule, and the trace is refused exactly when it is not 64 rounds long or a traced word differs |
| NonceDiffusion.TracedWords | src/crypto/sha256.cpp:49-71 | the records of a compression hold exactly that schedule, so the check never fails on a real trace |
| NonceDiffusion.Diffusion | src/mining/mining_controller.cpp:616-700 | for every 76-byte prefix and two distinct nonces the first 67 of 128 records are identical and record 68 differs in the word, temp1 and registers a and e only |
| NonceDiffusion.FlipMovesOneBit | src/mining/mining_controller.cpp:485-497 | flipping nonce bit b flips exactly bit 8(3 - b/8) + b%8 of W3, at Hamming distance one |
| NonceDiffusion.OnesAreBits | src/mining/mining_controller.cpp:134-136 | the Hamming distances count the bits that differ |
| DualWords.DomainsAgree | tools/research_dual_domain_analysis.py:203-263 | the three constructors give the one consistent word and never refuse |
| DualWords.ConsistentIsDual | tools/research_dual_domain_analysis.py:211-229 | the two reconstruction checks hold exactly for the word of its two absolute values |
| DualWords.SigmaLinear | tools/research_dual_domain_analysis.py:501-515 | both large sigmas are linear over XOR |
| DualWords.SigmaPredicted | tools/research_dual_domain_analysis.py:501-562 | refused exactly for a wrong reference output; otherwise the two true outputs, by a valid route of least cost: three rotations, three XORs and a subtraction, or nothing exactly for equal inputs |
| DualWords.DifferentialExact | tools/research_dual_domain_analysis.py:565-590 | the choice and majority difference formulas are exact for all inputs and differences |
| DualWords.BooleanPredicted | tools/research_dual_domain_analysis.py:593-664 | refused exactly for a wrong reference output; otherwise exact, by a valid route of least cost: the operations of the direct formula, or nothing exactly for equal inputs |
| DualWords.AdditionPredicted | tools/research_dual_domain_analysis.py:667-745 | for any number of operands refused exactly for too few or a wrong reference sum; otherwise exact, by one addition for each nonzero delta and an XOR, or, when no delta is zero, by the direct sum at the same cost |
| DualRounds.ReferenceCheckIsExact | tools/research_dual_domain_analysis.py:414-498 | the record check accepts exactly the records of real rounds |
| DualRounds.RoundLedger.AddOperation | tools/research_dual_domain_analysis.py:374-378 | adds the chosen route, conversions and shortcut, after the checks of the choice |
| DualRounds.OperationsExact | tools/research_dual_domain_analysis.py:831-884 | on a represented state and a true record no check of the eight operations fails and each predicts the two true values |
| DualRounds.PredictRound | tools/research_dual_domain_analysis.py:812-926 | on a represented state it succeeds exactly for a real record that continues the state, and then predicts both next states at the sum of the costs of the chosen routes and of the word, at most 42 operations plus 2 |
| DualChain.WorkingIsGenuine | tools/research_dual_domain_analysis.py:1396-1410 | the states the chain follows are the working variables of SHA-256 |
| DualChain.CandidateOracle.ExternalW | tools/research_dual_domain_analysis.py:973-980 | hands out the word of the one recorded round and notes it |
| DualChain.CandidateOracle.ValidateRound | tools/research_dual_domain_analysis.py:988-1050 | confirms exactly once, only after the word was handed out, and only if everything recorded matches |
| DualChain.ConfirmsOnlyTheTruth | tools/research_dual_domain_analysis.py:988-1050 | on a genuine trace exactly those predictions are confirmed whose candidate states, eight intermediate values, constant, word and position are those of the round of SHA-256 |
| DualChain.FindsOnlyRound | tools/research_dual_domain_analysis.py:143-151 | a record is found exactly when it is the only one of its round |
| DualChain.InitialState | tools/research_dual_domain_analysis.py:1136-1165 | equal states for the strict start, the recorded candidate state only when allowed |
| DualDiffusion.DiffusionAgrees | src/mining/mining_controller.cpp:646-690 | the Hamming distances recorded between two rounds are exactly those that an exact prediction implies |
| DualDiffusion.ValidateDiffusion | tools/research_dual_domain_analysis.py:1058-1105 | refused exactly when a recorded distance is not the predicted one |
| DualDiffusion.TurnIsRotation | tools/research_dual_domain_analysis.py:73-75 | the six rotations of the distances are rotations to the right |
| DualDiffusion.TotalOfRegisters | src/mining/mining_controller.cpp:138-142 | the distance of two states is the sum of those of the eight registers |
| DualDiffusion.FindsOnlyDiffusion | tools/research_dual_domain_analysis.py:164-175 | the distances of a round are found exactly when recorded once |
| DualChain.AnalyzeRounds | tools/research_dual_domain_analysis.py:1386-1433 | on genuine traces and distances no check fails in any range of rounds and every prediction holds the two true states |
| DualChain.Analyze | tools/research_dual_domain_analysis.py:1356-1433 | on the second compressions of any two nonces over one prefix and the distances between them, from the strict start at round 4 or a permitted bootstrap at any round, no check fails, the cross-check of the distances included, and every prediction holds the two true states |
| HeaderScan.MakeZoneLayout | src/research/header_space.cpp:142-166 | the three refusals, or the slices of the range by natural zone |
| HeaderScan.LayoutTiles | src/research/header_space.cpp:155-165 | the zones follow each other without gap or overlap from the first nonce to the last |
| HeaderScan.RunningEnd | src/research/header_space.cpp:31-37 | a minimum register that still holds the all-ones sentinel holds the key of the last nonce |
| HeaderScan.ScanZone | src/research/header_space.cpp:178-192 | tail counts, network hits and least (value, nonce) of the zone, and a header whose prefix is untouched |
| HeaderScan.ScanCpu | src/research/header_space.cpp:168-195 | the layout with the statistics of every zone, or a refusal exactly for a bad range or a bad nBits field |
| HeaderIntegrity.AggregateZones | src/research/header_space.cpp:252-270 | the sums over any zones and the record of their earliest least (value, nonce) |
| HeaderIntegrity.AggregateIsFlat | src/research/header_space.cpp:252-270 | aggregating a scan gives the statistics of one flat pass and the zone of its least nonce, sentinel included |
| HeaderIntegrity.ValidateIntegrity | src/header_space_main.cpp:233-272 | each of the six flags holds exactly when its property does |
| HeaderIntegrity.ScanIsSound | src/header_space_main.cpp:245-266 | a scan and its aggregate have the right count and valid records |
| HeaderIntegrity.ScanReport | src/research/header_space.cpp:168-270 | scanning on the CPU, aggregating and validating is refused only for bad input, the validation always passes, and the global record is one flat pass |
| SparseHits.HitListIsExact | src/research/header_space.cpp:218-225 | the list holds exactly the nonces below the threshold |
| SparseHits.HitListAscends | src/research/header_space.cpp:218-225 | each once, in ascending order |
| SparseHits.ScanSparseHits | src/research/header_space.cpp:197-228 | all hits counted, the first ones kept, overflow reported exactly, and the refusals |
| SparseHits.ScanSparseHitsComplete | src/research/header_space.cpp:230-250 | never the overflow error: the complete list after the least number of doublings that holds it |
| Carries.Column | src/research/context_phase2.cpp:542-545 | one column turns the carry of the low bits into the next carry and the next sum bit |
| Carries.FixedAdditionCarries | src/research/context_phase2.cpp:534-561 | count, longest chain, number of chains, mask and largest carry of the true carry pattern |
| Carries.CarryFeatures | src/research/context_trajectory.cpp:174-195 | the same numbers by the other loop |
| Carries.ResearchAddition | src/mining/mining_controller.cpp:169-212 | the same numbers again, refused exactly when the recorded result is not the sum modulo 2^32, with the final carry |
| Carries.LongestNonzeroRun | tools/research_causal_analysis.py:375-384 | recovers the longest run from the recorded mask |
| Carries.LongestMeans | src/research/context_phase2.cpp:547-549 | the longest chain is one that exists and that no run exceeds |
| Carries.MaskBit | src/research/context_phase2.cpp:550 | the mask determines the pattern |
| Carries.ExpectedUniformAddendCarries | src/research/context_phase2.cpp:563-571 | the sum of the low parts over the powers of two |
| Carries.ExpectationIsAverage | src/research/context_phase2.cpp:563-571 | it is the exact average over all 2^32 addends of the carries out of the low bits |
| Carries.TwoOperandCarry | src/research/context_phase2.cpp:542-545 | those carries are the ones the column loop computes |
| Certificates.CombinationsAreSubsets | tools/research_causal_analysis.py:286-287 | the enumerated combinations are exactly the subsets of their size |
| Certificates.CombinationsInOrder | tools/research_causal_analysis.py:286-287 | the combinations of a size come in lexicographic order |
| Certificates.MinimalCertificate | tools/research_causal_analysis.py:286-301 | the search always finds a set that fixes the outcome; no smaller set does, nor one of its size that is lexicographically before it |
| Certificates.LocalBooleanCertificate | tools/research_causal_analysis.py:278-301 | never the internal error; the first smallest set that fixes the output difference |
| Certificates.LocalAdditionCertificate | tools/research_causal_analysis.py:387-425 | the same for the difference bit and both carries of a column, for any number of operands and any carries in |
| Certificates.FixesBoolean | tools/research_causal_analysis.py:278-301 | a set fixes a Boolean outcome exactly when the known differences change the value, or do not, as with the actual inputs, whatever the inputs outside the set are |
| Certificates.FixesColumn | tools/research_causal_analysis.py:396-402 | a set fixes a column exactly when every column that agrees on it has the same difference bit and carries |
| Certificates.CountIsOnes | tools/research_causal_analysis.py:387-402 | a column adds up its ones |
| Certificates.CertificateFixesColumn | tools/research_causal_analysis.py:396-402 | columns that agree on a certificate have the same difference bit and carries |
| RoundRobin.TurnsAreFair | src/research/context_campaign.cpp:450-462 | after any turns two shares differ by more than one only when the smaller party has run out |
| RoundRobin.PartsExact | src/research/context_trajectory.cpp:292-293 | the parts add up to the total and differ by at most one |
| RoundRobin.QuotasByTurn | src/research/context_trajectory.cpp:292-293 | handing out one at a time in turn gives those parts |
| RoundRobin.PartitionRange | src/research/context_trajectory.cpp:964-984 | contiguous non-empty intervals that cover the range exactly; the coverage check never fails |
| CampaignPlan.Quotas | src/research/context_campaign.cpp:445-462 | min(wanted, available) contexts, each prevhash within its archive, in fair turns |
| CampaignPlan.PickStrata | src/research/context_campaign.cpp:470-475 | whatever is drawn, one context per stratum, hence ascending and distinct |
| CampaignPlan.Select | src/research/context_campaign.cpp:478-491 | depth-first interleaving selects every representative; each pick is the next representative of its prevhash, and wherever the selection is cut each prevhash has what it has after so many turns |
| CampaignPlan.SelectionIsUnique | src/research/context_campaign.cpp:478-491 | these two properties and the number of picks determine the selection |
| CampaignPlan.CutKeepsEveryPrevhash | src/research/context_campaign.cpp:513 | cut to at least as many contexts as there are prevhashes, the selection still has every prevhash |
| CampaignPlan.SelectContexts | src/research/context_campaign.cpp:445-491 | the whole selection: as many as wanted and available, pairwise distinct, the d-th pick of a prevhash from its d-th stratum, and fair turns over the archives wherever it is cut |
| CampaignPlan.Apportion | src/research/context_campaign.cpp:523-539 | for all fractions the shares rounded down, one more for as many partitions as prevhashes are left, in the order of their remainders, and any further ones to the first |
| CampaignPlan.WhenApportioned | src/research/context_campaign.cpp:523-539 | exactly when the counts add up to the prevhashes, exactly when each is its share rounded down or up, and exactly when a zero fraction gets none |
| CampaignPlan.TooManyFloors | src/research/context_campaign.cpp:425-534 | fractions strictly within the tolerance whose shares rounded down already exceed the prevhashes |
| CampaignPlan.ZeroGetsOne | src/research/context_campaign.cpp:425-539 | fractions strictly within the tolerance with a zero fraction that gets a prevhash |
| CampaignPlan.Repair | src/research/context_campaign.cpp:540-550 | with enough prevhashes every positive partition ends non-empty, the donor too, the total is kept, and a zero fraction is as empty as before; each empty positive partition gets one, all from the first of the largest |
| CampaignPlan.PartitionSizes | src/research/context_campaign.cpp:415-550 | the refusals; for all accepted fractions each size, as apportioned and repaired, the exact condition of the total and of an empty zero fraction, and no empty positive partition when there are enough prevhashes |
| CampaignPlan.ToleratedIsClose | src/research/context_campaign.cpp:425-427 | accepted fractions are close enough when they sum to one or there are fewer than 10^9 prevhashes |
| CampaignPlan.TotalBlocks | src/research/context_campaign.cpp:494-514 | the total the budget asks for, refused exactly without a request, for nothing to do, or for more hashes than 64 bits count |
| CampaignPlan.TimeIsUsed | src/research/context_campaign.cpp:496-500 | a time budget is used up to less than one more nonce space |
| CampaignPlan.BlockCounts | src/research/context_campaign.cpp:515-560 | exactly the total of blocks in equal parts, the remainder on the first ones, at least one each |
| TrajectoryPlan.AssignGroups | src/research/context_trajectory.cpp:323-342 | every group goes to the partition furthest below its target when its turn comes, the first of them on ties; loads that are the quotas of the groups, no target exceeded by as much as the largest quota |
| TrajectoryPlan.Plan | src/research/context_trajectory.cpp:292-342 | the quotas sum to the request and the loads too; no partition exceeds its half or quarter by the largest quota or misses it by twice that, and every group went where it was needed most |

## Left out

- Allocator runs with an extranonce2 of zero bytes, across a stale mark or a change of job: a live run here is one job, and staleness ends it (what a mark and the next prepare do is in `MiningStale`). A file that still records an earlier announcement of the same work, when that work is started afresh after another job, is not modelled.
- The 64-bit extranonce2 counter of eight-byte extranonces wraps only after 2^64 groups; runs stop before that (`CounterFits`). Generations and hash totals are unbounded numbers.
- Historical mode: it reuses unit identifiers across ranges of one header, so identifiers are not distinct there.
- A prepare that fails after appending the CPU group ends the modelled run; the program reports the error, and the counter it keeps is the old one.
- The GPU miner, OpenCL kernels and the comparison of CPU and GPU scans: the GPU appears only as a second worker kind of the allocator.
- The best-hash summary and the completed-range lists of a snapshot, JSON as a format, sockets, telemetry, logging, configuration, command lines and clocks.
- Ridge.FitRidge: the rows are already selected, doubles are reals, and the square root is any function that is one on the non-negative reals.
- Kendall.KendallTauB: over the reals, with the square root a parameter in the same way.
- RankStatistics.KsDistance: an exhausted sample is recognised by its length instead of by infinity; NaN values are not modelled.
- BoundedWorkers.PoolTerminates: every task and handler call returns or throws; memory orders weaker than sequential consistency and an absent completion handler are not modelled.
- HeaderIntegrity.ScanReport: the scan of the device, which the program compares with this one before it aggregates, is not modelled.
- CpuWorker.MineUnit: the job, the extranonce2 and the Merkle root, which a candidate copies unchanged, are not modelled. The batches of the GPU are of any size.
- build_stratum_header and the word reversal of the Stratum previous hash: byte copies only.
- DualChain.AnalyzeRounds: the checks that apply to the Genesis block alone and the reports are not modelled; nothing is claimed for traces that are not genuine.
- DualChain.Analyze: as for the rounds; the labels, hashes and nonces in the input files are not modelled.
- Carries.ExpectedUniformAddendCarries: over the reals, without the rounding of doubles.
- CampaignPlan.PartitionSizes: fractions, the tolerance and the measured rate are reals. In doubles the sum is rounded before it is compared with the tolerance, so fractions exactly at its edge can be accepted or refused either way.
- CampaignPlan.BlockCounts: the sampling of extranonce2 values and the sorting of contexts by time are not modelled.
- TrajectoryPlan.Plan: the number of groups and the shuffled order are parameters; contexts inside a group are not modelled.
- HeaderScan.ScanCpu: the double SHA-256 is a parameter, and 64-bit totals are unbounded numbers (they stay below 2^33).
- Pearson and Spearman correlation, averaged ranks of single columns, fold assignment, bootstrap intervals, permutation tests and all CSV and Markdown output.
