# Botho core logic, modelled and proved in Dafny

This project models the decision-making core of Botho, a privacy-preserving currency with ring
signatures and federated consensus, and proves properties of it for every input or every run. Check it
with `dafny verify dfyconfig.toml`.

What is modelled, by module:

- `Candidates`, `NearestDecoys`, `ClusterDecoys`, `TagSimilarity`, `Centroid`: how a node picks decoys
  for a ring. The two-phase age-similar selection is shown to be minimax-optimal in its fallback; the
  cluster-aware selection is a three-tier choice followed by weighted sampling without replacement;
  the tag similarity is a cosine, proved to lie in [0, 1] and to be 1 exactly for an empty vector or
  parallel vectors of some weight.
- `Difficulty`, `Preimages`: the emission controller as a state machine over runs of blocks (exact
  accounting, order preservation, closed forms for slow and fast runs, the exact run length at which
  the epoch accumulator overflows) and the byte strings that consensus hashes, proved injective.
- `CoinSelection`, `ChainQuery`, `WalletSync`, `RingBuilder`, `Transfer`: a wallet payment end to end.
  Largest-first selection is optimal by an exchange argument; batched synchronisation equals one scan;
  rings are distinct, foreign to the wallet and hold the spent coin once; value is conserved.
- `Quorum`, `QuorumSearch`, `SupporterQuorums`, `SeveralValues`, `Backtracking`, `BlockingSets`,
  `ResponseVote`: quorum arithmetic for crash and Byzantine faults, the recursive searches for quorums
  and blocking sets over nested quorum sets, exactly when their answers are right, agreement of two
  searches in one cluster, and the wallet's vote over several nodes' answers.
- `RateLimiter`: the password rate limiter as a timed state machine, with the least time any number of
  consecutive wrong guesses takes.
- `Base58`, `AddressCodec`: the address format as a canonical printer and parser.
- `Machine`, `Arithmetic`, `Sequences`: integer widths and saturation, arithmetic and sequence lemmas.

Where the source draws random numbers, reads a clock or calls cryptography, the model takes the draws,
the times and the outcomes as parameters and proves its results for all of them. A shuffle is an
arbitrary permutation. The release profile keeps overflow checks on, so an overflowing operation is a
precondition or a `None`, never a wrap-around.

Where the code and what it promises differ, the model follows the code, gives a concrete input, and
states when the promise holds:

- The node answers `chain_getOutputs` with `start..=end`, while the wallet asks as if the end were
  excluded. Both conventions are modelled (`ChainQuery.RangeEnd`). With an excluded end the wallet's
  promises hold (`HalfOpenSyncIsOneScan`, `HalfOpenDecoysInBand`); with the node's inclusive end they
  hold exactly under the conditions of `InclusiveSyncExactIff`, for a resumed sync of
  `ResumedSyncExactIff`, and of `InclusiveDecoysStrayIff`.
- The nearest-age fallback does not look again at the keys it has taken. The keys are distinct exactly
  as `ChoiceKeysDistinctIff` says; distinct candidates are enough.
- The selected total saturates at 2^64 - 1. Value is conserved exactly when it does not
  (`ValueConservedIff`).
- A lottery payout carries the key of the coin that won it, so a transfer can spend two coins with one
  key (`PayoutSharesKey`). The real keys of a transfer are distinct exactly when the selected coins' keys
  are (`RealKeysDistinctIff`), as in a wallet without such a pair.
- Cluster-aware selection of zero decoys fails when no candidate is compatible (`EmptyRequestFails`,
  `SucceedsIffEnoughEligible`).
- The nearest-age fallback is documented to minimise the age of the oldest ring member. It minimises the
  age distance instead (`FallbackIsMinimax`, `NearestCanBeOlder`). The ring age is least exactly under
  the condition of `FallbackLeastRingAgeIff`, and always when no candidate is younger than the input.
- Identical tag vectors are documented to have similarity 1. A vector with tags but no weight scores 0
  (`WeightlessScoresZero`); every other does score 1 (`IdenticalIsOneIff`).
- The quorum helper's documentation says that a failed call restores the nodes collected so far. The
  code takes back only the node it added itself (`FailedSearchKeepsNode`). Failed calls restore exactly
  when no node's own quorum set brings in another node (`RestoresIff`, `SelfReliantRestores`).
- So a set may be reported that is not a quorum (`StrayNodeIsNoQuorum`), and it may hold a node that is
  not behind every value left (`StrayNodeDissents`), although a quorum in which every node satisfies the
  predicate is promised. For any predicate, the answer is right for every quorum set asked about, and
  what is found is a quorum for every value left, if and only if all who are behind the predicate are,
  with the local node, a quorum for one of its values (`ExactIff`). For one quorum set it is enough that
  those of them who can be reached by name are (`ReachIsExact`), or that no node's quorum set names
  another node with a message (`SelfReliantIsUnanimous`).
- A search for several values at once settles on those a node's own quorum set was found for and does
  not look back, so it can miss a quorum (`SeveralValuesMissQuorum`). A value is never lost, in any call
  of the helper from any set of nodes, if and only if everyone behind the predicate whose own set can be
  satisfied is behind that value (`NeverLosesIff`). For one value no quorum is missed
  (`FindQuorumCompleteForOne`).
- The blocking-set search, which nomination calls with one value at a time, shares this
  (`SeveralValuesMissBlockingSet`). It never loses a value if and only if everyone behind the predicate is
  behind it, or nobody is (`NeverLosesBlockingIff`).
- The lockout branch of the rate limiter is unreachable while the clock does not run backwards
  (`LockoutBranchIff`).

## Model

| member | source | states |
|---|---|---|
| Candidates.AgeBandMeaning | botho/src/decoy_selection.rs:278-285 | An age is in the band exactly when it is confirmed and within a tenth of the real age; the band is empty exactly for inputs younger than the confirmation depth |
| Candidates.FactorBandMeaning | botho/src/decoy_selection.rs:339-345 | A factor is in the band exactly when it is a legal factor within a tenth of the clamped real factor, which is always in its own band; background inputs get 1000 to 1100 |
| NearestDecoys.SelectDecoysForInput | botho/src/decoy_selection.rs:749-849 | Which of the three errors is returned and when; otherwise a two-phase choice that follows the gamma draws within the band |
| NearestDecoys.DrawWithinBand | botho/src/decoy_selection.rs:797-821 | Phase 1 takes in-band candidates with distinct keys, each nearest to its draw among those left, and stops short only when every in-band key is taken |
| NearestDecoys.DrawPhase | botho/src/decoy_selection.rs:778-821 | The same with the degenerate band, which draws nothing |
| NearestDecoys.FillNearest | botho/src/decoy_selection.rs:826-839 | Phase 2 appends just enough of the sorted leftovers |
| NearestDecoys.BandThenNearest | botho/src/decoy_selection.rs:797-839 | Both phases together select as many as can be reached, and when that is enough the result is an age-similar choice |
| NearestDecoys.AgeDistance | botho/src/decoy_selection.rs:809-811 | The signed 64-bit distance is the true distance for all ages below 2^63, without overflow |
| NearestDecoys.ChoiceIsEligible | botho/src/decoy_selection.rs:749-849 | The chosen candidates are a sub-multiset of the eligible ones |
| NearestDecoys.BandedChoiceCapsAges | botho/src/decoy_selection.rs:778-821 | With enough in-band keys every chosen age is confirmed and at most 1.1 times the real age |
| NearestDecoys.ChoiceKeysDistinctIff | botho/src/decoy_selection.rs:823-839 | The chosen keys are pairwise distinct if and only if the band sufficed or the nearest leftovers taken have distinct keys |
| NearestDecoys.DistinctKeysReachAll | botho/src/decoy_selection.rs:841-846 | Over distinct keys every eligible candidate is reachable, so the last error never occurs |
| NearestDecoys.DistinctKeysStayDistinct | botho/src/decoy_selection.rs:823-839 | Over distinct keys the choice has distinct keys |
| NearestDecoys.NoneLeftOutIsNearer | botho/src/decoy_selection.rs:823-839 | When the fallback is used, no eligible candidate left out is nearer to the real age than any chosen one |
| NearestDecoys.FallbackIsMinimax | botho/src/decoy_selection.rs:823-839 | When the fallback is used, no other choice of as many eligible candidates has a smaller largest age distance |
| NearestDecoys.LeastRingAgeIff | botho/src/decoy_selection.rs:742-747 | The oldest ring member is as young as the pool allows if and only if nobody chosen is older than the real input while enough candidates are younger than that one |
| NearestDecoys.FallbackLeastRingAgeIff | botho/src/decoy_selection.rs:742-747 | Over distinct keys the same, as a condition on the pool alone, since what the fallback takes does not depend on the draws |
| NearestDecoys.NoneYoungerIsEnough | botho/src/decoy_selection.rs:742-747 | The documented minimum is met whenever no candidate is younger than the real input |
| NearestDecoys.NearestCanBeOlder | botho/src/decoy_selection.rs:742-747 | For a real age of 100 and candidates aged 50 and 130 the choice is 130, and the ring is 130 old where 100 was possible |
| NearestDecoys.DuplicateKeysCanBothBeChosen | botho/src/decoy_selection.rs:832-838 | Two candidates with one key outside the band suffice for two decoys, and both are chosen |
| NearestDecoys.DuplicateKeysCanFail | botho/src/decoy_selection.rs:841-846 | Two candidates with one key inside the band count as one |
| ClusterDecoys.PickIndex | botho/src/decoy_selection.rs:1029-1038 | The index returned is the first whose cumulative weight reaches the sample, 0 when none does |
| ClusterDecoys.DrawOne | botho/src/decoy_selection.rs:1023-1038 | With positive weights and a unit draw the cumulative weight always reaches the sample |
| ClusterDecoys.WeightedDraws | botho/src/decoy_selection.rs:1016-1050 | The loop draws without replacement, follows the weights at each step, keeps first occurrences of fresh keys, and returns as many as asked or as there are keys |
| ClusterDecoys.KeptKeys | botho/src/decoy_selection.rs:1043-1046 | What is kept has distinct keys, exactly the drawn keys that are not excluded |
| ClusterDecoys.RemainingWithout | botho/src/decoy_selection.rs:1048-1049 | Removing the drawn position from the list leaves exactly the indices not drawn |
| ClusterDecoys.SampleDecoys | botho/src/decoy_selection.rs:992-1060 | Which error and when; otherwise exactly the number asked for, sampled from the pool |
| ClusterDecoys.SelectDecoysClusterAware | botho/src/decoy_selection.rs:907-1135 | Which of the three tiers is sampled (compatible by age weight, factor-banded by score, all eligible by score), or which error and when; exactly when it succeeds |
| ClusterDecoys.SampledProperties | botho/src/decoy_selection.rs:1022-1059 | Sampled decoys are in the pool, distinct and not excluded |
| ClusterDecoys.SucceedsIffEnoughEligible | botho/src/decoy_selection.rs:907-989 | Over distinct keys selection succeeds if and only if there are enough eligible candidates, the distribution is valid where needed, and a request for none finds some compatible candidate |
| ClusterDecoys.EmptyRequestFails | botho/src/decoy_selection.rs:992-1015 | Asking an empty pool for no decoys fails |
| ClusterDecoys.DecoysStayInFactorBand | botho/src/decoy_selection.rs:915-966 | With enough candidates in the factor band every decoy is in it and eligible |
| ClusterDecoys.RingFloorStaysInBand | botho/src/decoy_selection.rs:287-345 | The value-weighted factor of a ring whose members are in the band stays in the band, at most 1.1 for a background spender |
| TagSimilarity.TagSums | botho/src/decoy_selection.rs:135-167 | The single loop computes the dot product and both squared magnitudes, in any iteration order |
| TagSimilarity.CosineSimilarity | botho/src/decoy_selection.rs:135-167 | The method computes the cosine, 1 when either vector is empty, the magnitude floored at 1 |
| TagSimilarity.DotPick | botho/src/decoy_selection.rs:151-163 | The sum may be taken in any order of clusters |
| TagSimilarity.DotSymmetric | botho/src/decoy_selection.rs:151-163 | The dot product is symmetric |
| TagSimilarity.CauchySchwarz | botho/src/decoy_selection.rs:135-167 | The square of the dot product is at most the product of the squared magnitudes |
| TagSimilarity.CauchySchwarzEquality | botho/src/decoy_selection.rs:135-167 | with equality exactly for parallel vectors |
| TagSimilarity.CosineRange | botho/src/decoy_selection.rs:135-167 | With an exact root the similarity is in [0, 1] and the final clamp changes nothing |
| TagSimilarity.CosineSymmetric | botho/src/decoy_selection.rs:135-167 | The similarity is symmetric for any root function |
| TagSimilarity.CosineIsOneIff | botho/src/decoy_selection.rs:130-167 | It is 1 if and only if a vector is empty, or both have weight and are parallel |
| TagSimilarity.WeightlessScoresZero | botho/src/decoy_selection.rs:130-167 | A vector with tags but no weight scores 0 against every vector with tags, itself included |
| TagSimilarity.IdenticalIsOneIff | botho/src/decoy_selection.rs:130-167 | Identical vectors score 1 if and only if they are empty or have weight |
| TagSimilarity.CombinedBounds | botho/src/decoy_selection.rs:203-213 | The combined similarity is between 0.2 and 1 |
| Centroid.AccumulateMasses | botho/src/decoy_selection.rs:1221-1230 | The nested loop gives every cluster of the ring its value-weighted mass |
| Centroid.AddMember | botho/src/decoy_selection.rs:1226-1229 | The inner loop adds one member's masses and nothing else |
| Centroid.ShareFits | botho/src/decoy_selection.rs:1227-1236 | The share fits 32 bits and the mass 128, so the truncating cast loses nothing |
| Centroid.MassSumStep | botho/src/decoy_selection.rs:1221-1230 | One more member adds its amount times its attributed weight to the sum of masses |
| Centroid.CentroidWithinScale | botho/src/decoy_selection.rs:1232-1238 | If no member attributes more than the scale, neither does the centroid |
| Centroid.AgreeingCentroid | botho/src/decoy_selection.rs:1232-1238 | Members with the same tags have exactly those tags as centroid, no rounding |
| Centroid.ComputeCentroid | botho/src/decoy_selection.rs:1221-1238 | The masses divided and cast are exactly the value-weighted centroid |
| Centroid.ValidateRing | botho/src/decoy_selection.rs:1196-1247 | Accepts exactly when the centroid's similarity reaches the threshold; the valueless ring accepts only empty tags |
| Centroid.AgreeingRingPasses | botho/src/decoy_selection.rs:1196-1247 | A ring agreeing with the output has similarity 1, so any threshold up to 1 accepts it, if and only if the tags are empty or have weight |
| Difficulty.ObservedCapIsInert | botho/src/block.rs:1315-1350 | The cap on the observed time never changes the result, the multiplier clamp is tighter |
| Difficulty.TimeAdjustedMonotone | botho/src/block.rs:1315-1350 | A higher difficulty value or a slower block never gives a lower result |
| Difficulty.EmissionController.constructor | botho/src/block.rs:1126-1137 | A new controller has zero totals and the given difficulty |
| Difficulty.EmissionController.RecordBlock | botho/src/block.rs:1234-1267 | One call performs one step of the state machine and returns the new difficulty and the reward paid |
| Difficulty.EmissionController.ResetEpoch | botho/src/block.rs:1405-1409 | Clears the epoch counters and nothing else |
| Difficulty.RunAccounting | botho/src/block.rs:1234-1267 | A run completes if and only if the accumulators fit; then every total is the start plus the sum over the run and the difficulty depends only on the observed times |
| Difficulty.EpochEmissionHorizon | botho/src/block.rs:1234-1267 | At the initial reward a run completes if and only if it has at most 368,934 blocks |
| Difficulty.DifficultyOrdered | botho/src/block.rs:1234-1350 | Pointwise slower runs from higher values stay higher |
| Difficulty.RunsStayOrdered | botho/src/block.rs:1234-1350 | The same for the machine, after every prefix |
| Difficulty.DifficultyIgnoresLoad | botho/src/block.rs:1234-1267 | Runs with equal observed times reach equal difficulties whatever their transactions, rewards and burns |
| Difficulty.SlowRunDoubles | botho/src/block.rs:1315-1350 | n slow blocks multiply the value by exactly 2^n, up to the maximum |
| Difficulty.FastRunHalves | botho/src/block.rs:1315-1350 | n fast blocks divide it by exactly 2^n, down to the minimum, despite rounding at every step |
| Difficulty.BoundsReachedIn64 | botho/src/block.rs:996-1031 | From any legal value 64 blocks reach either bound |
| Preimages.FromToLe | botho/src/block.rs:345-368 | Little-endian bytes read back the number they were written from |
| Preimages.ToFromLe | botho/src/block.rs:345-368 | and bytes read as a number are written back unchanged |
| Preimages.MintingPreimageInjective | botho/src/block.rs:345-368 | Two minting transactions hash the same bytes if and only if they agree in every field, an absent ciphertext counting as an empty one |
| Preimages.LotteryPreimageInjective | botho/src/block.rs:488-499 | The same for lottery outputs |
| Preimages.UtxoIdRoundTrip | botho/src/block.rs:448-486 | Packing and unpacking the winner's 36-byte id are inverse to each other |
| CoinSelection.TakeUntil | botho-wallet/src/transaction.rs:492-501 | The loop takes a prefix whose saturated total reaches the target or everything, and one coin less would not do |
| CoinSelection.SelectUtxos | botho-wallet/src/transaction.rs:483-512 | Which error and when, with the exact total; otherwise a largest-first choice |
| CoinSelection.LargestPrefixIsBest | botho-wallet/src/transaction.rs:483-512 | No k coins are worth more than the k largest |
| CoinSelection.NoSmallerSelection | botho-wallet/src/transaction.rs:483-512 | No smaller set of coins reaches the target |
| CoinSelection.SelectionIsOwned | botho-wallet/src/transaction.rs:483-512 | The selection is a sub-multiset of the wallet |
| ChainQuery.BlocksSplit | botho/src/rpc/mod.rs:1693-1807 | The answers to two adjacent ranges make the answer to their union |
| ChainQuery.BlocksHeights | botho/src/rpc/mod.rs:1693-1807 | Every block answered is on the chain and in the range |
| WalletSync.ScanOutputs | botho-wallet/src/transaction.rs:541-597 | The nested loop finds the owned outputs of all blocks in order |
| WalletSync.ScanBlockOutputs | botho-wallet/src/transaction.rs:545-593 | The same for the outputs of one block |
| WalletSync.ScanIsRange | botho-wallet/src/transaction.rs:541-597 | Scanning an answered range is concatenating what each height owns |
| WalletSync.SyncWallet | botho-wallet/src/transaction.rs:723-754 | The batch loop returns the tip and the concatenation of its batches |
| WalletSync.HalfOpenSyncIsOneScan | botho-wallet/src/transaction.rs:723-754 | With an excluded end, batches of 100 find exactly what one scan finds |
| WalletSync.HalfOpenSyncsCompose | botho-wallet/src/transaction.rs:723-754 | and resuming at the synced height loses and repeats nothing |
| WalletSync.InclusiveSyncLength | botho/src/rpc/mod.rs:1706-1807 | With the node's inclusive end the excess is exactly what the wallet owns at batch seams |
| WalletSync.CleanSeams | botho/src/rpc/mod.rs:1706-1807 | With nothing owned at seams the result is one scan |
| WalletSync.InclusiveSyncExactIff | botho/src/rpc/mod.rs:1706-1807 | The result is one scan if and only if nothing is owned at a seam |
| WalletSync.SeamsAre | botho-wallet/src/transaction.rs:739-751 | The seams are exactly the heights a multiple of 100 past the start, before the tip |
| WalletSync.ResumedSyncLength | botho/src/rpc/mod.rs:1706-1807 | Resuming repeats exactly what is owned at the resumed height, on top of the seams |
| WalletSync.ResumedSyncExactIff | botho/src/rpc/mod.rs:1706-1807 | Two syncs, the second resuming the first, are one scan if and only if nothing is owned at a seam or at the resumed height |
| WalletSync.SeamCoinReportedTwice | botho/src/rpc/mod.rs:1706-1807 | A coin at height 100 is reported twice by a sync from 0 to 150 |
| RingBuilder.CollectPool | botho-wallet/src/ring_builder.rs:126-139 | The loop collects the usable outputs of all blocks in order |
| RingBuilder.CollectBlock | botho-wallet/src/ring_builder.rs:129-138 | and skips the malformed and the wallet's own |
| RingBuilder.FetchDecoyRingMembers | botho-wallet/src/ring_builder.rs:92-163 | Which error and when; otherwise as many members as asked for, drawn from the pool |
| RingBuilder.DecoysAreDistinct | botho-wallet/src/ring_builder.rs:141-162 | The decoys have distinct keys, none of them excluded |
| RingBuilder.PoolKeepsFirstFetched | botho-wallet/src/ring_builder.rs:141-144 | Of outputs with one key the pool keeps the one fetched first |
| RingBuilder.SecondPartReachesPool | botho-wallet/src/ring_builder.rs:141-144 | An output of a later part of the answer reaches the pool if and only if some key of it is new |
| RingBuilder.WindowIsBand | botho-wallet/src/ring_builder.rs:111-117 | A height is in the window if and only if its age is in the band; the youngest end is confirmed |
| RingBuilder.HalfOpenDecoysInBand | botho-wallet/src/ring_builder.rs:119-144 | With an excluded end every decoy offered is in the age band |
| RingBuilder.InclusiveDecoysStrayIff | botho/src/rpc/mod.rs:1706-1807 | With the node's inclusive end a decoy outside the band is offered if and only if the height one past the window holds a usable key the window does not |
| RingBuilder.InclusiveDecoysNearBand | botho/src/rpc/mod.rs:1706-1807 | and then it is exactly one block too young |
| RingBuilder.UnconfirmedDecoyOffered | botho/src/rpc/mod.rs:1706-1807 | A concrete chain on which an unconfirmed decoy is offered |
| Transfer.AssembleRing | botho-wallet/src/transaction.rs:439-449 | The ring is the real member and the first decoys in some order, and the index is the first position of the real key |
| Transfer.AssembledRing | botho-wallet/src/transaction.rs:439-462 | With good decoys the ring has distinct keys and exactly one of the wallet's own, at the index |
| Transfer.BuildSignedTransaction | botho-wallet/src/transaction.rs:338-472 | Which error is returned and when: the first failing check, or the first input that cannot be spent and why; on success the request was buildable, and outputs, fee and inputs are as it says |
| Transfer.ValueConservedIff | botho-wallet/src/transaction.rs:355-399 | Inputs equal outputs plus fee if and only if the selected total fits 64 bits; dust goes to the fee and only dust |
| Transfer.SaturationLosesValue | botho-wallet/src/transaction.rs:492-511 | A selection whose total saturates, and how much of it is not paid out |
| Transfer.FetchRings | botho-wallet/src/transaction.rs:302-318 | One ring per input, excluding every selected input; an error only if some pool is too small |
| Transfer.RingsHaveIntegrity | botho-wallet/src/transaction.rs:299-462 | Every ring built from fetched decoys has integrity |
| Transfer.HalfOpenRingsInBand | botho-wallet/src/transaction.rs:299-462 | With an excluded end every ring member but the real one has an age in the band of that ring's own input |
| Transfer.RealKeyAppearsIff | botho-wallet/src/transaction.rs:299-462 | The real key of one ring appears in another if and only if the two coins share it |
| Transfer.RealKeysDistinctIff | botho-wallet/src/transaction.rs:299-462 | No ring holds the real key of another if and only if the selected coins have distinct keys |
| Transfer.DistinctWalletSelectsDistinct | botho-wallet/src/transaction.rs:483-512 | A wallet with distinct keys selects coins with distinct keys |
| Transfer.PayoutSharesKey | botho/src/block.rs:429-442 | A coin and the lottery payout it won share a key and can be selected together |
| Transfer.PlanTransfer | botho-wallet/src/transaction.rs:278-318 | Every rejection and its condition, in the order of the checks; otherwise a selection and its rings |
| Transfer.BuildTransfer | botho-wallet/src/transaction.rs:271-328 | A transfer that succeeds spends owned coins, conserves value and has sound rings; with keys available it fails only for the stated reasons |
| Quorum.Overlap | botho/src/config.rs:402-422 | Two sets of t out of n members share at least 2t - n |
| Quorum.IntersectIffMajority | botho/src/config.rs:402-422 | Any two sets of t members intersect if and only if t is more than half |
| Quorum.CrashThresholdIsLeastSafe | botho/src/config.rs:518-537 | The crash threshold is the least at which any two quorums intersect |
| Quorum.CrashLiveness | botho/src/config.rs:518-537 | It is reachable if and only if at most (n-1)/2 members have crashed |
| Quorum.BftSafety | botho/src/config.rs:518-537 | With at most f Byzantine members any two quorums share an honest one |
| Quorum.BftLiveness | botho/src/config.rs:518-537 | The quorum is reachable if and only if at most f members are silent |
| Quorum.BftIsOptimal | botho/src/config.rs:518-546 | Some threshold survives k faults, both silent and lying, if and only if k is at most the f of the configuration |
| Quorum.RecommendedReachableIff | botho/src/config.rs:614-628 | In recommended mode quorum is reachable if and only if the minimum of peers is connected |
| Quorum.ExplicitReachableIff | botho/src/config.rs:600-612 | In explicit mode, over distinct peers, if and only if the trusted ones and self reach the threshold |
| Quorum.BftNodesIff | botho/src/config.rs:539-563 | The node count test is exactly f >= 1 |
| QuorumSearch.Search | consensus/scp/src/quorum_set_ext.rs:128-216 | The recursive search over nested sets terminates, never loses a node it was given and adds only nodes with messages |
| QuorumSearch.SearchDelivers | consensus/scp/src/quorum_set_ext.rs:128-216 | Whatever the input, every node added supports a value of the predicate; success satisfies the threshold and leaves a non-empty, narrower predicate |
| QuorumSearch.SearchKeeps | consensus/scp/src/quorum_set_ext.rs:128-216 | If everyone behind the predicate whose own set the pool can satisfy is behind a value, a search that succeeds still has that value |
| QuorumSearch.SearchComplete | consensus/scp/src/quorum_set_ext.rs:128-216 | Under the same condition, if a quorum for the value exists the search for the whole predicate succeeds with that value left, whatever it tries and abandons first |
| QuorumSearch.FindQuorumComplete | consensus/scp/src/quorum_set_ext.rs:95-108 | A quorum for a value is not missed, for any predicate, if everyone else behind the predicate whose own set the supporters can satisfy is behind the value |
| QuorumSearch.FindQuorumCompleteForOne | consensus/scp/src/quorum_set_ext.rs:95-108 | For one value no quorum is missed |
| QuorumSearch.FindQuorumGuarantee | consensus/scp/src/quorum_set_ext.rs:95-108 | What is returned holds the local node, otherwise only supporters, and satisfies the local quorum set |
| SupporterQuorums.CampDecides | consensus/scp/src/quorum_set_ext.rs:128-216 | For any predicate: if all who are behind it are a quorum for one of its values, a search at any level succeeds if and only if they satisfy what is searched for, and keeps that value |
| SupporterQuorums.CampIsUpright | consensus/scp/src/quorum_set_ext.rs:128-216 | Then every node added finds a slice of its own among the nodes returned and supports every value left |
| SupporterQuorums.CampIsExact | consensus/scp/src/slot.rs:1704-1708 | Then a set is found if and only if the supporters satisfy the local set, and it is a quorum for every value left, that one among them |
| SupporterQuorums.ExactIff | consensus/scp/src/slot.rs:1704-1708 | For any predicate and every quorum set asked about, a set is found if and only if the supporters satisfy it, and it is a quorum for every value left; this holds if and only if the supporters are, with the local node, a quorum for one of the values |
| SupporterQuorums.ExactForOneIff | consensus/scp/src/quorum_set_ext.rs:95-108 | For one value: if and only if those behind it suffice for each other |
| SupporterQuorums.FindQuorumExact | consensus/scp/src/quorum_set_ext.rs:220-235 | It holds for a quorum set if everyone else behind the predicate is behind one value and declares no stricter set |
| SupporterQuorums.SearchReadsReach | consensus/scp/src/quorum_set_ext.rs:128-216 | The search reads no message of a node that cannot be reached by name, nor that of the local node |
| SupporterQuorums.ReachIsExact | consensus/scp/src/quorum_set_ext.rs:95-108 | So for one quorum set it is enough that the reachable supporters are, with the local node, a quorum for one of the values |
| SeveralValues.NeverLosesIff | consensus/scp/src/slot.rs:1752-1772 | A value is never lost in any call of the helper, whenever a quorum for it exists, if and only if everyone behind the predicate whose own set can be satisfied is behind it |
| SeveralValues.Settled | consensus/scp/src/quorum_set_ext.rs:128-216 | With every named node already counted a search succeeds if and only if the count suffices, and adds nothing |
| SeveralValues.SameSearch | consensus/scp/src/quorum_set_ext.rs:128-216 | If everyone behind the predicate is behind a value, the search for the predicate is the search for that value, step by step |
| SeveralValues.FindsAsForOne | consensus/scp/src/quorum_set_ext.rs:95-108 | Then it finds the same nodes and keeps the value |
| SeveralValues.SeveralValuesMissQuorum | consensus/scp/src/slot.rs:1752-1772 | A search for two values that finds nothing although a quorum for one of them exists and is found alone |
| QuorumSearch.FailedSearchKeepsNode | consensus/scp/src/quorum_set_ext.rs:181-185 | A failed call that leaves a node behind |
| QuorumSearch.StrayNodeIsNoQuorum | consensus/scp/src/quorum_set_ext.rs:95-108 | A reported set although no quorum exists |
| Backtracking.RestoresIff | consensus/scp/src/quorum_set_ext.rs:124-185 | Every failed call hands its nodes back unchanged, as documented, if and only if exploring a node's own quorum set never brings in another node |
| Backtracking.RecruitStays | consensus/scp/src/quorum_set_ext.rs:181-185 | Any node brought in that way outlives the failure of the one that brought it in |
| Backtracking.SelfReliantRestores | consensus/scp/src/quorum_set_ext.rs:124-185 | Failed calls restore if no node's quorum set names another node with a message |
| Backtracking.CleanIsUpright | consensus/scp/src/quorum_set_ext.rs:128-216 | In a search that handed back whatever it gave up, every node added finds a slice of its own among the nodes returned and supports every value left, for any predicate |
| Backtracking.CleanSearchIsUnanimous | consensus/scp/src/slot.rs:1704-1708 | For such a search the set found is a quorum for every value left, as promised, and some value is left |
| Backtracking.NoneRecruitsIsClean | consensus/scp/src/quorum_set_ext.rs:128-216 | If no node's own quorum set brings in another, every search hands back whatever it gave up |
| Backtracking.SelfReliantIsUnanimous | consensus/scp/src/slot.rs:1704-1708 | So if no node's quorum set names another node with a message, the set found is a quorum for every value left, for any predicate |
| Backtracking.StrayNodeDissents | consensus/scp/src/slot.rs:1704-1708 | Otherwise a node may be returned that does not support a value left |
| Backtracking.CleanSearchIsExact | consensus/scp/src/quorum_set_ext.rs:95-108 | For such a search a set is found if and only if a quorum for the value exists, and the set is one |
| QuorumSearch.QuorumsAgree | consensus/scp/src/quorum_set_ext.rs:95-108 | Two nodes of one Byzantine-tolerant cluster that each find a quorum have found it for the same value, with at most f faulty nodes and no other node behind two values |
| BlockingSets.BlockedOrSatisfied | consensus/scp/src/quorum_set_ext.rs:249-326 | At every depth, members blocked by a set and members satisfied without it number at most all |
| BlockingSets.OneOrTheOther | consensus/scp/src/quorum_set_ext.rs:249-326 | and at least all, when none is absent |
| BlockingSets.BlockingMeetsSlices | consensus/scp/src/quorum_set_ext.rs:249-326 | A blocking set meets every slice |
| BlockingSets.BlocksIff | consensus/scp/src/quorum_set_ext.rs:249-326 | With no member absent a set blocks if and only if it meets every slice |
| BlockingSets.AbsentIsNeverBlocked | consensus/scp/src/quorum_set_ext.rs:319-325 | An absent member breaks that equivalence |
| BlockingSets.SearchFinds | consensus/scp/src/quorum_set_ext.rs:249-326 | Nodes found block enough members, and every one is behind every value left |
| BlockingSets.SearchFindsIff | consensus/scp/src/quorum_set_ext.rs:249-326 | For one value the greedy search finds nodes if and only if the supporters block enough members |
| BlockingSets.FoundSetBlocks | consensus/scp/src/quorum_set_ext.rs:81-93 | A set found blocks, unanimously behind at least one value |
| BlockingSets.FindsIffSupportersBlock | consensus/scp/src/quorum_set_ext.rs:81-93 | A blocking set for a value is found if and only if its supporters block, so with no member absent if and only if they meet every slice |
| BlockingSets.SeveralValuesFindIff | consensus/scp/src/quorum_set_ext.rs:81-93 | For several values the same, if everyone behind the predicate is behind the value |
| BlockingSets.NeverLosesBlockingIff | consensus/scp/src/quorum_set_ext.rs:81-93 | A value whose supporters block is never lost, for every quorum set, if and only if everyone behind the predicate is behind it or nobody is |
| BlockingSets.SeveralValuesMissBlockingSet | consensus/scp/src/quorum_set_ext.rs:249-326 | Otherwise the greedy search can miss a blocking set |
| BlockingSets.QuorumMeetsBlockingSet | consensus/scp/src/quorum_set_ext.rs:81-108 | Whatever quorum is found meets whatever blocking set is found |
| ResponseVote.CountOthers | botho-wallet/src/rpc_pool.rs:256-264 | The inner loop counts the other equal answers |
| ResponseVote.CountMatches | botho-wallet/src/rpc_pool.rs:256-264 | The tally holds an entry exactly for answers given more than once, one less than their number |
| ResponseVote.CallVerified | botho-wallet/src/rpc_pool.rs:252-273 | No answers is an error; otherwise the result is one of the answers and a plurality, whichever maximum the map yields |
| ResponseVote.MajorityWins | botho-wallet/src/rpc_pool.rs:252-273 | A majority answer is always the one returned |
| RateLimiter.DelayTable | botho-wallet/src/storage.rs:107-115 | The delay doubles from one second and is capped from the tenth failure on |
| RateLimiter.DecryptionRateLimiter.constructor | botho-wallet/src/storage.rs:64-69 | No failures and no time recorded |
| RateLimiter.DecryptionRateLimiter.CheckRateLimit | botho-wallet/src/storage.rs:79-102 | Refuses exactly while the delay since the last failure runs, and says how long |
| RateLimiter.DecryptionRateLimiter.RemainingLockoutTime | botho-wallet/src/storage.rs:143-164 | The seconds left, or none |
| RateLimiter.DecryptionRateLimiter.RecordFailure | botho-wallet/src/storage.rs:118-121 | Counts the failure, saturating, and records its time |
| RateLimiter.DecryptionRateLimiter.RecordSuccess | botho-wallet/src/storage.rs:124-127 | Clears both |
| RateLimiter.DecryptionRateLimiter.DecryptWithRateLimit | botho-wallet/src/storage.rs:337-384 | One attempt performs one step of the timed state machine |
| RateLimiter.LockoutBranchIff | botho-wallet/src/storage.rs:337-384 | The lockout branch is taken if and only if the clock ran backwards between its two readings over the end of the delay |
| RateLimiter.RunInvariant | botho-wallet/src/storage.rs:337-384 | In every run on a monotone clock the state counts the failures since the last success, and consecutive ones are at least the delay apart |
| RateLimiter.FailuresTakeTime | botho-wallet/src/storage.rs:337-384 | n consecutive failures span at least the sum of the delays between them |
| RateLimiter.LeastSpanClosed | botho-wallet/src/storage.rs:107-115 | which is 511 s for ten and 300 s for each further one |
| RateLimiter.GuessesPerDay | botho-wallet/src/storage.rs:337-384 | so at most 296 wrong guesses fit in a day |
| Base58.ConvertBack | address-codec/src/lib.rs:203-244 | Conversion between two bases that keeps leading zeros is undone by converting back |
| Base58.DecodeEncode | address-codec/src/lib.rs:203-244 | Decoding an encoding gives back the bytes |
| Base58.EncodeDecode | address-codec/src/lib.rs:203-244 | Encoding a decoding gives back the string |
| Base58.EncodeShape | address-codec/src/lib.rs:203-203 | An encoding is in the alphabet and empty only for no bytes |
| AddressCodec.EncodeAddress | address-codec/src/lib.rs:186-205 | Fails exactly when a post-quantum key has the wrong length, and reports both lengths |
| AddressCodec.PrefixClassesDisjoint | address-codec/src/lib.rs:47-62 | No string is in two of the classes retired quantum, retired v1, v2, nor of both networks |
| AddressCodec.AddressStringTrimmed | address-codec/src/lib.rs:186-218 | An encoded address has no surrounding white space to trim |
| AddressCodec.DecodeEncodeAddress | address-codec/src/lib.rs:186-265 | Decoding an encoded address gives the address and the network |
| AddressCodec.EncodeDecodeAddress | address-codec/src/lib.rs:215-265 | A decoded string is, once trimmed, the encoding of what was decoded |
| AddressCodec.DecodesIffEncoding | address-codec/src/lib.rs:215-265 | A string decodes if and only if it is, once trimmed, an encoding of some address |

## Left out

- QuorumSearch.FindQuorumComplete: a sufficient condition for several values; the exact one is stated for all calls of the helper together (`NeverLosesIff`), since whether one call loses a value depends on the order of its members
- SupporterQuorums.ReachIsExact: a sufficient condition for one quorum set; the exact one is stated over all quorum sets (`ExactIff`), since for a single one a node left behind may do no harm
- Backtracking.CleanSearchIsUnanimous: its condition follows the search itself; the conditions on the messages are those of `ExactIff`, `ReachIsExact` and `SelfReliantIsUnanimous`
- Backtracking.CleanSearchIsExact: the same for one value
- Backtracking.SelfReliantRestores: a sufficient condition on the messages; the exact one is `RestoresIff`
- QuorumSearch.Search: `nodes_so_far` is threaded through as a value, so the in-place mutation and the snapshot clone are not captured as heap updates; predicates are sets of values narrowed by intersection, so `filter_to_max_values` and ballot ranges are not modelled
- The rest of the consensus protocol: nomination and ballot phases, timers, message validation, quorum-set weights
- Cryptography: key derivation, stealth addresses, ring signatures, hashing, password encryption; their outcomes are parameters
- Floating point: rounding of the weights, the square root and the similarity; the model computes with reals and an exact root where a bound needs it
- The gamma distribution itself: parameter learning, its density and `select_decoys`, the plain gamma path without age similarity
- The dominant-cluster comparison and the effective-anonymity estimates; the former is a parameter of the combined similarity
- The monetary policy of `cluster-tax`, block rewards by height, halving, and the retired difficulty kernels
- Block assembly, transaction roots and the fee total
- Network and JSON: requests that fail, malformed hexadecimal beyond an output being unusable, node discovery and scoring
- Wallet files, the persistence of the rate limiter, and the wording of messages
- The wallet's own decoy selection over local candidates, which no payment path calls
