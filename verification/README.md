# A verified model of the Wownero node's core

This project models, in Dafny, the parts of a Wownero node whose correctness spans several
operations or a whole run, and proves what those parts are for:

- the transaction pool and its race with the chain (`Base`, `Sorting`, `PoolModel`, `PoolFacts`, `TxPool`, `NodeRace`,
  `RefusedSwitch`, `ReturnedTxs`, `PoolViews`, `RelayBackoff`, `PoolStore`);
- the caches that must agree with the slow path, and the sync handshake (`ChainLinks`, `HashCache`,
  `SyncHandshake`, `WorkerQueue`, `Prehash`, `Prevalidate`);
- difficulty arithmetic (`WideDivision`, `WindowDifficulty`, `Lwma`);
- emission and block templates (`Emission`, `TemplateFill`, `TemplateBuild`, `TemplateCases`);
- amounts and dates as text (`Decimal`, `Amount`, `Calendar`).

`dafny verify dfyconfig.toml` checks everything. Each file holds one module; `TxPool.dfy` holds
`TxPoolObject`, whose class is the pool as the program mutates it, specified by the functions of `PoolModel`.

## How the system is modelled

- The pool's four structures are a record; its invariant ties the running weight, the key-image index and the
  relay times to the entries. The class methods are loops over those fields, each proved to compute a function
  of the old value.
- The node is a state machine. Steps take and release the chain lock, commit one block, pop or apply one block of
  a reorganisation, restore one block of a refused one, clean up the pool, and run an admission read by read.
  Runs are arbitrary interleavings of those steps.
- Hash maps are walked in an unknown order, given as a list of the keys or chosen nondeterministically.
- The fee rate is an exact quotient (the program uses `f64`). Pool weights and block weights are unbounded naturals;
  widths, wrap-around and saturation are written out in the difficulty, emission and template arithmetic.
- Hashing, signature and range-proof checks and required fees are uninterpreted functions. In the race an admission passes
  a gate made of the program's size, fee, extra and unlock-time limits and of verification against the chain as it stands.
  Distinct transactions have distinct ids; a block id determines its predecessor. Database reads succeed.
- The clock, the network's messages, and the random choices of keys are parameters.

## Findings

- *A refused reorganisation can leave a transaction pooled that the chain has mined or spent.* While the popped
  blocks are off, an admission (which holds only the pool lock) may read what they mined as free. The blocks come back and no
  cleanup runs, since the error path returns before it; the admission may land before that, or after, even one block later.
  `RefusedSwitch.FailedSwitchIsSafeIff` gives the exact condition, over everything that follows up to the next refused switch: there
  is a transaction within the pool's limit, clear of the chain below the split and not of the chain put back, that policy and
  verification pass at a chain the switch goes through, or at the chain put back with one more block that does not touch it.
  `RefusedSwitch.PoppedIsTrapped` shows that every popped transaction which passes those checks on the chain its block was mined on is
  one; `RefusedSwitch.RefusedSwitchLeavesMinedTxPooled` and `RefusedSwitch.LateAdmissionLands` are the smallest cases of the two ways. Where the
  blocks a refused switch took off touch nothing that passes at any chain of the run, pool and chain are free of conflicts
  whenever the chain lock is free (`NodeRace.NoConflictWhileUnlocked`).
- *Loading depends on the walk order exactly when two loadable records share a key image and one is fresh*; no table
  written by `save` from a valid pool has such records.
- *The pre-verified set is keyed by id alone.* An answer obtained under one hard-fork version is right under another
  exactly when the later version is no stricter about ring-member age.
- *A pre-verified answer can outlive its ring members.* A batch forgets its answers only at its end, and a block of the batch
  may start a reorganisation, which pops blocks and asks the same verifier again. A stored pass is right, whatever was signed,
  exactly when every ring means the same members and they may be spent (`Prevalidate.PassCarriesIff`). Over every run, an answer
  whose rings lie below the deepest pop since the first of them was resolved is right exactly when their members may be spent by
  then; any pop that takes a ring member off makes a stored yes wrong.
- *Version 3's band fails when the weighted time is zero*: the rule returns 1 whatever the last difficulty was.
- *Version 5 multiplies unguarded at height 307 800.* The band holds there for every timestamp sequence exactly when
  the average times 620 136 000 fits 128 bits; at every other height outside the overrides it always holds.
- *The coinbase weight loop need not settle.* It settles exactly when some weight measures as itself, then within three
  rounds. Wherever the reward drops between two adjacent coinbase weights there are fees on which it alternates between
  them forever; after every full-claim mainnet chain of 514 000 to 1 000 000 blocks such a pool exists with fees
  no more than the coins issued. Below the penalty zone it always settles in two rounds.
- *A template's coinbase saturates where the validator refuses.* Every template from a pool whose fees come to at most `F` is
  accepted exactly when the base reward and `F` together fit 64 bits. Fees are paid out of issued coins, and the base reward
  never exceeds what is left to issue, so on a chain the condition always holds.
- The comment above `get_block_reward` says two divisions by the median differ from one by its square. They are
  equal (`Emission.TwoDivisions`), which is also what the unit test at line 318 of that file asserts.
- `parse_amount` accepts a text without a digit exactly when it is one point or nothing but underscores, and reads it as zero.

## Model

| member | source | states |
|---|---|---|
| `NodeRace.NoConflictWhileUnlocked` | bin/wownerod/src/node.rs:299-364 | over every interleaving of admissions, commits, reorganisations and pops whose refused switches took off nothing that passes at any chain of the run, whenever the chain lock is free no pooled transaction is mined or spends an image spent on chain; after a commit only that block's own conflicts remain until its cleanup; the pool is always valid |
| `NodeRace.InvOverRun` | bin/wownerod/src/node.rs:299-364 | every reachable state keeps the pool invariant, the chain's shape and agreement with the settled part of the chain |
| `NodeRace.ChainStepKeeps` | bin/wownerod/src/node.rs:328-364 | each step taken under the chain lock keeps the invariant |
| `NodeRace.PoolStepKeeps` | bin/wownerod/src/node.rs:975-1006 | each step taken under the pool lock, at any point of a chain operation, keeps the invariant |
| `NodeRace.SettleAllClean` | bin/wownerod/src/node.rs:455-475 | putting orphaned transactions back after a reorganisation keeps the pool valid and free of conflicts |
| `ReturnedTxs.OrphansComeBack` | bin/wownerod/src/node.rs:455-475 | offering orphans back touches nothing held; every verified orphan unspent on chain is then in the pool or kept out by an entry sharing an image; whatever is new is such an orphan, at relay block, relayed, received now |
| `ReturnedTxs.OrphansAre` | crates/wow-core/src/chain.rs:571-683 | the orphans of a reorganisation are exactly the transactions it took off that the new chain lacks |
| `ReturnedTxs.ReorganisationLosesNothing` | bin/wownerod/src/node.rs:328-364 | over every interleaving from a reorganisation that stands to its settling, every transaction taken off and not on the new chain is offered back, and back in the pool or blocked there if it verifies |
| `ReturnedTxs.PopLosesNothing` | bin/wownerod/src/node.rs:256-270 | the same for every transaction of the blocks a pop takes off |
| `ReturnedTxs.PopTakesAsMany` | bin/wownerod/src/node.rs:256-270 | a pop of n blocks takes off exactly n |
| `ReturnedTxs.PopRuns` | bin/wownerod/src/node.rs:256-270 | every pop that leaves the first block has a run to its end |
| `ReturnedTxs.SwitchRuns` | crates/wow-core/src/chain.rs:571-683 | every switch to blocks that fit has a run to its end, on the new chain |
| `RefusedSwitch.FailedSwitchIsSafeIff` | crates/wow-core/src/chain.rs:571-683 | from a refused switch on, on every interleaving up to the next refused one, no conflict whenever no cleanup is due, if and only if no transaction is trapped: within the limit, clear below the split, not clear of the chain put back, and passing at a chain of the switch or one untouching block later |
| `RefusedSwitch.FailedSwitchHarms` | bin/wownerod/src/node.rs:299-324 | every trapped transaction has an interleaving that leaves it pooled and in conflict with nothing left to clean up |
| `RefusedSwitch.PoppedIsTrapped` | crates/wow-core/src/chain.rs:571-683 | a popped transaction is trapped when the rules pass it on the chain its block was mined on |
| `RefusedSwitch.EmptyBlocksTrapNothing` | crates/wow-core/src/chain.rs:571-683 | blocks without transactions trap nothing |
| `NodeRace.EmptyBlocksSpare` | crates/wow-core/src/chain.rs:571-683 | a refused switch over blocks without transactions meets the condition of the whole-run theorem, whatever the rules |
| `RefusedSwitch.RefusedSwitchLeavesMinedTxPooled` | bin/wownerod/src/node.rs:299-324 | for any transaction that passes on the genesis chain, the smallest run that leaves it both mined and pooled |
| `RefusedSwitch.LateAdmissionLands` | bin/wownerod/src/mempool.rs:528-537 | with a gate that passes nothing at any chain of the switch, an admission that read beside it lands one block later, and the conflict is still there with both locks free |
| `RefusedSwitch.AftermathIsClean` | bin/wownerod/src/node.rs:299-364 | with nothing trapped, every state after the refused switch in which no cleanup is due is free of conflicts |
| `PoolModel.NoSharedImage` | bin/wownerod/src/mempool.rs:270-282 | in a valid pool no two entries spend the same key image |
| `PoolModel.RemoveIsWithout` | bin/wownerod/src/mempool.rs:362-368 | removal takes out one entry, its images and its relay time; the saturating subtraction never saturates |
| `PoolModel.WithoutKeeps` | bin/wownerod/src/mempool.rs:362-390 | removing any set of entries keeps the whole representation invariant |
| `PoolModel.InsertKeeps` | bin/wownerod/src/mempool.rs:448-456 | inserting a checked transaction keeps the invariant |
| `PoolModel.AdmitsKeeps` | bin/wownerod/src/mempool.rs:539-583 | admission (expiry, insertion, eviction, or a restamp) keeps the invariant, invents no entry, changes no transaction and lowers no rank |
| `PoolModel.AddKeptKeeps` | bin/wownerod/src/mempool.rs:591-626 | taking a transaction back from a replaced block keeps the invariant |
| `PoolModel.SetRelayedKeeps` | bin/wownerod/src/mempool.rs:687-702 | marking ids relayed keeps the invariant |
| `PoolModel.EvictInOrderShape` | bin/wownerod/src/mempool.rs:396-416 | eviction removes the shortest prefix of its order whose removal makes the pool fit |
| `PoolModel.EvictionKeepsTheBest` | bin/wownerod/src/mempool.rs:396-416 | afterwards the pool fits, no survivor pays less per weight than an evicted entry (fees and weights multiplied crosswise), and the last evicted one would not fit back |
| `PoolModel.RateIff` | bin/wownerod/src/mempool.rs:890-896 | fee rates compare as fee times the other weight does, with nothing counted for no weight |
| `PoolFacts.RankIsTheOrder` | bin/wownerod/src/mempool.rs:193-202 | the relay methods are in one strict order: block over fluff over stem over forward over local over none |
| `PoolFacts.SeenAgain` | bin/wownerod/src/mempool.rs:543-557 | a stem copy of a held stem becomes fluff; otherwise the higher method wins; receive time, relayed and double-spend flag move exactly when the method does; nothing else of the pool changes |
| `PoolFacts.Newcomer` | bin/wownerod/src/mempool.rs:558-583 | a newcomer that stays is held as it came, and every other entry that stays is untouched and within its lifetime |
| `PoolFacts.StaleIff` | bin/wownerod/src/mempool.rs:372-390 | expiry takes exactly what is over a week old out of a replaced block, or over three days otherwise |
| `PoolFacts.VerdictIs` | bin/wownerod/src/mempool.rs:474-537 | exactly which transactions pass the checks and which refusal each failure gets, the first one counting, in the limits themselves |
| `PoolFacts.KeptIs` | bin/wownerod/src/mempool.rs:591-626 | exactly when a transaction comes back from a replaced block, and how it is held |
| `PoolFacts.SetRelayedIs` | bin/wownerod/src/mempool.rs:687-702 | marking gives each named entry the higher method, the mark and the time, and changes nothing else |
| `TxPoolObject.TxPool.constructor` | bin/wownerod/src/mempool.rs:291-299 | a new pool is empty and valid |
| `TxPoolObject.TxPool.SetMaxWeight` | bin/wownerod/src/mempool.rs:302-304 | only the limit changes |
| `TxPoolObject.TxPool.Remove` | bin/wownerod/src/mempool.rs:362-368 | the new pool is the old without that id; the entry held is returned |
| `TxPoolObject.TxPool.Expire` | bin/wownerod/src/mempool.rs:372-390 | exactly the stale entries go, and are counted |
| `TxPoolObject.TxPool.EvictToFit` | bin/wownerod/src/mempool.rs:396-416 | the loop computes the shortest-prefix eviction of some ascending fee-rate order, and returns how many went |
| `TxPoolObject.TxPool.CheckUnspent` | bin/wownerod/src/mempool.rs:419-445 | true exactly when every image is unspent on chain and free in the pool for this id |
| `TxPoolObject.TxPool.Insert` | bin/wownerod/src/mempool.rs:448-456 | images indexed, weight added, entry held, invariant kept |
| `TxPoolObject.TxPool.Check` | bin/wownerod/src/mempool.rs:474-537 | the first refusal in the order of the checks, or none |
| `TxPoolObject.TxPool.Add` | bin/wownerod/src/mempool.rs:474-583 | a refusal changes nothing and is the right one; otherwise the pool is the admission's and the way on is reported |
| `TxPoolObject.TxPool.AddKeptByBlock` | bin/wownerod/src/mempool.rs:591-626 | the pool and refusal of a transaction back from a block |
| `TxPoolObject.TxPool.RemoveMined` | bin/wownerod/src/mempool.rs:630-645 | exactly the mined ids and every other spender of their images go |
| `TxPoolObject.TxPool.RemoveConfirmed` | bin/wownerod/src/mempool.rs:648-664 | exactly the entries the chain has, or whose images it has spent, go |
| `TxPoolObject.TxPool.SetRelayed` | bin/wownerod/src/mempool.rs:687-702 | each held id is upgraded and stamped; those turned public are reported |
| `TxPoolObject.TxPool.Flush` | bin/wownerod/src/mempool.rs:752-762 | the named ids go, or everything when none is named |
| `TxPoolObject.OwnersAreMined` | bin/wownerod/src/mempool.rs:630-645 | removing ids, then owners read off the shrunken index, removes what the definition by images says |
| `PoolViews.OutsidersSeeOnlyThePublicPart` | bin/wownerod/src/mempool.rs:331-346 | valid pools that agree on public entries give the same ids, count, key-image answers, spent images and complements |
| `PoolViews.PrivateIsInvisible` | bin/wownerod/src/mempool.rs:331-346 | an entry kept from relay, local, forwarded or in its stem changes no unprivileged answer |
| `PoolViews.PublicIsVisible` | bin/wownerod/src/mempool.rs:331-346 | a fluffed or mined-once entry shows in all of them |
| `PoolViews.InsidersSeeAll` | bin/wownerod/src/mempool.rs:772-791 | a privileged caller sees every entry and image |
| `PoolViews.RankNeverFalls` | bin/wownerod/src/mempool.rs:193-256 | no pool operation lowers the relay rank of an entry that stays |
| `PoolViews.ReportedTurnPublic` | bin/wownerod/src/mempool.rs:687-702 | what `set_relayed` reports is exactly what was private and is public, each id once |
| `PoolViews.ReportedAtMostOnce` | bin/wownerod/src/mempool.rs:687-702 | over any history, an id that stays in the pool is reported newly public at most once |
| `RelayBackoff.UnsentStemIsNeverOffered` | bin/wownerod/src/mempool.rs:719-748 | a stem entry that was never sent is not offered |
| `RelayBackoff.OfferedIff` | bin/wownerod/src/mempool.rs:719-748 | exactly what is offered: never what is kept from relay or pays nothing or is past half its life; unsent unless in its stem; sent again once over the delay; each with its own method |
| `RelayBackoff.DelayTracksAge` | bin/wownerod/src/mempool.rs:885-888 | below the cap the delay lies in (age, age + 300] |
| `RelayBackoff.SendAgesDouble` | bin/wownerod/src/mempool.rs:719-748 | until the cap each answered offer finds the transaction more than twice as old as the last, whatever the relay layer sent in between |
| `RelayBackoff.SendsAreBounded` | bin/wownerod/src/mempool.rs:719-748 | a three-day transaction is offered and sent at most 14 times, a seven-day one at most 26, with any number of unoffered sends in between |
| `RelayBackoff.FourteenSendsHappen` | bin/wownerod/src/mempool.rs:719-748 | fourteen sends do happen, so the bound is exact |
| `PoolStore.MetaRoundTrip` | bin/wownerod/src/mempool.rs:869-880 | an entry's stored record restores the entry |
| `PoolStore.FlagsAre` | bin/wownerod/src/mempool.rs:869-880 | which of the five flags each relay method sets, and which method flags name |
| `PoolStore.Save` | bin/wownerod/src/mempool.rs:795-811 | whatever the table held, afterwards it holds exactly the pool |
| `PoolStore.Load` | bin/wownerod/src/mempool.rs:816-860 | the pool loaded by some walk of the table, valid |
| `PoolStore.LoadIsOrderFreeIff` | bin/wownerod/src/mempool.rs:816-860 | the loaded pool is the same for every walk if and only if no two records collide |
| `PoolStore.LoadAfterSave` | bin/wownerod/src/mempool.rs:795-860 | save then load gives back exactly the entries neither mined, nor spent on chain, nor expired, whatever the walk |
| `ChainLinks.MatchForcesBelow` | bin/wownerod/src/netsync.rs:516-537 | one matching id forces all lower ids to match |
| `HashCache.ResyncIsExact` | bin/wownerod/src/netsync.rs:516-537 | truncating, walking back to the first match and reading the rest gives the database's chain |
| `HashCache.CacheTracksChain` | bin/wownerod/src/netsync.rs:490-537 | after any appends, reorganisations, pops and refusals the cache equals the main chain |
| `HashCache.ChainAfterIs` | bin/wownerod/src/netsync.rs:490-512 | what a reorganisation and a pop leave of the chain; the first block never goes |
| `HashCache.UnlinkedCacheStaysStale` | bin/wownerod/src/netsync.rs:516-537 | without linked ids an early match would hide a stale entry |
| `HashCache.LocalChain.ResyncHashes` | bin/wownerod/src/netsync.rs:516-537 | the loop ends with the cache equal to the database, keeping the longest common part |
| `HashCache.LocalChain.Submit` | bin/wownerod/src/netsync.rs:490-512 | each verdict on a block leaves cache and database equal |
| `HashCache.LocalChain.PopBlocks` | bin/wownerod/src/node.rs:256-270 | pops at most down to genesis, and cache and database stay equal |
| `SyncHandshake.ShortHistory` | bin/wownerod/src/node.rs:647-669 | the loop lists ids at depths 0 to 10 and then at doubling gaps, ending at genesis |
| `SyncHandshake.HistoryIsShort` | bin/wownerod/src/node.rs:647-669 | the history's length is logarithmic in the height |
| `SyncHandshake.ChainReply` | bin/wownerod/src/node.rs:675-705 | a reply exactly when the history ends at this genesis; it starts at the first entry on this chain and lists up to 10 000 ids |
| `SyncHandshake.DepthGap` | bin/wownerod/src/node.rs:647-669 | the first listed depth at or past `d` overshoots by at most max(0, d - 10) |
| `SyncHandshake.HandshakeFindsTheFork` | bin/wownerod/src/node.rs:647-705 | the reply starts at a common block at most max(0, d - 10) below the fork and holds the first block past it when within the limit |
| `SyncHandshake.Handshake` | bin/wownerod/src/node.rs:647-705 | the same for the two methods run one after the other on any two forked chains |
| `WorkerQueue.EveryItemOnce` | bin/wownerod/src/netsync.rs:72-114 | over every interleaving of threads on the shared counter no index is claimed twice and all are done in the end |
| `Prehash.PrehashChangesNoAnswer` | bin/wownerod/src/netsync.rs:72-218 | over every run of overlapping batches, forgets and takes, at every version, `pow_hash` answers what direct hashing answers, and no index is claimed twice |
| `Prehash.NotReadyIs` | bin/wownerod/src/netsync.rs:72-76 | what is hashed is the work with no stored answer |
| `Prehash.ProofsAre` | bin/wownerod/src/netsync.rs:145-218 | which hash each version has |
| `Prevalidate.PassesLater` | bin/wownerod/src/mempool.rs:1035-1057 | a pass still holds on a longer chain, at a later height and clock, under a version no stricter |
| `Prevalidate.MembersOkIff` | bin/wownerod/src/mempool.rs:1035-1057 | exactly which ring members may be spent: unlocked by height or time, and from version 15 each four blocks old |
| `Prevalidate.ReadyAnswerIsRightIff` | bin/wownerod/src/netsync.rs:308-340 | a stored pass is right for all transactions and growth if and only if the asked version is no stricter about age |
| `Prevalidate.ReadyAnswersAgree` | bin/wownerod/src/netsync.rs:269-340 | over every run that takes nothing off the chain, a stored answer equals direct verification at the later height |
| `Prevalidate.PassCarriesIff` | bin/wownerod/src/mempool.rs:1035-1057 | a pass is right on another store, height, clock and version for every signature scheme if and only if every ring means the same members there and they may be spent |
| `Prevalidate.AnswerBelowTheSplitIsRightIff` | bin/wownerod/src/netsync.rs:269-340 | rings resolved one by one beside any pops and growth: over every run a stored pass whose rings lie below the deepest pop since the first was resolved is right exactly when its members may be spent by then |
| `Prevalidate.AnswerBelowTheSplitAgrees` | bin/wownerod/src/node.rs:719-744 | in particular at any height from where it was checked on, under a version no stricter |
| `Prevalidate.PopBelowARingMisleads` | crates/wow-core/src/chain.rs:571-683 | for every transaction that passes and every pop that takes a ring member of it off, a run ends with a stored yes that direct verification denies |
| `WideDivision.MulU128` | crates/wow-consensus/src/difficulty.rs:309-320 | the four-product multiply is the exact 256-bit product, without overflow |
| `WideDivision.AddU256` | crates/wow-consensus/src/difficulty.rs:322-325 | the carry is not lost |
| `WideDivision.DivU256ByU64` | crates/wow-consensus/src/difficulty.rs:328-341 | limb-wise division is the exact quotient; no shift or truncation loses a bit |
| `WideDivision.CeilDiv256` | crates/wow-consensus/src/difficulty.rs:295-306 | the ceiling of work * target / span when it fits 128 bits, else 0 |
| `WideDivision.CeilingIsLeast` | crates/wow-consensus/src/difficulty.rs:295-306 | that value is the least `c` with `c * span >= work * target` |
| `WideDivision.ZeroIff` | crates/wow-consensus/src/difficulty.rs:295-306 | 0 exactly where there is no work or no 128-bit number is large enough |
| `WindowDifficulty.CutRange` | crates/wow-consensus/src/difficulty.rs:225-232 | the cut indices are in bounds and leave two entries or more, for every length; equal cuts on a full window |
| `WindowDifficulty.ComputeWindow` | crates/wow-consensus/src/difficulty.rs:209-243 | machine arithmetic computes the sorted cut-window rule for every input |
| `WindowDifficulty.NextDifficultyV1` | crates/wow-consensus/src/difficulty.rs:198-244 | version 1 with its test-network and reset overrides |
| `WindowDifficulty.NextDifficultyV6` | crates/wow-consensus/src/difficulty.rs:251-288 | version 6 with its test-network override |
| `WindowDifficulty.FullWindowV1` | crates/wow-consensus/src/difficulty.rs:198-244 | on a full window in order: the work and time between the 61st and the 660th block |
| `WindowDifficulty.FullWindowV6` | crates/wow-consensus/src/difficulty.rs:251-288 | on a full window in order: between the 13th and the 132nd block |
| `WindowDifficulty.ShortWindow` | crates/wow-consensus/src/difficulty.rs:225-232 | with no more blocks than lie between the cuts nothing is cut |
| `WindowDifficulty.FixedDifficulties` | crates/wow-consensus/src/difficulty.rs:198-219 | what network and height fix, and what a chain too short to measure gets |
| `WindowDifficulty.OrderInsideWindowIsForgotten` | crates/wow-consensus/src/difficulty.rs:198-288 | permuting the timestamps kept changes nothing |
| `WindowDifficulty.LagIsIgnored` | crates/wow-consensus/src/difficulty.rs:208-214 | entries past the window do not matter |
| `WindowDifficulty.OrderIsForgotten` | crates/wow-consensus/src/difficulty.rs:198-288 | permuting the timestamps in its window changes neither version |
| `WindowDifficulty.LagIsForgotten` | crates/wow-consensus/src/difficulty.rs:198-288 | blocks past its window change neither version |
| `WindowDifficulty.SteadyV1AndV6` | crates/wow-consensus/src/difficulty.rs:198-288 | on a steady chain of difficulty `d` both rules return `d` outside the overrides |
| `Lwma.NextDifficultyV3` | crates/wow-consensus/src/difficulty.rs:434-478 | the loop computes the weighted-time rule in wrapping 64-bit arithmetic |
| `Lwma.SolveTime3Is` | crates/wow-consensus/src/difficulty.rs:451-455 | a solve time is a timestamp difference held in [-1200, 1800] |
| `Lwma.OneSolveTime3` | crates/wow-consensus/src/difficulty.rs:456-456 | solve time i counts i times in the weighted sum |
| `Lwma.LastThreeIs` | crates/wow-consensus/src/difficulty.rs:457-459 | the last three solve times come to the time since the fourth last block |
| `Lwma.Unclamped3Is` | crates/wow-consensus/src/difficulty.rs:465-466 | the step before clamping is the floor of its quotient |
| `Lwma.TruncDivIs` | crates/wow-consensus/src/difficulty.rs:466-466 | signed division rounds towards zero |
| `Lwma.Clamped3Is` | crates/wow-consensus/src/difficulty.rs:471-476 | inside [67%, 150%] the step is kept, outside it is the nearer end, and after three fast blocks at least 108% |
| `Lwma.V3Fixed` | crates/wow-consensus/src/difficulty.rs:443-449 | what version 3 gives before it measures anything |
| `Lwma.V3StaysInBandIff` | crates/wow-consensus/src/difficulty.rs:465-477 | the result is in [67%, 150%] of the last difficulty if and only if the weighted time is not zero or that difficulty is 1 or 2; three fast blocks give at least 108% |
| `Lwma.V3EqualTimesCollapse` | crates/wow-consensus/src/difficulty.rs:462-464 | equal timestamps bring any difficulty down to 1 |
| `Lwma.V3OnSteadyChain` | crates/wow-consensus/src/difficulty.rs:451-477 | a steady chain of difficulty `d` gets 99% of `d` |
| `Lwma.ZeroInsignificantDigits` | crates/wow-consensus/src/difficulty.rs:650-660 | the loop rounds at the first unit the number is over a hundred times |
| `Lwma.RoundingIsSlight` | crates/wow-consensus/src/difficulty.rs:650-660 | rounding moves a number by at most half a per cent |
| `Lwma.RoundsToUnit` | crates/wow-consensus/src/difficulty.rs:650-660 | over a thousand, the nearest multiple of the unit, halves up |
| `Lwma.SmallIsNotRounded` | crates/wow-consensus/src/difficulty.rs:650-660 | up to a thousand nothing is rounded |
| `Lwma.RoundingIsIdempotent` | crates/wow-consensus/src/difficulty.rs:650-660 | rounding a rounded number changes nothing |
| `Lwma.NextDifficultyV5` | crates/wow-consensus/src/difficulty.rs:569-634 | the loop with its monotonised timestamps, floor, overrides and three branches |
| `Lwma.MovedIs` | crates/wow-consensus/src/difficulty.rs:608-613 | a timestamp counts as it is when later than the one before, and as one second later otherwise |
| `Lwma.OneSolveTime5` | crates/wow-consensus/src/difficulty.rs:614-614 | solve time i counts i times |
| `Lwma.V5Fixed` | crates/wow-consensus/src/difficulty.rs:577-602 | the heights version 5 has written down, and what a chain too short to measure gets |
| `Lwma.V5OnSteadyChain` | crates/wow-consensus/src/difficulty.rs:604-633 | a steady chain of difficulty d gets 620 136 000 in 626 460 000 of d, rounded, in the order of operations its height calls for |
| `Lwma.V5StaysNearAverage` | crates/wow-consensus/src/difficulty.rs:604-633 | for every timestamp sequence, through all branches and rounding, the step is over a seventh of the average less one and at most 10.02 times it where the product fits |
| `Lwma.V5NeverFarAbove` | crates/wow-consensus/src/difficulty.rs:604-633 | at most 10.02 times the average at every height outside the overrides, wrapped product or not |
| `Lwma.V5InBandIff` | crates/wow-consensus/src/difficulty.rs:625-633 | in the band for every timestamp sequence if and only if the product fits 128 bits or the height is not 307 800 |
| `Emission.RewardNeverExceedsBase` | crates/wow-consensus/src/emission.rs:45-78 | for every median, weight and supply, wrapped or not, the reward is at most the base |
| `Emission.TwoDivisions` | crates/wow-consensus/src/emission.rs:75-77 | dividing twice by the median is dividing once by its square |
| `Emission.PenaltyIsExact` | crates/wow-consensus/src/emission.rs:60-77 | with a median of at most 2^32 the machine computes the exact penalty, and refuses exactly above twice the median |
| `Emission.PenaltyFalls` | crates/wow-consensus/src/emission.rs:60-77 | the reward does not rise with the weight and is 0 at twice the median |
| `Emission.PenaltyWrapsIff` | crates/wow-consensus/src/emission.rs:70-73 | no weight over the median wraps the 64-bit product if and only if the median is at most 2^32 |
| `Emission.AcceptedClaims` | crates/wow-consensus/src/emission.rs:141-176 | exactly which claims pass at each version, what each refusal is called, and that the claim less fees is recorded |
| `Emission.SubsidyIs` | crates/wow-consensus/src/emission.rs:54-58 | the subsidy is what is left over 2^20, rounded down |
| `Emission.FreeZone` | crates/wow-consensus/src/emission.rs:60-70 | the free zone by version, and that a block is refused exactly over twice both it and the median |
| `Emission.GenesisRecord` | crates/wow-consensus/src/genesis.rs:122-142 | each network's genesis block is accepted for what it claims |
| `Emission.SupplyIsConserved` | crates/wow-consensus/src/emission.rs:119-176 | over every accepted run the record equals coinbase payments less fees, only grows and stays within 2^64 - 2^20, so it never saturates |
| `Emission.SupplyFromGenesis` | crates/wow-consensus/src/genesis.rs:122-142 | the same for every accepted run from the genesis block |
| `Emission.FullClaimsAreAccepted` | crates/wow-consensus/src/emission.rs:141-176 | unpenalised full claims are accepted at every version and record the full subsidies |
| `Emission.RewardsFall` | crates/wow-consensus/src/emission.rs:54-58 | rewards never rise along a full-claim run |
| `Emission.FullClaimBetween` | crates/wow-consensus/src/emission.rs:54-58 | a full-claim run issues at most 2^44 a block and at least its last reward a block |
| `Emission.SubsidyRunsOut` | crates/wow-consensus/src/emission.rs:54-58 | from any record such a run reaches, and keeps, the limit that leaves 2^20 - 1 units unissued |
| `Emission.GetMid` | crates/wow-consensus/src/emission.rs:108-110 | the floor of the mean, without overflow |
| `Emission.MedianIsInTheMiddle` | crates/wow-consensus/src/emission.rs:90-104 | the median does not depend on order, has half the values on either side, and at even lengths is the floored mean of the middle two |
| `TemplateFill.ByFeeOrder` | bin/wownerod/src/mempool.rs:350-360 | each entry once, best fee per weight first (fees and weights multiplied crosswise), then oldest first |
| `TemplateFill.MinableIff` | bin/wownerod/src/template.rs:135-141 | public ones on every network; stem and local ones on a fake chain only |
| `TemplateFill.FillFrom` | bin/wownerod/src/template.rs:221-259 | the selection loop over any order computes the greedy choice |
| `TemplateFill.Fill` | bin/wownerod/src/template.rs:221-259 | the result is the greedy choice over the pool's entries in fee order, for some walk of the pool's map |
| `TemplateFill.SelectionIsSound` | bin/wownerod/src/template.rs:221-259 | the choice is minable, fits the limit, spends each image once and none on chain, totals correctly, and never lowers reward plus fees below the empty block's |
| `TemplateFill.SelectedFeesWithin` | bin/wownerod/src/template.rs:221-259 | no transaction is chosen twice: the fees taken are within the fees pooled |
| `TemplateFill.NothingFreeIsLeftOut` | bin/wownerod/src/template.rs:226-259 | a usable entry left out would not have fitted without a penalty |
| `TemplateBuild.TemplateLeavesNothingFree` | bin/wownerod/src/template.rs:217-259 | the same for the node's limit and median |
| `TemplateBuild.VarintLenIff` | crates/wow-serialize/src/varint.rs:20-27 | a varint takes at most `k` bytes exactly when its value is below 128^k |
| `TemplateBuild.CoinbaseFitsReserve` | bin/wownerod/src/template.rs:150-162 | a coinbase takes at most 361 bytes, under the 600 reserved |
| `TemplateBuild.GenesisCoinbaseSizes` | crates/wow-consensus/src/genesis.rs:22-24 | the genesis coinbases measure 79 and 80 bytes, as their blobs do |
| `TemplateBuild.NonceCosts` | bin/wownerod/src/template.rs:150-162 | a nonce costs its bytes, a tag and a one-byte length, and one more once the extra passes 127 bytes |
| `TemplateBuild.VersionsAddBytes` | bin/wownerod/src/template.rs:270-291 | from version 15 a signature byte, from version 20 a view tag |
| `TemplateBuild.Settle` | bin/wownerod/src/template.rs:293-331 | the weight loop computes its recursive specification |
| `TemplateBuild.SettledAgrees` | bin/wownerod/src/template.rs:296-328 | a settled coinbase weighs what it was rewarded for |
| `TemplateBuild.NeverOverWeight` | bin/wownerod/src/template.rs:296-298 | after any choice the fill makes, the over-weight error cannot occur |
| `TemplateBuild.SettlesInTwo` | bin/wownerod/src/template.rs:293-331 | below the penalty zone the second round settles |
| `TemplateBuild.SettlesIff` | bin/wownerod/src/template.rs:293-331 | the loop settles if and only if some weight measures as itself, and then within three rounds (any median below the penalty zone, medians up to 2^32 inside it) |
| `TemplateBuild.UnsettledWhereRewardDrops` | bin/wownerod/src/template.rs:293-331 | wherever the reward drops from one coinbase weight to the next, the fees that bring the coinbase to a power of 128 there keep any number of rounds from settling |
| `TemplateBuild.Build` | bin/wownerod/src/template.rs:169-331 | a built template's choice is sound; when the base reward and the fees of everything pooled fit 64 bits, and so whenever those fees are at most the coins issued, its coinbase passes `validate_miner_reward` exactly; the only late failure is not settling |
| `TemplateCases.TemplatesAreExactIff` | bin/wownerod/src/template.rs:221-331 | every template from every pool with fees of at most a bound is accepted exactly if and only if the base reward and the bound fit 64 bits |
| `TemplateCases.IssuedFeesAlwaysFit` | crates/wow-consensus/src/emission.rs:141-176 | with fees of at most the coins issued every template is accepted exactly |
| `TemplateCases.OverfullPoolIsRefused` | bin/wownerod/src/template.rs:298-299 | for every fee that does not fit beside the base reward, a pool whose template is built and then refused |
| `TemplateCases.UnsettledOnFullChains` | bin/wownerod/src/template.rs:293-331 | after every full-claim mainnet chain of 514 000 to 1 000 000 blocks, a pool with fees at most the coins issued on which the loop never settles |
| `TemplateCases.FullChainIsAccepted` | crates/wow-consensus/src/genesis.rs:122-142 | those chains are accepted from the genesis block on |
| `Amount.ParseAmount` | bin/wownero-wallet-cli/src/fmt.rs:68-119 | the method with its padding loop computes the parser's specification |
| `Amount.ParseUndoesPrint` | bin/wownero-wallet-cli/src/fmt.rs:22-119 | reading undoes printing for every 64-bit amount |
| `Amount.PrintShape` | bin/wownero-wallet-cli/src/fmt.rs:22-26 | one point, eleven digits behind it, no zero too many in front |
| `Amount.BlanksAroundAreIgnored` | bin/wownero-wallet-cli/src/fmt.rs:69-69 | blanks around a text change nothing |
| `Amount.SpacesAre` | bin/wownero-wallet-cli/src/fmt.rs:69-69 | which characters count as blank |
| `Amount.ReadExactly` | bin/wownero-wallet-cli/src/fmt.rs:68-119 | a well-formed text is accepted exactly when it has at most 11 places and its exact value fits, and then gives that value digit for digit |
| `Amount.OnlyAmountsAreRead` | bin/wownero-wallet-cli/src/fmt.rs:68-119 | nothing else is accepted |
| `Amount.Refusals` | bin/wownero-wallet-cli/src/fmt.rs:70-118 | what each refusal means, exactly |
| `Amount.DigitlessReadsAsZero` | bin/wownero-wallet-cli/src/fmt.rs:82-103 | an accepted text has no digit exactly when it is one point or nothing once stripped, and then reads as zero |
| `Amount.DigitlessIsRead` | bin/wownero-wallet-cli/src/fmt.rs:68-103 | every such text is accepted, as zero |
| `Amount.BarePointIsRead` | bin/wownero-wallet-cli/src/fmt.rs:68-103 | a lone point and a lone underscore read as zero |
| `Calendar.CivilIsRight` | bin/wownero-wallet-cli/src/fmt.rs:36-45 | the algorithm gives a valid Gregorian date whose day count, year by year and month by month, is its input |
| `Calendar.TimestampIsRight` | bin/wownero-wallet-cli/src/fmt.rs:30-51 | every second has a valid date and time whose own count from 1 January 1970 is that second |
| `Calendar.FieldsAreOrdered` | bin/wownero-wallet-cli/src/fmt.rs:30-51 | one second is before another exactly when its fields are |
| `Calendar.TextLayout` | bin/wownero-wallet-cli/src/fmt.rs:46-51 | where each field and separator stands in the text |
| `Calendar.TextIsInjective` | bin/wownero-wallet-cli/src/fmt.rs:30-51 | two texts are equal exactly when the seconds are, or both are before the first known one |

## Left out

- Ring signatures, range proofs, RandomWOW and CryptoNight: uninterpreted, since their libraries are cryptography.
- `next_difficulty_v2`: consensus floating point. `next_difficulty_v4`: its unguarded products mean little without input bounds, and it adds nothing to versions 3 and 5.
- The internals of the blockchain, the store, the hard-fork tables and fee rules: abstract steps and functions.
- The restore of a refused reorganisation is taken to succeed; where it fails the program reports a storage error and the chain stays short.
- A batch of incoming transactions is a succession of admissions, each check by check.
- The median's sort and the window's sort are taken on values: update of the slice in place is not captured.
- Fees quoted to wallets, announcements to listeners, the miner, RPC, the wallet's commands, the console and the scripts: dispatch and I/O.
- RefusedSwitch.FailedSwitchIsSafeIff: verification against the chain is one step of an admission, where the program resolves ring after ring; the fee rule is one for the whole run, where the program reads a snapshot per batch.
- Lwma.V3StaysInBandIff: for a last difficulty that is not negative as a signed number and whose 150% fits 63 bits.
- TemplateBuild.SettlesIff: inside the penalty zone, for effective medians up to 2^32 bytes; above that the product wraps (Emission.PenaltyWrapsIff) and a block would be over four gigabytes.
- TemplateBuild.Build: the keys of the address, the timestamp, the unlock time's block look-up and the reserved offset are not modelled.
- Amount.ParseAmount: error texts are reduced to their kinds.
- SyncHandshake.ChainReply: block weights, cumulative difficulty and the first block's blob are left out of the reply; they are read per block and decide nothing here.
- Prehash.PrehashChangesNoAnswer: a seed whose cache cannot be built is an error of the machine, and is left out.
