# A Dafny model of the node's hard state

The repository is a Dash-derived node written in C++. This project models the parts of it whose correctness
is a property of whole runs or of an equivalence between a fast form and a simple one, and proves those
properties. Each module follows one component:

| module | component | main result |
|---|---|---|
| `Coins` | the UTXO cache stack | any run on any stack of write-back caches is the same run on plain maps; what is added or spent and flushed is seen below |
| `AddrMan`, `AddrManCheck`, `AddrManUse` | the address manager, its self-check and its use | four redundant indexes stay consistent in every run; exactly when the check of them passes; whom an announcement can and cannot push out |
| `InstantSend`, `InstantSendLock` | transaction lock voting | two conflicting transactions are never both ready; locks are whole and permanent; enough votes in time, in any order, do lock |
| `CheckQueue` | the parallel check queue | `Wait` returns the conjunction of all checks, in every interleaving, and every schedule brings it to its end |
| `BlockTree`, `SkipSteps` | block index and active chain | skip links, chain updates, forks and locators agree with parent links; the exact worst case of the skip list |
| `Uint256`, `Multiplication`, `Division`, `Compact` | 256-bit arithmetic | limb loops compute the numbers they should; the compact encoding's exact error; block proof |
| `Base58` | Base58 text | both round trips; the buffer sizes suffice |
| `Bits`, `RollingBloom`, `BloomUse` | the rolling Bloom filter | exactly which keys are found, through all generation wraps; the last N always are |
| `CuckooCache`, `CuckooUse` | the signature cache | inserts are exactly a walk through the table that loses at most one element, and exactly when; the epoch bound |
| `DbTransaction`, `EvoDb` | the database overlay and its two-level use | the merged iterator visits the committed map in order; any run is the same run on plain maps |
| `CompactBlock`, `CompactRelay`, `CompactSend`, `IndexCoding` | compact block relay | exactly which messages are accepted, from any choice of transactions in full, and when the block is rebuilt; index coding |

`Foundations` and `Arith` hold shared vocabulary: options, sums over maps, powers, quotients and bitwise
operators on natural numbers.

Objects that the source updates in place are classes with `modifies` clauses; loops are loops; bucket tables,
limbs, digit buffers and flag words are arrays. The check queue is a transition system with one step per
critical section. Hash functions, random numbers, clocks, the mempool, the chain and the outcome of
signature checks are parameters. Integers are unbounded except where the source's width matters: limbs,
64-bit accumulators, 32-bit products, 16-bit indexes and offsets are explicit.

## Where the code differs from its comments or from what one expects

- `SpendCoin` (src/coins.cpp:99-113) reports success for a coin that is already spent when the cache still holds
  its spent entry: `Coins.SpendTwice`, with the exact condition in `Coins.CoinStack.SpendCoin`.
- `CAddrMan::Clear` (src/addrman.h:457-476) does not clear `mapInfo` and `mapAddr`; the result is consistent only
  if they were empty: `AddrMan.Manager.Clear`, and `AddrManCheck.AddThenClear` for the case that they were not.
- `Check_` (src/addrman.cpp:424) reads `mapAddr` at the raw address, with `operator[]`, while `Find`, `Create` and
  `Delete` use the normalised one. Where ports are not discriminated a consistent manager with two ported addresses
  fails it: `AddrManCheck.TwoPorts`, with the exact condition in `AddrManCheck.ValidPassesCheck`. The reads also leave
  raw addresses in `mapAddr`, which no search meets: `AddrManCheck.Check`.
- `x *= x` (src/arith_uint256.cpp:68-81) clears its factor and yields zero: `Multiplication.SquareInPlace`.
- The cuckoo cache's `45 * size` (src/cuckoocache.h:325) wraps around from 2^27 slots on: `CuckooCache.EpochSizeExact`.
  The first element displaced is the one in `locs[1]`, not `locs[0]` as the comment at src/cuckoocache.h:395-396 says,
  and an insert may move back the element it just put in: `CuckooCache.MovesBackRun`, with the exact condition in
  `CuckooCache.MovesBackIff`.
- The skip list needs at most the 110 steps promised for 2^18 blocks at src/chain.cpp:77-79, but its steps grow with
  the square of the number of bits of the height, not with the number of bits: `SkipSteps.PromisedSteps`,
  `SkipSteps.BoundIsReached` and `SkipSteps.NotLogarithmic`.
- A compact block with 65536 prefilled transactions and a short id never leaves the 16-bit offset loop
  (src/blockencodings.cpp:85-86): `CompactBlock.MapSlots`, `CompactBlock.WalledIff` and `CompactBlock.EndlessExample`. The
  model returns a status for it.
- Slot numbers of more than 16 bits are cut (src/blockencodings.cpp:82-87), so a block of more than 65536
  transactions that `InitData` accepts may be rebuilt wrongly: `CompactRelay.MisplacedExample`, with the exact
  condition in `CompactRelay.Relay`.
- The 16-bit offset of the index decoder (src/blockencodings.h:55-61) wraps at 65535 and lets lists through that are
  not increasing: `IndexCoding.WrappedExample`, with the exact condition in `IndexCoding.IncreasingIff`.

## Model

| member | source | states |
|---|---|---|
| `Coins.CoinStack.constructor` | src/coins.cpp:34-36 | a stack without caches reads as its database |
| `Coins.CoinStack.Push` | src/coins.cpp:36 | a new cache reads exactly as the view below it |
| `Coins.CoinStack.GetCoin` | src/coins.cpp:59-66 | the answer at any level is that of the plain map of the level, whatever is cached in between; higher levels are untouched |
| `Coins.CoinStack.FetchCoin` | src/coins.cpp:42-57 | the exact entry that is loaded (unflagged, equal to the coin below) or left alone, at this level and through all below |
| `Coins.CoinStack.AccessCoin` | src/coins.cpp:117-124 | the plain map's coin or the empty coin |
| `Coins.CoinStack.AddCoin` | src/coins.cpp:68-87 | the top plain map gains exactly this coin, or nothing if its script begins with 0x6a or is longer than 10000 bytes, and no map below changes; the exact entry with its DIRTY and FRESH flags; the "replaces non-pruned entry" exception is not reached under the caller's obligation; cachedCoinsUsage stays exact |
| `Coins.CoinStack.SpendCoin` | src/coins.cpp:99-113 | the top plain map loses the coin and no map below changes, the caller receives it, a FRESH entry is erased and any other cleared, and the boolean is true exactly when the view has the coin or the top cache has any entry for it |
| `Coins.CoinStack.TakeCoin` | src/coins.cpp:102-112 | the same for an entry that is in the cache |
| `Coins.SpendTwice` | src/coins.cpp:99-113 | a counterexample: spending a coin that came from below twice reports true both times |
| `Coins.CoinStack.UncacheCoin` | src/coins.cpp:209-216 | exactly an unflagged entry is dropped; no level reads differently |
| `Coins.CoinStack.WriteEntry` | src/coins.cpp:147-197 | one merge step: throws exactly on a misapplied FRESH flag, otherwise the parent entry is the merge of the two and the usage sum stays exact |
| `Coins.CoinStack.BatchWrite` | src/coins.cpp:146-200 | throws if and only if some entry's FRESH flag is misapplied; otherwise the result is the merge of all entries in any order, with exact memory usage |
| `Coins.CoinStack.DbBatchWrite` | src/txdb.cpp:77-100 | the database has every dirty entry written or erased and nothing else changed |
| `Coins.CoinStack.FlushTop` | src/coins.cpp:202-207 | the view below and the top both read as the top did, all levels further down as before, the cache below is the exact merge, the top cache is empty, and the FRESH exception is unreachable |
| `Coins.MergeShowsChild` | src/coins.cpp:146-200 | merging a truthful child into a truthful parent shows exactly what the child showed, with truthful flags again |
| `Coins.MergeOneShows` | src/coins.cpp:147-197 | the same for a single outpoint |
| `Coins.NeverMisapplied` | src/coins.cpp:168-173 | truthful flags never trip the "FRESH flag misapplied" check |
| `Coins.EmptyShowsBelow` | src/coins.cpp:202-207 | an emptied cache shows the view below |
| `Coins.LoadKeepsLayer` | src/coins.cpp:46-56 | loading an unspent coin from below keeps the layer invariant |
| `Coins.UncacheKeepsLayer` | src/coins.cpp:209-216 | so does dropping an unflagged entry |
| `Coins.SetKeepsLayer` | src/coins.cpp:75-87 | so does a dirty entry that is FRESH only where nothing is below |
| `Coins.EraseKeepsLayer` | src/coins.cpp:106-107 | so does erasing a FRESH entry on spending it |
| `Coins.ClearKeepsLayer` | src/coins.cpp:108-111 | so does clearing any other entry on spending it |
| `Coins.CoinStack.Perform` | src/coins.cpp:42-216 | any permitted operation acts on the stack of plain maps as specified, and what it reports is what the plain maps say |
| `Coins.CoinStack.Run` | src/coins.cpp:42-216 | every run of get, access, add, spend, uncache, flush, push and pop on any stack is observably the same run on plain maps |
| `Coins.AddIsSeen` | src/coins.cpp:68-207 | an added coin is read at the top, not below; after a flush it is read below even when its cache is gone, and other coins read as before |
| `Coins.SpendIsSeen` | src/coins.cpp:99-207 | a spent coin is handed out and read nowhere at the top; after a flush it is gone below too, and other coins read as before |
| `Coins.AddSpendLeavesNothing` | src/coins.cpp:75-112 | a coin that no level had, added and spent in one cache, leaves the cache as it was |
| `Coins.ShortLivedCoin` | src/coins.cpp:75-200 | added, flushed, spent and flushed again it leaves no entry in the cache below |
| `Coins.PopForgets` | src/coins.cpp:36-113 | without a flush, what a cache added and spent is forgotten with it, for every coin |
| `AddrMan.Manager.constructor` | src/addrman.h:478-482 | an empty, consistent manager |
| `AddrMan.Manager.Clear` | src/addrman.h:457-476 | resets tables and counters but neither map; the result is consistent if and only if both maps were empty |
| `AddrMan.ClearedTables` | src/addrman.h:457-476 | empty tables are consistent with empty maps and with no others |
| `AddrMan.Manager.Create` | src/addrman.cpp:86-101 | the entry created under the next id, with the invariant of an entry that awaits its slot |
| `AddrMan.Manager.SwapRandom` | src/addrman.cpp:103-121 | vRandom swapped at two places, positions following, and nothing else |
| `AddrMan.Manager.Delete` | src/addrman.cpp:123-140 | exactly one entry leaves all three indexes |
| `AddrMan.Manager.MoveLast` | src/addrman.cpp:135 | the entry is last in vRandom and the invariant holds in between |
| `AddrMan.MovedKeeps` | src/addrman.cpp:103-121 | reordering vRandom keeps every other part of the invariant |
| `AddrMan.RemovedKeeps` | src/addrman.cpp:136-139 | removing the last entry of vRandom, if it has no slot, keeps every part |
| `AddrMan.Manager.ClearNew` | src/addrman.cpp:142-155 | exactly one new slot is emptied; its entry has one reference less or is gone if that was the last; all others keep their data |
| `AddrMan.Manager.LeaveNew` | src/addrman.cpp:159-169 | exactly the cells that hold the entry are emptied and its reference count reaches 0, so the assertion holds |
| `AddrMan.Manager.DropTried` | src/addrman.cpp:176-185 | the occupant of a tried slot becomes untried |
| `AddrMan.Manager.EvictTried` | src/addrman.cpp:175-198 | the tried slot is free afterwards; its occupant is a new entry in exactly one slot, the one for its own source, the entry that was there lost one, and no other entry changed; the assertions hold |
| `AddrMan.Manager.TakeSlot` | src/addrman.cpp:193-196 | an entry gets one more correctly hashed slot and one more reference |
| `AddrMan.Manager.MakeTried` | src/addrman.cpp:157-203 | the entry ends in its own tried slot with no references, a previous occupant is a new entry again, the entry it displaced there lost one slot or is gone, every other entry is as it was, and every index stays consistent |
| `AddrMan.Manager.Touch` | src/addrman.cpp:223-228 | changing statistics leaves every index consistent |
| `AddrMan.Manager.FindBucket` | src/addrman.cpp:234-249 | the search for a new bucket always succeeds, from every random start |
| `AddrMan.Manager.Good` | src/addrman.cpp:205-255 | if the address matches port and all, the exact new entry in the tried table and what its promotion does to the others; otherwise nothing but nLastGood changes; the time stamps stay in order exactly with a time after 0 |
| `AddrMan.Manager.Promote` | src/addrman.cpp:234-254 | the "no bucket found" exit is unreachable and the promotion takes place |
| `AddrMan.PromotedTimes` | src/addrman.cpp:224-254 | a promotion keeps the time stamps of all entries in order if and only if its time is after 0 |
| `AddrMan.Manager.Place` | src/addrman.cpp:306-326 | when an entry gets another slot, when it is deleted for lack of one, its exact reference count, and that the occupant of the slot loses exactly one slot if the slot is taken and no other entry changes |
| `AddrMan.Manager.Refresh` | src/addrman.cpp:272-298 | the exact refreshed entry, and that another slot is tried for exactly when the entry is untried, newer, below 8 slots and the dice show a multiple of 2 to the number of slots |
| `AddrMan.Manager.AddKnown` | src/addrman.cpp:271-328 | the exact entry after a repeated announcement, and exactly which entry loses a slot to it |
| `AddrMan.Manager.AddUnknown` | src/addrman.cpp:299-328 | the address is known afterwards if and only if its slot was open, with exactly the announced data and one reference, and exactly which entry loses a slot to it |
| `AddrMan.Manager.Add` | src/addrman.cpp:257-328 | the return value, when the address is known afterwards, under which id and with which data, and of the other entries exactly the one whose slot it takes loses a slot |
| `AddrMan.Manager.Attempt` | src/addrman.cpp:330-350 | exactly one entry's attempt statistics change, only on an exact address match; the time stamps stay in order exactly without a negative time |
| `AddrMan.Manager.Connected` | src/addrman.cpp:498-516 | exactly one entry's time moves forward after more than 20 minutes |
| `AddrMan.Manager.SetServices` | src/addrman.cpp:518-534 | exactly one entry's services are replaced |
| `AddrMan.Manager.GetAddr` | src/addrman.cpp:477-496 | distinct entries, none terrible, at most 23% and 2500; fewer than the limit only if every good entry is in; exactly the fit ones among the entries drawn by the random numbers, in their order; `AddrManUse.Sample` gives the number exactly |
| `AddrMan.Manager.Pick` | src/addrman.cpp:483-495 | the loop picks distinct good entries, and ends before its limit only after all entries |
| `AddrMan.Manager.Run` | src/addrman.cpp:86-534 | every run of the six operations keeps the index invariant, and the order of the time stamps if successes have times after 0 and attempts no negative ones |
| `AddrManUse.TerribleIff` | src/addrman.cpp:33-51 | nothing tried in the last 60 seconds is given up; anything else exactly if its time is 0, over 2592000 seconds old or over 600 ahead, or after 3 attempts without any success, or 10 with none in 604800 seconds |
| `AddrManUse.FindIff` | src/addrman.cpp:68-84 | an address finds the entry with the same host and port, or with the same host where ports are not told apart, and no other |
| `AddrManUse.FirstAnnouncement` | src/addrman.cpp:257-328 | a new address is stored, in its own slot, unless that is held by a fit entry without another slot; its time is the announced one, less the penalty unless the host announces itself, and at least 0; only the holder of the slot can lose one, and exactly if it is taken |
| `AddrManUse.RepeatedAnnouncement` | src/addrman.cpp:257-328 | the exact new time and services of a known address, and that it gets the slot exactly if it is untried, newer, below 8 slots, the dice show a multiple of 2^n and the slot is free or held by an unfit entry, which then loses it |
| `AddrManUse.AttemptProtects` | src/addrman.cpp:33-36 | in the 60 seconds after an attempt no number of announcements removes the entry |
| `AddrManUse.AnnounceNear` | src/addrman.cpp:306-326 | the same for one announcement |
| `AddrManUse.FailureGivesWay` | src/addrman.cpp:44-45 | a third counted failure without a success lets the next address announced for the entry's only slot replace it, from 61 seconds later on |
| `AddrManUse.GoodIsFit` | src/addrman.cpp:205-255 | after a success the entry is in its own tried slot and fit at any time within 30 days of its time stamp; the entry that was in that slot is in the new slot for its own source |
| `AddrManUse.Sample` | src/addrman.cpp:477-496 | the answer to getaddr has exactly min(23% of all entries, 2500, fit entries) addresses, of different fit entries |
| `AddrManUse.TriedIsSampled` | src/addrman.cpp:477-496 | an entry tried just now is in the answer unless that is full, and with five entries the answer is never empty |
| `AddrManUse.AnyCanBeFirst` | src/addrman.cpp:483-495 | every fit entry comes first in the answer for the random numbers that name its place in vRandom first |
| `AddrManUse.DrawnSame` | src/addrman.cpp:483-490 | the draws only change the order of vRandom |
| `AddrManUse.DrawnPrefix` | src/addrman.cpp:483-490 | and never touch a place filled before |
| `AddrManCheck.Check` | src/addrman.cpp:400-474 | on any manager the check returns 0 if and only if the key is set and every entry and both tables pass; on a consistent one with a key only tests of single entries can fail, the code is that of the first entry that does, and no search notices the keys left in mapAddr |
| `AddrManCheck.ValidPassesCheck` | src/addrman.cpp:400-474 | a consistent manager passes if and only if the time stamps are in order and every id but 0 has its raw address as its key |
| `AddrManCheck.CheckIff` | src/addrman.cpp:400-474 | on any manager, consistent or not, the check passes if and only if vRandom, both tables and both counters agree with mapInfo, the time stamps are in order and mapAddr read at each entry's address gives its id |
| `AddrManCheck.PositionsFill` | src/addrman.cpp:426-427 | positions that lead back to their ids, as many as there are, make vRandom a list of all ids |
| `AddrManCheck.ValidEntry` | src/addrman.cpp:408-432 | in a consistent manager the tests with results -2, -3, -4 and -14 never fail, and exactly when the others do |
| `AddrManCheck.RawReadOfEntry` | src/addrman.cpp:424 | the raw read gives the id if and only if the id is 0, ports are discriminated or the port is 0 |
| `AddrManCheck.RawKeysAreNotFound` | src/addrman.cpp:424 | the keys that raw reads insert are found by no search |
| `AddrManCheck.CheckEntries` | src/addrman.cpp:408-432 | the loop returns the code of the first entry that does not pass, or collects the tried ids and the slots of the others |
| `AddrManCheck.TestEntry` | src/addrman.cpp:409-431 | one entry's code does not depend on the keys left by earlier ones, and its own raw address is left exactly if it was read |
| `AddrManCheck.CheckTried` | src/addrman.cpp:439-451 | the scan succeeds if and only if every tried cell is right, and leaves the tried ids in no cell |
| `AddrManCheck.CheckNew` | src/addrman.cpp:453-464 | the scan succeeds if and only if every new cell is right and no id has too many, and leaves what each id lacks |
| `AddrManCheck.UnseenOrOnce` | src/addrman.cpp:439-467 | no tried id is left over if and only if each is in exactly one cell |
| `AddrManCheck.TwoPorts` | src/addrman.cpp:424 | a counterexample: two addresses with a port make the check return -5 on a consistent manager |
| `AddrManCheck.AddThenClear` | src/addrman.h:457-476 | a counterexample: after any routable address was added, Clear leaves an inconsistent manager |
| `AddrManCheck.NewOccursPerSlot` | src/addrman.cpp:453-469 | an untried id occupies exactly as many cells as it has references |
| `AddrManCheck.TriedOccursOnce` | src/addrman.cpp:439-467 | a tried id occupies exactly one cell |
| `AddrMan.SlotCleared` | src/addrman.cpp:146-151 | emptying a slot takes one reference from its id and from no other |
| `AddrMan.SlotFilled` | src/addrman.cpp:193-196 | filling one gives its id one reference and no other |
| `AddrMan.TriedCleared` | src/addrman.cpp:182-185 | leaving a tried slot keeps the tables consistent |
| `AddrMan.TriedFilled` | src/addrman.cpp:200-202 | so does taking one's own tried slot |
| `InstantSend.EnoughVotesBlockOthers` | src/instantx.cpp:1196-1199 | with a majority requirement, enough votes for one candidate on an outpoint keep every other one from being ready there |
| `InstantSend.DisjointMajorities` | src/instantx.cpp:1196-1199 | two disjoint ready vote sets fit into a quorum if and only if twice the requirement does |
| `InstantSend.Node.constructor` | src/instantx.h:57-69 | an empty node satisfies the voting invariant |
| `InstantSend.Node.NoTwoReady` | src/instantx.cpp:322-481 | in every reachable state two different candidates are never both ready on a shared outpoint |
| `InstantSend.Node.AllOrNothing` | src/instantx.cpp:547-561 | whoever owns one lock has the votes for it and owns the locks on all inputs of its transaction |
| `InstantSend.ReadyMeetsNoLock` | src/instantx.cpp:584-617 | a ready candidate finds no input locked to another |
| `InstantSend.Node.UpdateVotedOutpoints` | src/instantx.cpp:445-481 | exactly the candidates this vote doubles are marked as attacked, and the vote is recorded |
| `InstantSend.Node.CastVote` | src/instantx.cpp:387-392 | the exact effect of one vote on every candidate, and when it is refused |
| `InstantSend.Node.ProcessNewTxLockVote` | src/instantx.cpp:322-402 | the exact outcome for an invalid, orphan, late or countable vote, including the rate test for orphan votes, and that locks change only by finalising its candidate |
| `InstantSend.Node.AverageOrphanVoteTime` | src/instantx.cpp:648-660 | the average of the times kept per masternode |
| `InstantSend.Node.ProcessOrphanTxLockVotes` | src/instantx.cpp:404-496 | in whatever order, exactly the countable orphan votes are counted and leave the orphan set; a candidate is marked as attacked only if a masternode with a vote on it has one for another transaction |
| `InstantSend.Node.OutPointLocks` | src/instantx.cpp:168-186 | fresh locks on exactly the inputs |
| `InstantSend.Node.CreateTxLockCandidate` | src/instantx.cpp:156-192 | the exact candidate map after a request, and when it is refused |
| `InstantSend.Node.ProcessTxLockRequest` | src/instantx.cpp:98-154 | a request leads to its candidate, the orphan votes counted, no attack mark without a reason, and its locks if nothing speaks against them; a refused one changes at most its candidate |
| `InstantSend.Node.TryToFinalizeLockCandidate` | src/instantx.cpp:498-514 | all inputs are locked to a lockable candidate, otherwise no lock changes; `InstantSendLock.LastVoteLocks` says by counting votes when that is |
| `InstantSend.Node.ResolveConflicts` | src/instantx.cpp:572-646 | true exactly for a ready candidate that the mempool and the chain do not contradict; the "dropping both" branch is unreachable |
| `InstantSend.Node.LockTransactionInputs` | src/instantx.cpp:547-561 | every input of a ready candidate is mapped to it and no other lock changes |
| `InstantSend.Node.VoteOn` | src/instantx.cpp:203-223 | on a node that is not a masternode, a known candidate is finalised if it is lockable and nothing else changes |
| `InstantSend.Node.Run` | src/instantx.cpp:98-660 | every run of votes, requests, calls of Vote and removals of orphans keeps the invariant and every lock ever made |
| `InstantSend.AddVoteKeepsVoting` | src/instantx.cpp:1224-1229 | a new vote keeps the voting invariant, double votes included |
| `InstantSend.LockKeepsVoting` | src/instantx.cpp:547-561 | so does locking a ready candidate |
| `InstantSendLock.LastVoteLocks` | src/instantx.cpp:322-402 | a valid vote within 15 seconds that brings every unattacked input to the required number of votes, by a masternode that voted for nothing else there, locks every input if nothing opposes the transaction |
| `InstantSendLock.VoteOutcome` | src/instantx.cpp:322-402 | a timely vote for a known request locks all inputs exactly if it is counted, every input then has enough votes and none is attacked, InstantSend is on, no other mempool transaction spends one, and the transaction is mined or all are unspent; no other lock ever changes |
| `InstantSendLock.LateVote` | src/instantx.cpp:380-383 | a vote more than 15 seconds after the candidate was made changes nothing |
| `InstantSendLock.LateRequest` | src/instantx.cpp:174-180 | a request more than 15 seconds after the first vote for it is refused, remembered and gets no locks |
| `InstantSendLock.OrphanRate` | src/instantx.cpp:356-375 | a masternode not remembered for an orphan vote is heard and remembered for 600 seconds; one remembered longest is refused exactly if others are remembered too |
| `InstantSendLock.LongestIsTooFast` | src/instantx.cpp:648-660 | the largest time is above the average unless it is the only one |
| `InstantSendLock.LocksInTime` | src/instantx.cpp:98-514 | if a request and, for each input, votes by enough masternodes that vote for nothing else there come within 15 seconds, in any order, as orphans or not and among any other messages, all inputs end up locked |
| `InstantSendLock.VoteStep` | src/instantx.cpp:322-402 | every vote message keeps this up: votes seen are counted, or wait while the request is missing, no input of the transaction is attacked, and a full count has led to the locks |
| `InstantSendLock.RequestStep` | src/instantx.cpp:98-154 | so does every request message |
| `InstantSendLock.RequestArrives` | src/instantx.cpp:404-496 | the request turns all votes that waited for it into counted ones |
| `InstantSendLock.RequestElsewhere` | src/instantx.cpp:404-496 | the request of another transaction leaves count and locks as they were |
| `InstantSendLock.NotContested` | src/instantx.cpp:445-481 | without a masternode that votes twice there is no reason for an attack mark |
| `CheckQueue.ExecuteIsConjunction` | src/checkqueue.h:121-125 | a batch that skips checks after a failure still yields the conjunction |
| `CheckQueue.StepKeepsInv` | src/checkqueue.h:69-161 | every critical section keeps nTodo equal to queued plus unreported checks, keeps nIdle and nTotal exact, and a returning Wait returns the conjunction owed |
| `CheckQueue.LoopTopKeepsInv` | src/checkqueue.h:90-120 | the same for the common end of the critical section |
| `CheckQueue.AddKeepsInv` | src/checkqueue.h:149-161 | the same for Add with either kind of notification |
| `CheckQueue.FinishKeepsInv` | src/checkqueue.h:80-85 | the same for reporting a batch |
| `CheckQueue.InitInv` | src/checkqueue.h:134 | a new queue satisfies the invariant |
| `CheckQueue.RunInv` | src/checkqueue.h:69-161 | the invariant in every state of every interleaving, with what Wait owes at that point |
| `CheckQueue.WaitReturnsConjunction` | src/checkqueue.h:69-161 | in every interleaving, with any number of workers and spurious wake-ups, Wait returns exactly the conjunction of all checks added since the previous Wait |
| `CheckQueue.SleepingMasterIsNotForgotten` | src/checkqueue.h:80-104 | a sleeping master has an empty queue and a worker with an unreported batch, and the report that brings nTodo to 0 wakes it |
| `CheckQueue.WaitCanEnd` | src/checkqueue.h:69-127 | from every reachable state in which the master waits, steps without an Add lead to its return |
| `CheckQueue.RankDrops` | src/checkqueue.h:69-127 | every step but an Add, a spurious wake-up or a return lowers the rank of two per undone check and one per thread that is to go on |
| `CheckQueue.WaitMustEnd` | src/checkqueue.h:69-127 | in every schedule without an Add the steps before the return of Wait are bounded by the rank and the spurious wake-ups, and until then another step is always possible |
| `BlockTree.InvertLowestOneClears` | src/chain.cpp:69-70 | n & (n - 1) clears the lowest one bit and no other |
| `BlockTree.GetSkipHeight` | src/chain.cpp:72-81 | strictly below every height of at least 1 |
| `BlockTree.BlockIndex.GetAncestor` | src/chain.cpp:83-107 | the block that walking parent links gives, for every height; with all skip pointers in place the loop takes exactly Steps many steps |
| `BlockTree.BlockIndex.BuildSkip` | src/chain.cpp:114-118 | the link goes to the ancestor at the skip height, and all skip pointers are in place if they were for the parent |
| `SkipSteps.StepsBound` | src/chain.cpp:72-107 | from any height below 2^k, k at least 9, to any other the search takes at most k * k / 4 + 2 * k - 7 steps |
| `SkipSteps.PromisedSteps` | src/chain.cpp:77-79 | at most 110 steps below height 2^18 |
| `SkipSteps.BoundIsReached` | src/chain.cpp:72-107 | from height 2^k - 8 to height 2 it takes exactly that many steps, for every k from 4 on |
| `SkipSteps.NotLogarithmic` | src/chain.cpp:72-107 | no multiple of the number of bits of the height bounds the steps |
| `SkipSteps.InBlock` | src/chain.cpp:72-107 | the same bound between any two heights of one aligned block of 2^k |
| `SkipSteps.TopOfBlock` | src/chain.cpp:72-107 | the steps from the last height of an aligned block of 2^d down to any height in it |
| `SkipSteps.AboveBound` | src/chain.cpp:90-105 | the steps down to an odd multiple of a power of two are bounded by the one bits above it |
| `SkipSteps.AboveExact` | src/chain.cpp:90-105 | and exactly given by them from odd heights and multiples of eight, where no skip reaches the target early |
| `SkipSteps.FindAncestor` | src/chain.cpp:83-107 | the search on a chain with all skip pointers returns the ancestor within the bound |
| `BlockTree.WalkIsPath` | src/chain.cpp:100-106 | following parent links is walking the path from genesis backwards |
| `BlockTree.Chain.SetTip` | src/chain.cpp:11-21 | after any earlier tips the vector is the whole path of the new tip, although the loop stops early; Tip and Height are the new tip's |
| `BlockTree.SamePrefix` | src/chain.cpp:16-20 | where two paths agree at a height they agree below it, which justifies stopping early |
| `BlockTree.Chain.FindFork` | src/chain.cpp:51-60 | the highest block that is both in the chain and on the argument's path, or null if there is none |
| `BlockTree.Chain.GetLocator` | src/chain.cpp:23-49 | the hashes of exactly the ancestors at depths 0, 1, ..., 11 and then 9 + 2^k below the argument, or below the tip if there is none, and genesis last |
| `BlockTree.Chain.LookUp` | src/chain.cpp:37-43 | both ways of finding the next block give the same ancestor |
| `BlockTree.Chain.ContainsIff` | src/chain.cpp:16-20 | the chain contains exactly the blocks on the path of its tip |
| `BlockTree.LocatorShape` | src/chain.cpp:23-49 | strictly descending ancestors from the start to genesis, at most 12 + log2(height + 1) of them; eleven steps of one, then each twice the one before, the last cut off at genesis |
| `Uint256.AddTo` | src/arith_uint256.h:135-145 | addition modulo 2^256 by limbs and carries |
| `Uint256.Complement` | src/arith_uint256.h:69-75 | 2^256 - 1 minus the number |
| `Uint256.Increment` | src/arith_uint256.h:173-180 | plus one modulo 2^256 |
| `Uint256.Negate` | src/arith_uint256.h:77-86 | 2^256 minus the number, modulo 2^256 |
| `Uint256.SubFrom` | src/arith_uint256.h:147-151 | subtraction modulo 2^256, exact when it does not go below zero |
| `Uint256.CompareTo` | src/arith_uint256.cpp:110-119 | the order of the numbers |
| `Uint256.Bits` | src/arith_uint256.cpp:172-184 | the bit length of the number |
| `Uint256.ShiftLeft` | src/arith_uint256.cpp:22-36 | multiplication by 2^shift modulo 2^256, for every shift |
| `Uint256.ShiftRight` | src/arith_uint256.cpp:39-53 | division by 2^shift, for every shift |
| `Multiplication.Multiply` | src/arith_uint256.cpp:68-81 | the product modulo 2^256 for a separate factor; zero when the factor is the number itself |
| `Multiplication.MultiplyRow` | src/arith_uint256.cpp:73-79 | one row adds limb * 2^(32j) * factor up to multiples of 2^256 |
| `Multiplication.Accumulate` | src/arith_uint256.cpp:76 | every partial sum fits in 64 bits |
| `Multiplication.SquareInPlace` | src/arith_uint256.cpp:68-81 | x *= x is right if and only if the low 128 bits of x are zero |
| `Multiplication.SquareVanishes` | src/arith_uint256.cpp:68-81 | a square is a multiple of 4^n exactly when the number is a multiple of 2^n |
| `Division.SetBit` | src/arith_uint256.cpp:99 | setting a clear bit adds its power of two |
| `Division.DivideStep` | src/arith_uint256.cpp:96-103 | one step keeps numerator = remainder + quotient * divisor and the bound on the remainder |
| `Division.Loop` | src/arith_uint256.cpp:96-104 | the loop ends with quotient and remainder |
| `Division.Divide` | src/arith_uint256.cpp:84-107 | the exact quotient for every pair of numbers; an exception, and zero, exactly for a zero divisor |
| `Compact.EqualTo` | src/arith_uint256.cpp:122-133 | equality with a 64-bit number |
| `Compact.GetLow64` | src/arith_uint256.h:245-249 | the number modulo 2^64 |
| `Compact.Assign` | src/arith_uint256.h:88-95 | the number assigned |
| `Compact.SetCompact` | src/arith_uint256.cpp:204-222 | the decoded magnitude modulo 2^256, negative exactly for a signed nonzero one, overflow exactly from 2^256 on |
| `Compact.DecodeWord` | src/arith_uint256.cpp:204-222 | a byte e, a sign and 23 bits m stand for m * 256^(e - 3) rounded down, modulo 2^256, with the flags of that number |
| `Compact.OverflowIff` | src/arith_uint256.cpp:217-220 | the flag's three comparisons against the magnitude itself |
| `Compact.GetCompact` | src/arith_uint256.cpp:224-245 | the specified encoding and sign; both assertions hold |
| `Compact.Normalise` | src/arith_uint256.cpp:226-238 | the shifts and the sign-bit correction compute exponent and mantissa of twice the number |
| `Compact.RoundTripError` | src/arith_uint256.cpp:204-245 | decoding an encoding gives r <= x with (x - r) * 2^15 < x and no sign |
| `Compact.CompactMonotone` | src/arith_uint256.cpp:224-245 | larger numbers have no smaller encodings |
| `Compact.BestBelow` | src/arith_uint256.cpp:204-245 | no word stands for a number between x and the one that x is rounded to |
| `Compact.CompactIdempotent` | src/arith_uint256.cpp:204-245 | another round trip changes nothing |
| `Compact.CanonicalRoundTrip` | src/arith_uint256.cpp:204-245 | encoding undoes decoding exactly on the canonical words |
| `Compact.RoundTrip` | src/arith_uint256.cpp:204-245 | the two methods in sequence: no flags, the error bound, and the same word again |
| `Compact.GetBlockProof` | src/chain.cpp:120-133 | floor(2^256 / (target + 1)) for every accepted nBits, zero for the others, no division by zero and no wrap-around |
| `Compact.TargetBelowTop` | src/chain.cpp:126-132 | target + 1 never wraps |
| `Compact.ProofFormula` | src/chain.cpp:128-132 | the formula of the comment, for all targets |
| `Compact.WorkOrder` | src/chain.cpp:120-133 | a harder accepted target never counts less |
| `Compact.AcceptedTargetsAddWork` | src/chain.cpp:120-133 | the work is positive exactly for accepted targets |
| `Base58.MulAdd` | src/base58.cpp:42-51 | the buffer becomes buffer * mul + digit and the carry is zero at the end |
| `Base58.EncodeFits` | src/base58.cpp:80-82 | n * 138 / 100 + 1 base-58 digits hold every n bytes |
| `Base58.DecodeFits` | src/base58.cpp:33-35 | n * 733 / 1000 + 1 bytes hold every n base-58 digits |
| `Base58.FirstDigit` | src/base58.cpp:59-62 | skipping leading zeros leaves the digits of the number |
| `Base58.EncodeBase58` | src/base58.cpp:71-109 | the specified text: a 1 for each leading zero byte, then the number in base 58 |
| `Base58.Translate` | src/base58.cpp:102-108 | the characters of the digits |
| `Base58.IndexOf` | src/base58.cpp:38-41 | the place of a character in the alphabet, or none |
| `Base58.DecodeDigits` | src/base58.cpp:33-53 | the number up to white space or the end, or the first bad character |
| `Base58.DecodeBase58` | src/base58.cpp:21-69 | accepts exactly Base58 characters surrounded by white space, with the specified bytes |
| `Base58.ConvertBack` | src/base58.cpp:21-109 | changing the base and changing it back gives the same digits, leading zeros included |
| `Base58.DecodeUndoesEncode` | src/base58.cpp:21-109 | decoding an encoding gives the bytes, for all byte strings |
| `Base58.EncodeUndoesDecode` | src/base58.cpp:21-109 | encoding a decoded text gives it back without the white space around it, for all accepted texts |
| `Base58.RoundTrip` | src/base58.cpp:21-109 | the two methods in sequence give every byte string back |
| `Base58.TextRoundTrip` | src/base58.cpp:21-109 | and in the other order every accepted text, without the white space around it |
| `Base58.AlphabetIs` | src/base58.cpp:18-19 | the digits are the alphanumeric characters except 0, I, O and l, in the order of their codes |
| `Base58.StripIs` | src/base58.cpp:24-25 | what is skipped on both sides is space, tab, line feed, vertical tab, form feed and carriage return, as far as they go, and nothing else |
| `Base58.KnownTexts` | src/test/data/base58_encode_decode.json:4-5 | two of the known texts, one of them with white space around it |
| `RollingBloom.WipeCell` | src/bloom.cpp:350-357 | the masks empty exactly the cells of one generation |
| `RollingBloom.StoredCell` | src/bloom.cpp:367-369 | the two assignments change exactly one cell |
| `RollingBloom.FastMod` | src/bloom.cpp:335-340 | the result is below n |
| `RollingBloom.FastModSpread` | src/bloom.cpp:335-340 | the 32-bit values with the same result form an interval, and the intervals of all results differ in length by at most one |
| `RollingBloom.Wipe` | src/bloom.cpp:350-358 | the loop empties exactly the cells of one generation, within bounds |
| `RollingBloom.Write` | src/bloom.cpp:367-369 | exactly one cell takes the generation |
| `RollingBloom.Filter.constructor` | src/bloom.cpp:302-327 | an empty filter whose two generations hold at least nElements keys; usable if and only if nElements and the number of words are not 0 |
| `RollingBloom.Filter.Reset` | src/bloom.cpp:399-407 | every cell and the history are empty |
| `RollingBloom.Filter.Advance` | src/bloom.cpp:344-359 | after the wipe each cell still shows the generation that last wrote it, if it is one of the last three |
| `RollingBloom.Filter.SetCells` | src/bloom.cpp:362-370 | exactly the key's positions take the current generation |
| `RollingBloom.Filter.Insert` | src/bloom.cpp:342-371 | the key joins the history and every cell stays right, through any number of generation changes |
| `RollingBloom.Filter.Contains` | src/bloom.cpp:379-391 | true exactly when every position of the key was written by one of the last 2E + current inserts; so every key among them is found |
| `RollingBloom.WipeShown` | src/bloom.cpp:344-359 | wiping the reused generation number removes exactly what is three generations old |
| `RollingBloom.ShownIff` | src/bloom.cpp:342-391 | a cell is set exactly if an insert of the window wrote it |
| `BloomUse.Remembers` | src/bloom.cpp:342-391 | a filter for N keys finds each of the last N inserted, whatever came before; any key is found exactly if under each hash function its cell, by h % 64 and h * words / 2^32 / 2, is that of one of the last n, N <= n <= 3 * ((N + 1) / 2) |
| `BloomUse.CoveredIff` | src/bloom.cpp:379-391 | the cell under one hash function is set exactly if it is the cell of a key in the window under some hash function |
| `CuckooCache.Flags.constructor` | src/cuckoocache.h:61-68 | room for size flags, all set |
| `CuckooCache.Flags.BitSet` | src/cuckoocache.h:92-95 | sets one flag and no other |
| `CuckooCache.Flags.BitUnset` | src/cuckoocache.h:103-106 | clears one flag and no other |
| `CuckooCache.Flags.BitIsSet` | src/cuckoocache.h:113-116 | reads the flag |
| `CuckooCache.Cache.constructor` | src/cuckoocache.h:315-329 | an empty cache of a power of two slots |
| `CuckooCache.EpochSizeExact` | src/cuckoocache.h:324-325 | the epoch size is 45% of the table if and only if it has at most 2^26 slots |
| `CuckooCache.Cache.ComputeHashes` | src/cuckoocache.h:218-228 | the eight hashes, each modulo the size of the table |
| `CuckooCache.Cache.CountLive` | src/cuckoocache.h:270-275 | the number of kept elements of the current epoch |
| `CuckooCache.Cache.EpochCheck` | src/cuckoocache.h:264-296 | ages exactly when the counter is used up and the epoch full: then exactly the kept elements of the current epoch stay kept, as old ones, and otherwise no slot changes; afterwards one more current element fits the bound |
| `CuckooCache.Cache.Displace` | src/cuckoocache.h:382-415 | the displacement loop is exactly the walk: table, epochs and dropped element; it loses at most the element in hand at its end and adds at most one current element |
| `CuckooCache.LostIff` | src/cuckoocache.h:382-415 | an element is dropped if and only if none of the elements in hand through all swaps has a slot that may be overwritten; then the table is that of the swaps in order |
| `CuckooCache.WalkKeeps` | src/cuckoocache.h:382-415 | the walk keeps every kept element in one of its own slots and loses nothing but the element left in hand |
| `CuckooCache.MovesBackIff` | src/cuckoocache.h:392-412 | the first swap uses the second slot; the next one takes out what the one before put in if and only if two neighbouring slots of the element in hand coincide |
| `CuckooCache.MovesBackRun` | src/cuckoocache.h:395-412 | a counterexample to the comment: with four slots and a constant hash the second insert puts its element in, takes it out again and drops it |
| `CuckooCache.Cache.Insert` | src/cuckoocache.h:368-416 | the exact new table and counter; after the scan the kept elements are the old ones plus the new one, less at most one, which is missing only if all slots of the new one were kept, and exactly if the walk meets no free slot |
| `CuckooCache.Cache.Contains` | src/cuckoocache.h:443-453 | true exactly if one of the eight slots holds the element, so every kept element is found; erasing clears the protection of the first match and nothing else; asking again gives the same answer |
| `CuckooCache.Run` | src/cuckoocache.h:264-453 | in every run the kept elements of the current epoch stay within epoch_size + max(1, epoch_size / 16) and can be found |
| `CuckooCache.KeptIsFound` | src/cuckoocache.h:443-453 | a kept element is in one of its eight slots |
| `CuckooCache.LocsAre` | src/cuckoocache.h:218-228 | masking a hash is taking it modulo the number of slots |
| `CuckooUse.InsertPlaces` | src/cuckoocache.h:368-391 | an element found in its slots is protected again in the first of them; otherwise it goes into the first that is not protected; no other slot changes |
| `CuckooUse.InsertEraseFind` | src/cuckoocache.h:418-430 | the promise in the comment: insert, and if contains with erase says yes, contains says yes again |
| `CuckooUse.InsertFind` | src/cuckoocache.h:350-416 | an inserted element is found unless the insert dropped it |
| `CuckooUse.TwoEpochs` | src/cuckoocache.h:276-286 | one change of epochs spares the kept current elements, two spare none |
| `CuckooUse.NextScan` | src/cuckoocache.h:287-295 | the next scan is due after as many inserts as could fill the epoch, at least a sixteenth of it and one |
| `CuckooUse.LiveIsNumber` | src/cuckoocache.h:270-275 | the live count is the number of kept slots of the current epoch |
| `CuckooUse.KeptIsNumber` | src/cuckoocache.h:165-172 | the kept elements count an element once for every protected slot that holds it |
| `DbTransaction.Transaction.Write` | src/dbwrapper.h:614-628 | the store reads with this value; writes and deletes stay disjoint; memoryUsage changes by the sizes of key and value that come and go and stays the exact sum |
| `DbTransaction.Transaction.Read` | src/dbwrapper.h:635-652 | what the overlay holds |
| `DbTransaction.Transaction.Exists` | src/dbwrapper.h:659-669 | whether the overlay holds the key |
| `DbTransaction.Transaction.Erase` | src/dbwrapper.h:676-685 | the store reads without the key; memoryUsage changes by the sizes that come and go and stays the exact sum |
| `DbTransaction.Transaction.Clear` | src/dbwrapper.h:687-691 | back to the parent |
| `DbTransaction.Transaction.CommitToDisk` | src/dbwrapper.h:693-701 | a database that is the target receives deletes and writes; if it is the parent the transaction reads as before, if not it reads as its parent |
| `DbTransaction.Transaction.CommitToTransaction` | src/dbwrapper.h:693-701 | a transaction that is the target reads with the deletes and writes, with exact sums; if it is the live parent, the nested one reads as before |
| `DbTransaction.LessTotal` | src/dbwrapper.h:562-566 | the byte order is total |
| `DbTransaction.LessTransitive` | src/dbwrapper.h:562-566 | and transitive |
| `DbTransaction.LessIff` | src/dbwrapper.h:562-566 | one key comes before another exactly if after equal bytes it ends or has the smaller byte |
| `DbTransaction.Iterator.SkipDeletedAndOverwritten` | src/dbwrapper.h:527-535 | the parent cursor stops at its first key that no change hides |
| `DbTransaction.Iterator.DecideCur` | src/dbwrapper.h:537-549 | the smaller key is chosen |
| `DbTransaction.Iterator.CurrentIsFirst` | src/dbwrapper.h:402-550 | what the iterator shows is the first key of the merged store from its position on |
| `DbTransaction.Iterator.Seek` | src/dbwrapper.h:427-444 | both cursors stand at their first key from the sought one on |
| `DbTransaction.Iterator.Next` | src/dbwrapper.h:450-463 | past the current key both cursors are again right; both assertions hold |
| `DbTransaction.Iterator.GetKey` | src/dbwrapper.h:492-501 | the key shown |
| `DbTransaction.Iterator.GetValue` | src/dbwrapper.h:514-524 | the value Read returns for it |
| `DbTransaction.Collect` | src/dbwrapper.h:402-550 | iterating from Seek(k) or from the beginning, over a database or another transaction, visits exactly the keys of the map Commit would produce that are k or come after it by their first different byte, in that order, with Read's values |
| `EvoDb.EvoDB.constructor` | src/evo/evodb.cpp:9-15 | both transactions read as the database |
| `EvoDb.EvoDB.Read` | src/evo/evodb.h:45-50 | the current value |
| `EvoDb.EvoDB.Exists` | src/evo/evodb.h:59-64 | whether there is one |
| `EvoDb.EvoDB.Write` | src/evo/evodb.h:52-57 | one key of the current state changes; neither what survives a rollback nor the disk |
| `EvoDb.EvoDB.Erase` | src/evo/evodb.h:66-71 | the same for an erased key |
| `EvoDb.EvoDB.Commit` | src/dbwrapper.h:745-751 | the current state becomes the one that survives a rollback; nothing reads differently |
| `EvoDb.EvoDB.Rollback` | src/dbwrapper.h:752-758 | the current state is again the one last committed |
| `EvoDb.EvoDB.CommitRootTransaction` | src/evo/evodb.cpp:17-24 | what was committed goes to disk; nothing reads differently |
| `EvoDb.Run` | src/evo/evodb.h:33-83 | every run that trips no assertion gives the answers of three plain maps |
| `EvoDb.WriteThrough` | src/evo/evodb.h:33-83 | what is written and committed is on disk after CommitRootTransaction, beside all there was; what is rolled back reads as before |
| `EvoDb.UncommittedIsUndone` | src/evo/evodb.h:33-83 | without a commit, whatever was done, a rollback restores the last committed state, and the disk never holds more than was committed |
| `CompactBlock.EncodeBlock` | src/blockencodings.cpp:20-30 | the coinbase in full, the short ids of the others in order; the message describes the block |
| `CompactBlock.Prefill` | src/blockencodings.cpp:60-76 | accepts exactly well-placed prefilled transactions, puts each in its place, and never writes outside |
| `CompactBlock.MapSlots` | src/blockencodings.cpp:82-104 | never leaves the slots; never returns exactly if there are short ids and the first 65536 slots are taken; otherwise maps each short id to its slot or reports a collision |
| `CompactBlock.Search` | src/blockencodings.cpp:106-165 | both search loops compute the specified scan |
| `CompactBlock.PartiallyDownloadedBlock.InitData` | src/blockencodings.cpp:50-170 | the status for every message and the exact slots when it is accepted; `CompactSend.Receive` and `CompactSend.Send` say which messages those are |
| `CompactBlock.PartiallyDownloadedBlock.FillBlock` | src/blockencodings.cpp:178-199 | fills the gaps in order, succeeds exactly with the right number of transactions, and what is left otherwise |
| `CompactBlock.WalledIff` | src/blockencodings.cpp:83-87 | the offset loop is caught exactly by 65536 prefilled transactions |
| `CompactBlock.EndlessExample` | src/blockencodings.cpp:83-87 | a counterexample: such a message passes all tests before the loop |
| `CompactBlock.ReceivedAgrees` | src/blockencodings.cpp:106-165 | without short-id clashes every transaction put in place is the block's own |
| `CompactRelay.StepOutcome` | src/blockencodings.cpp:111-127 | one transaction through a search keeps the rule for every slot: untouched, filled by its only hit, or emptied by a second |
| `CompactRelay.AllMet` | src/blockencodings.cpp:128-132 | when the count equals the number of short ids, every short id was met, so ending the search early changes nothing |
| `CompactRelay.SearchedOutcome` | src/blockencodings.cpp:106-165 | what both searches leave in every slot, for any block size, pool and extra transactions |
| `CompactRelay.AgreesIff` | src/blockencodings.cpp:82-165 | everything put in place is the block's own if and only if no transaction is misplaced |
| `CompactRelay.ReceivedComplete` | src/blockencodings.cpp:106-165 | up to 65536 transactions a slot stays empty only if neither the pool nor the extra transactions hold its transaction |
| `CompactRelay.Relay` | src/blockencodings.cpp:20-199 | the exact condition for acceptance; then a block of up to 65536 transactions is rebuilt exactly and exactly the unknown transactions are asked for, and a larger one is rebuilt if and only if no known transaction beyond the 16-bit limit is alone in leading to a place where the block has another |
| `CompactRelay.MisplacedExample` | src/blockencodings.cpp:82-165 | a counterexample: a block of 65538 transactions of which the receiver knows the last is rebuilt wrongly |
| `CompactSend.Receive` | src/blockencodings.cpp:50-104 | a message is invalid exactly for a null header, no transactions, more than 200000, a null one in full, or one in full beyond place 65535 or the transactions before it; otherwise it is accepted exactly if the short ids differ and no bucket is crowded, except for the endless loop |
| `CompactSend.PlacesAre` | src/blockencodings.cpp:62-64 | the running sum of the distances gives the places |
| `CompactSend.MessageEncodes` | src/blockencodings.cpp:20-76 | for any choice of transactions in full, coded by distances, the message describes the block and the empty slots are the others |
| `CompactSend.DistinctOthers` | src/blockencodings.cpp:101-104 | the short ids differ exactly if those of the transactions not in full do |
| `CompactSend.Send` | src/blockencodings.cpp:20-199 | for any block of up to 200000 transactions and any choice of them in full: exactly when it is accepted, that up to 65536 it comes through, and exactly which transactions are asked for |
| `CompactSend.SendBlock` | src/blockencodings.cpp:20-199 | the sender of the repository: a block comes through InitData exactly if it has at most 200000 transactions, its coinbase is not null, the other short ids differ and no bucket is crowded; up to 65536 transactions it is rebuilt, asking exactly for those not known |
| `IndexCoding.Encode` | src/blockencodings.h:62-67 | the differences of neighbouring indexes, as `IndexCoding.DifferencesAre` gives them |
| `IndexCoding.DifferencesAre` | src/blockencodings.h:64 | the number of places skipped, and almost 2^64 for an index that is not larger than the one before |
| `IndexCoding.Decode` | src/blockencodings.h:42-61 | the restored indexes, or failure beyond 16 bits |
| `IndexCoding.DecodedIff` | src/blockencodings.h:42-61 | a list is the result exactly if each index is the number received plus the one after the index before, modulo 2^16, and all are at most 65535 |
| `IndexCoding.RoundTrip` | src/blockencodings.h:37-68 | a list survives if and only if it is strictly increasing |
| `IndexCoding.IncreasingIff` | src/blockencodings.h:55-61 | a received list decodes to increasing indexes if and only if they stay within 16 bits |
| `IndexCoding.WrappedExample` | src/blockencodings.h:55-61 | a counterexample: the offset wraps at 65535 and a list that is not increasing is accepted |

## Left out

- Coins: GetBestBlock, SetBestBlock, HaveInputs and GetValueIn, which only read through the modelled operations; HaveCoin is GetCoin without the coin.
- Coins.CoinStack.AddCoin: a caller that replaces an unspent coin without announcing it is excluded by a precondition, as the source demands.
- AddrMan: Select_ (probabilistic termination, floating point), Serialize and Unserialize, the bucket hashes (uninterpreted functions).
- AddrManCheck.Check: ids are taken not to be -1, which marks an empty cell.
- InstantSend: voting by the node itself in masternode mode, expiry of candidates, notification of wallets and ZMQ, serialization.
- InstantSend.Node.ProcessNewTxLockVote: times do not wrap at 32 bits as the int at src/instantx.cpp:359 would.
- CheckQueue: fQuit and the controller object; the mutex is the atomicity of steps.
- BlockTree.Chain.GetLocator: nStep is unbounded; the 32-bit doubling would overflow only for heights of 2^30 and more.
- BlockTree: FindEarliestAtLeast, the validity flags and serialization of CBlockIndex.
- Uint256: hexadecimal text, floating point, bitwise operators between two numbers and the 32-bit multiplication, on which no other modelled part depends.
- Compact: GetBlockProofEquivalentTime.
- Base58: the checked variants with a hash suffix, and inputs beyond the range of an int length.
- Base58.DecodeBase58: takes a C string; a std::string is read up to its first zero byte before the call.
- RollingBloom: the floating-point sizing of the constructor; sizes and hash counts are parameters. CBloomFilter.
- RollingBloom.Filter.Insert: not defined for a filter constructed for 0 elements, which has no cells; the source would write outside its vector.
- CuckooCache: memory ordering of the relaxed atomics; the logarithm in setup, whose result is a parameter.
- DbTransaction.Transaction.CommitToTransaction: a target that lies below the parent without being it is excluded; the repository commits into the parent or into a batch.
- EvoDb: the best-block marker; a batch is a transaction whose commit is WriteBatch.
- DbTransaction: the check that a value is read with the type it was written with, LevelDB itself, iterators over a transaction that changes meanwhile.
- CompactBlock: CheckBlock, the bucket-size test (a parameter), extra_count (only logged; it can fall below zero), locking of the pool, wire serialization.
- IndexCoding: reading in chunks of 1000 and the length prefix.
- Everything else in the repository: networking, RPC, wallet, masternode lists, quorums, governance, scripts, consensus validation, hashing and signatures.
