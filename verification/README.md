# SaokaCache in Dafny

A model of the parts of SaokaCache, a distributed in-memory cache, whose correctness is hardest to see
from the code, with proofs about every input, every run and every interleaving:

- **Two-level LRU store** (`store/lru2.go`). `SlotCache.Cache` is one level as it is laid out in memory: a
  circular doubly linked list threaded through an index array with a sentinel row, a slot array, and a key
  map that also keeps the slots of deleted entries. `RecencyList` says what put, get and del mean on the
  list itself. `TwoLevel` stacks two levels into a bucket and defines the *view* a client has of it;
  `Sweep` is the cleanup pass, `Routing` the hash and the mask, `Levels` and `Lru2Store.Store` the store
  object. `Lifetimes` says in plain clock readings how long values can be read and what cleanup takes;
  `StoreRuns`, `Freshness` and `Staleness` are about whole runs and what clients read, `Retention`,
  `BucketRetention` and `Tombstones` about how long entries stay and where deleted slots end up.
- **Consistent-hash ring** (`consistenthash/con_hash.go`). `RingSpec` defines ownership by clockwise distance
  on the circle of 32-bit hashes, independently of any array. `PointList` sorts, searches and thins out the
  point list, `RingNodes` puts virtual nodes on the ring and takes them off, `Rebalancing` rescales them, and
  `HashRing.Ring` is the object.
- **Request merging** (`singleflight/singleflight.go`). `Singleflight` is a step system over any number of
  callers in which looking up, storing, running, releasing and deleting are separate steps.
- **Byte-bounded LRU** (`store/lru.go`): `Lru` says what eviction leaves, `LruRuns` is about whole runs and the
  byte limit, `LruAnswers` about what reads answer, `LruCache.Cache` is the object.
- **Bloom filter and the gate built on it** (`bloom/bloom.go`, `policy.go`): `Bloom`, `Policy`.
- **Propagation of Set and Delete between nodes** (`group.go`, `server.go`): `Propagation`, with message loss,
  delay and reordering; `DeleteCascade` is about when deletions stop travelling, `Agreement` about what the
  nodes are left with.

Classes follow the objects of the source; their methods are proved against functions on sequences, maps and
sets, and the theorems are about those functions. Hash functions are arbitrary function values. Times are
parameters; `Get` of the two-level store takes both of its clock readings. Iteration over Go maps is an
arbitrary choice. `dafny verify dfyconfig.toml` checks everything.

Results that go against what one might expect of the code:

- A write that shortens the expiry of its key can bring the overwritten value back
  (`Freshness.ShorterExpiryUncoversStaleValue`). `Staleness.AlwaysFreshIff` says exactly which runs never
  serve an old value; with expiries that do not shrink none does (`Freshness.EveryAnswerIsAccountedFor`).
- The cleanup pass can remove a value that has not expired, when an older copy of the key in level two has
  (`Freshness.SweepCanRemoveUnexpiredValue`).
- A level-one victim with an empty key, a nil value or a non-positive expiry is dropped without a callback;
  `TwoLevel.SetLosesOnlyReported` says exactly when, and an overflowing duration is one way to get there
  (`Freshness.OverflowingDurationIsDroppedSilently`).
- Looking up a deleted key in level two can cost a live entry its slot
  (`Tombstones.LookupOfDeletedKeyCostsALiveEntry`); deleted slots stay at the tail exactly if no such lookup
  happens (`Tombstones.AlwaysLiveFirstIff`).
- Overwriting a value can leave the byte-bounded LRU above its limit (`LruRuns.UpdateMayExceedLimit`);
  `LruRuns.AlwaysWithinIff` and `LruRuns.OverLimitIff` say exactly when.
- Adding a node to the ring twice and removing it once leaves points without an owner
  (`HashRing.AddTwiceThenRemove`); `RingNodes.AddKeepsRingIff` says exactly which additions are safe.
- Two callers that miss the lookup together both run their functions, although the comment on Do promises one
  call (`Singleflight.CarelessLookupRunsTwo`).
- The Bloom gate turns every read away, because the only place that adds to the filter lies behind it
  (`Policy.GateRejectsEverything`); and before the first write nothing can be loaded at all
  (`Policy.NothingLoadsBeforeAWrite`).
- A deletion is passed on by every receiver, and goes on for ever exactly if it reaches nodes that know each
  other in a circle (`DeleteCascade.EndlessExactlyInClosedSets`).
- Two concurrent writes of one key can leave two nodes with different values and nothing in flight
  (`Agreement.ConcurrentWritesDiverge`); `Agreement.AlwaysAgreeIff` says exactly when all nodes are sure to agree.

## Model

| member | source | states |
|---|---|---|
| `SlotCache.Cache.constructor` | store/lru2.go:244-251 | a new cache is valid and represents the empty list, for capacities whose successor fits 16 bits |
| `SlotCache.Cache.Adjust` | store/lru2.go:341-350 | unlinking a slot and relinking it at the end that `t` points to turns A+[i]+B into [i]+A+B read in direction `t`, with predecessors the exact mirror of successors |
| `SlotCache.RelinkedIsLinked` | store/lru2.go:341-350 | the six link writes yield a well-formed circular list over the reordered slots |
| `SlotCache.LinkedReverse` | store/lru2.go:237-238 | a well-formed list read backwards is the reversed list, so one proof serves both directions of the move |
| `SlotCache.Cache.MoveToTail` | store/lru2.go:323-323 | called with the directions exchanged, the move turns A+[i]+B into A+B+[i] |
| `SlotCache.ConsIsLinked` | store/lru2.go:290-304 | linking an unused slot in keeps the circular list well formed, also as the first slot |
| `SlotCache.PositionOf` | store/lru2.go:263-263 | the key map finds exactly the slot at which the key stands in the list, and nothing for absent keys |
| `SlotCache.Cache.Put` | store/lru2.go:262-307 | on the represented list put does exactly what `RecencyList.Put` says, in all three branches, and reports the victim; links, slots and key map stay consistent |
| `SlotCache.Cache.Get` | store/lru2.go:310-316 | get moves the slot to the head, deleted or not, and returns its node |
| `SlotCache.Cache.Del` | store/lru2.go:319-328 | del marks a live slot, moves it to the tail and leaves the key in the map; otherwise nothing changes |
| `SlotCache.Cache.Walk` | store/lru2.go:331-337 | following the links from the sentinel terminates and visits exactly the live slots in list order |
| `RecencyList.PutFind` | store/lru2.go:262-307 | where every key stands after a put and which node it has; at most the tail is displaced |
| `RecencyList.TouchFind` | store/lru2.go:310-316 | where every key stands after a get |
| `RecencyList.DelFind` | store/lru2.go:319-328 | where every key stands after a del |
| `RecencyList.PutLookup` | store/lru2.go:262-307 | a put binds its key and forgets at most the evicted one |
| `RecencyList.DelLookup` | store/lru2.go:319-328 | a del makes exactly its own key disappear |
| `Retention.RetainedUntilCapOthersUsed` | store/lru2.go:262-328 | once put, or got while live, a key keeps its last entry through every run of puts, gets and deletes of other keys until `cap` distinct other keys have been used |
| `Retention.RetentionIsTight` | store/lru2.go:262-307 | after a put followed by puts of other keys, the key is still there if and only if fewer than `cap` distinct keys were put |
| `Retention.PutsAndDelsKeepLiveFirst` | store/lru2.go:262-328 | without gets, deleted slots are a suffix of the list after every run, and a put evicts a live entry only if all slots are live |
| `BucketRetention.KeptInBucket` | store/lru2.go:56-131 | after a write, a demotable key keeps its value in its bucket through every run of writes, reads and deletions of other keys that writes and reads fewer distinct keys than the larger of the two levels has slots |
| `BucketRetention.KeptAfterRead` | store/lru2.go:64-77 | after a read that moves it down, it keeps its value as long as those keys and the ones then alive in level one are fewer than the slots of level two |
| `Tombstones.LevelOneDemotesOnlyWhenAllLive` | store/lru2.go:56-131 | in every state of every run of the store, whatever the operations and times, a write demotes a level-one entry only when every slot of that level is live |
| `Tombstones.TouchKeepsLiveFirstIff` | store/lru2.go:310-316 | a get leaves the deleted slots at the tail if and only if it does not find a deleted slot while a live one exists |
| `Tombstones.AlwaysLiveFirstIff` | store/lru2.go:262-328 | in a run of puts, gets and dels the deleted slots are at the tail throughout if and only if no get finds a deleted slot while a live one exists |
| `Tombstones.LookupOfDeletedKeyCostsALiveEntry` | store/lru2.go:81-81 | in a full level two of any capacity, looking up the deleted key at the tail makes the next promotion evict the live entry before it instead of reusing the deleted slot |
| `TwoLevel.SetView` | store/lru2.go:98-122 | for every key, exactly how a write changes what a client sees |
| `TwoLevel.SetLosesOnlyReported` | store/lru2.go:109-119 | a write changes another key without reporting the lost entry if and only if its level-one victim may not be demoted and is not duplicated below, or the level-two victim has the empty key |
| `TwoLevel.GetView` | store/lru2.go:56-92 | for every key and any two clock readings, exactly how a read changes what a client sees, including what an expired level-one hit uncovers |
| `TwoLevel.PurgeNeedsClockStep` | store/lru2.go:81-91 | a read deletes its own key from level two only if the clock ran backwards between its two readings |
| `TwoLevel.GetLosesOnlyReported` | store/lru2.go:71-77 | a read changes another key unreported if and only if it pushes a live entry with the empty key out of level two |
| `TwoLevel.GetResult` | store/lru2.go:56-92 | a read answers from the view, and misses exactly if there is no entry or it is out of date at one of the readings |
| `TwoLevel.DeleteView` | store/lru2.go:372-386 | a deletion removes exactly its key from both levels |
| `Sweep.ExpiredKeysExact` | store/lru2.go:395-416 | the pass collects exactly the keys with an expired copy in either level, each once |
| `Sweep.SweepExact` | store/lru2.go:388-425 | afterwards no live entry of the bucket is due, both copies of every collected key are gone, every other entry is untouched in both levels, and the callback is told of each removed key what deleting it alone would tell; without nil values that is the value a client would have read |
| `Sweep.DeleteAllReports` | store/lru2.go:372-386 | deleting distinct keys reports what deleting each of them alone would report, one after the other, whatever the values |
| `Sweep.ReportsAreItems` | store/lru2.go:372-386 | without nil values that is each visible key once with its visible value |
| `Lifetimes.FirstRead` | store/lru2.go:56-106 | the first read after a write hits before the duration is over and misses from then on; without a duration, or if the sum is no proper time, it hits whenever it comes |
| `Lifetimes.SecondRead` | store/lru2.go:79-92 | the next read, from level two, goes by the same duration, but a value without a proper time is not found again |
| `Lifetimes.CleanupExact` | store/lru2.go:388-425 | a pass at a clock reading removes both copies of a key if a live copy has a positive time not after that reading, and touches neither otherwise |
| `Lifetimes.CleanupKeepsAnswers` | store/lru2.go:388-425 | a pass changes no answer, at any time, about a key whose live copies last beyond it |
| `Lifetimes.DemotionExact` | store/lru2.go:109-119 | the oldest live entry of a full level one moves to level two if it has a name, a value and a positive time, and otherwise level two keeps what it has |
| `Lifetimes.DeletionReports` | store/lru2.go:372-386 | a deletion reports at most one value, the first that is not nil, level one before level two |
| `Freshness.EveryMissIsAccountedFor` | store/lru2.go:56-155 | in every run from an empty store with a monotone clock and demotable writes, whatever the expiries, a miss means that there is no write of the key since its deletion, or it has expired, or the key was reported since |
| `Freshness.EveryAnswerIsAccountedFor` | store/lru2.go:56-155 | if moreover expiries do not shrink, a hit is the last write of the key since its deletion and unexpired |
| `Staleness.AlwaysFreshIff` | store/lru2.go:56-155 | in every run from an empty store with a monotone clock and any writes at all, all reads in all states answer with the last write before its expiry if and only if no read finds its level-one entry expired above a readable level-two copy, and no write drops an undemotable level-one entry above a copy that could be served in its place |
| `Staleness.AllowedNeverUncovers` | store/lru2.go:56-122 | demotable writes whose expiries do not shrink never take such a step |
| `Freshness.StepKeepsInv` | store/lru2.go:56-155 | the invariant behind the two theorems is kept by every operation, with level-two expiry at most that of the last write if expiries do not shrink |
| `Freshness.ShorterExpiryUncoversStaleValue` | store/lru2.go:64-77 | for every pair of writes with a shrinking expiry there is a run whose last read returns the overwritten value |
| `Freshness.SweepCanRemoveUnexpiredValue` | store/lru2.go:398-420 | an expired level-two copy makes the pass remove the newer, unexpired level-one value |
| `Freshness.OverflowingDurationIsDroppedSilently` | store/lru2.go:98-122 | from a new store, a value written with a duration that overflows the clock is visible until the next write of another key drops it without a callback |
| `Routing.MaskIsLeastPowerOfTwo` | store/lru2.go:215-226 | for 1 to 32768 buckets the mask is one less than the least power of two not below the request |
| `Routing.MaskOverflows` | store/lru2.go:35-38 | the mask is all ones, and mask+1 wraps to zero buckets, exactly beyond 32768 |
| `Routing.HashBKDR` | store/lru2.go:206-212 | the loop computes the BKDR hash in wrapping signed 32-bit arithmetic |
| `Routing.HashIsBase131` | store/lru2.go:206-212 | the hash is the bytes of the key read as a number in base 131, reduced to 32 bits |
| `Routing.AndMask` | store/lru2.go:57-57 | masking a signed hash with 2^e-1 is reduction modulo 2^e, so the index is in range for negative hashes too |
| `Routing.RouteIsModulo` | store/lru2.go:57-57 | with the store's own mask, the bucket of a key is its hash modulo the number of buckets |
| `Routing.RouteIsBase131` | store/lru2.go:57-57 | the bucket of a key is that number modulo the number of buckets |
| `StoreRuns.StepSound` | store/lru2.go:56-155 | every operation, with any arguments and times, keeps each live entry in the bucket its key hashes to, and in no other |
| `StoreRuns.ClearRemovesEverything` | store/lru2.go:134-155 | Clear leaves no live entry in any bucket, in whatever order it deletes the collected keys |
| `StoreRuns.ClearReports` | store/lru2.go:134-155 | Clear reports of each distinct live key what deleting it alone would report; without nil values that is each key once with its visible value |
| `StoreRuns.SweepLookups` | store/lru2.go:388-425 | a pass over all buckets removes exactly the keys with an expired copy |
| `Levels.GetLevels` | store/lru2.go:56-92 | the read code on two caches does what `TwoLevel.Get` says, callbacks included |
| `Levels.SetLevels` | store/lru2.go:109-119 | the write code on two caches does what `TwoLevel.Set` says, callbacks included |
| `Levels.DeleteLevels` | store/lru2.go:372-386 | the deletion code does what `TwoLevel.Delete` says and returns whether the key was visible |
| `Levels.SweepLevels` | store/lru2.go:390-423 | the cleanup code of one bucket does what `Sweep.SweepBucket` says |
| `Levels.Collect` | store/lru2.go:395-416 | the two walks collect in order, skipping keys found before, exactly the keys of the nodes whose time is positive and not after the clock |
| `Lru2Store.Store.constructor` | store/lru2.go:21-54 | a new store has mask+1 empty buckets with separate memory; zero options take the defaults |
| `Lru2Store.Store.SetWithExpiration` | store/lru2.go:98-122 | only the key's own bucket changes, as `StoreRuns.StoreSet` says; the expiry wraps at 64 bits |
| `Lru2Store.Store.Get` | store/lru2.go:56-92 | only the key's own bucket changes, as `StoreRuns.StoreGet` says, and the answer is that of the bucket |
| `Lru2Store.Store.Delete` | store/lru2.go:125-131 | only the key's own bucket changes, and the result says whether the key was visible |
| `Lru2Store.Store.Clear` | store/lru2.go:134-155 | Clear deletes some enumeration of exactly the live keys, without repetition |
| `Lru2Store.Store.CleanupPass` | store/lru2.go:388-425 | one tick sweeps every bucket at one time |
| `Lru2Store.Store.Len` | store/lru2.go:158-177 | the count is the number of live copies; a key live in both levels counts twice |
| `Lru2Store.LenCountsKeysPerLevel` | store/lru2.go:158-177 | that is the number of keys live in level one plus the number live in level two |
| `RingSpec.MovesOnlyToGainersOrFromLosers` | consistenthash/con_hash.go:116-157 | under any change of replica counts a hash moves from a to b only if a lost or b gained virtual nodes |
| `RingSpec.AddMovesOnlyToAdded` | consistenthash/con_hash.go:57-77 | adding nodes moves hashes only to added nodes |
| `RingSpec.RemoveMovesOnlyFromRemoved` | consistenthash/con_hash.go:80-113 | removing a node moves only the hashes it owned |
| `RingSpec.RingDetermined` | consistenthash/con_hash.go:192-246 | the sorted ring and the owner map are determined by the virtual nodes, in whatever order they were added and removed |
| `RingSpec.OwnerUnique` | consistenthash/con_hash.go:128-139 | on a ring without collisions a hash has one owner |
| `RingSpec.DecimalParses` | consistenthash/con_hash.go:152-152 | the number in the name of a virtual node is its usual decimal form, and reads back as the number |
| `RingSpec.VirtualNamesDiffer` | consistenthash/con_hash.go:152-152 | different virtual nodes have different names, also if node names contain dashes and digits |
| `RingSpec.CollisionFreeIff` | consistenthash/con_hash.go:152-154 | points collide exactly if the hash collides on the names of two virtual nodes |
| `PointList.SortSorts` | consistenthash/con_hash.go:75-75 | sorting yields the same points, repeated ones as often, in order |
| `PointList.Search` | consistenthash/con_hash.go:130-132 | the binary search returns the first point not below the hash |
| `RingNodes.SearchFindsOwner` | consistenthash/con_hash.go:128-139 | with the wrap-around, the point found belongs to the owner by clockwise distance |
| `PointList.Splice` | consistenthash/con_hash.go:102-107 | the inner loop removes the first occurrence of the point, if there is one |
| `PointList.RemoveEachFacts` | consistenthash/con_hash.go:99-108 | removing points one after the other takes away one occurrence of each and keeps the order |
| `RingNodes.AddKeepsRingIff` | consistenthash/con_hash.go:57-77 | adding names leaves a ring in which every point is listed once under its node if and only if the names are new and distinct and no two virtual nodes collide |
| `HashRing.Ring.AddNode` | consistenthash/con_hash.go:150-157 | one point per virtual node is appended and given to the node, on any ring; a new node without collisions keeps the ring proper |
| `HashRing.Ring.RemoveNode` | consistenthash/con_hash.go:92-113 | one occurrence of each point of the node goes, with its owner, count and counter; a proper ring loses exactly that node; an unknown node is an error without effect |
| `HashRing.Ring.Add` | consistenthash/con_hash.go:57-77 | for any names on any ring, the points and owners afterwards; a valid ring stays proper exactly if the names are new and distinct and nothing collides; an empty list is an error |
| `HashRing.Ring.Remove` | consistenthash/con_hash.go:80-89 | removal succeeds exactly for non-empty names on the ring and keeps it sorted and valid |
| `HashRing.Ring.Get` | consistenthash/con_hash.go:116-147 | the answer is what the owner map has for the clockwise successor of the hash, on a valid ring a current node that owns it; only its counter and the total grow by one |
| `HashRing.AddThenRemove` | consistenthash/con_hash.go:57-113 | adding a fresh node and removing it restores ring, owner map, replica counts and load counters exactly |
| `HashRing.AddTwiceThenRemove` | consistenthash/con_hash.go:57-113 | adding a node twice and removing it once leaves each of its points on the ring without an owner, so that lookups coming to them get no node |
| `HashRing.CountsDetermineRing` | consistenthash/con_hash.go:192-246 | two valid rings with the same hash and replica counts have the same points and owners, whatever the order of additions, removals and rebalancing |
| `Rebalancing.NewReplicasBounds` | consistenthash/con_hash.go:208-225 | the new count stays within the limits; nodes above the average never gain, others never lose |
| `Rebalancing.OverloadedExact` | consistenthash/con_hash.go:208-225 | above the average the new count is the clamp of the q with q*count <= current*average < (q+1)*count |
| `Rebalancing.UnderloadedExact` | consistenthash/con_hash.go:208-225 | otherwise it is the clamp of the q with q*average <= current*(2*average-count) < (q+1)*average |
| `Rebalancing.ProgressExact` | consistenthash/con_hash.go:208-225 | an overloaded node loses virtual nodes exactly if it has more than the least number, any other gains exactly if its shortfall is worth a whole one and it has fewer than the greatest number |
| `Rebalancing.AverageExact` | consistenthash/con_hash.go:201-201 | the average times the number of nodes is the total |
| `HashRing.Ring.RebalanceNodes` | consistenthash/con_hash.go:192-246 | on any ring, the fields afterwards are those of rescaling the counted names in the order visited; a valid ring stays valid, its counts are those of `Rebalanced` whatever the order, unchanged nodes keep a zeroed counter and changed ones lose theirs |
| `Rebalancing.RescaledAllProper` | consistenthash/con_hash.go:203-233 | rescaling the counted nodes of a proper ring in any order rescales each once from what it had before the pass, and leaves a proper ring |
| `Rebalancing.RebalanceMoves` | consistenthash/con_hash.go:192-246 | a rebalance moves a hash only away from a node above the average that lost, or to a node not above it that gained |
| `Rebalancing.MaxDeviation` | consistenthash/con_hash.go:173-183 | the loop computes the largest relative deviation from the mean |
| `Rebalancing.SkewedExact` | consistenthash/con_hash.go:173-188 | the load is skewed exactly if some counter is off the average, either way, by more than the threshold share of it |
| `HashRing.Ring.CheckAndRebalance` | consistenthash/con_hash.go:160-189 | on any ring, a rebalance happens exactly if there are 10000 requests, a node, and a deviation above the threshold, with the fields, counters and total of a rebalance; otherwise nothing changes |
| `Singleflight.StepKeepsInv` | singleflight/singleflight.go:21-51 | every step of every caller keeps the invariant, in particular that a call in the map has an owner that has not reached its delete |
| `Singleflight.ReturnsAnOverlappingExecution` | singleflight/singleflight.go:21-51 | in every interleaving Do returns the value and the error, or the panic as an error, of one execution for the same key that was between its store and its delete when this Do looked the key up, or is its own, stored after that |
| `Singleflight.NothingLeftBehind` | singleflight/singleflight.go:48-48 | when all callers have returned the map is empty |
| `Singleflight.NeverStuck` | singleflight/singleflight.go:37-46 | while a caller has not returned, some caller can step, panics included |
| `Singleflight.RunsAreFinite` | singleflight/singleflight.go:21-51 | no run of n callers is longer than 6n steps |
| `Singleflight.RunsEndComplete` | singleflight/singleflight.go:21-51 | a run that cannot go on has brought every caller home and left the map empty |
| `Singleflight.OneFunctionPerKey` | singleflight/singleflight.go:20-32 | if no caller looks up while another of its key is between a missed lookup and its store, at most one function per key is in flight |
| `Singleflight.CarelessLookupRunsTwo` | singleflight/singleflight.go:23-32 | from any state, a lookup that misses in that window can be followed by two functions in flight |
| `Lru.EvictionIsExact` | store/lru.go:186-204 | eviction leaves exactly the longest suffix of the unexpired recency order that fits a positive limit, and all of it otherwise |
| `Lru.FittingIsLongest` | store/lru.go:198-203 | dropping from the front until the rest fits yields the longest suffix within the limit |
| `Lru.KeepingOneLess` | store/lru.go:189-195 | removing one more expired key keeps the others in order, so the visiting order of the expiry map does not matter |
| `LruRuns.StepWithinIff` | store/lru.go:95-132 | from a state within its limit one operation of any kind leads outside if and only if it is a write to a present key whose new length does not fit |
| `LruRuns.AlwaysWithinIff` | store/lru.go:55-307 | a run of sets, gets, deletes, clears, expiry changes, limit changes and cleanup rounds is within the limit throughout if and only if no write to a present key in it overruns the limit |
| `LruRuns.OverLimitIff` | store/lru.go:95-204 | the state at the last eviction, limit change or Clear of a run is within the limit, and the run ends above it if and only if the overwrites since, less what was deleted, have grown the total past it |
| `LruRuns.SettledSomewhere` | store/lru.go:95-204 | every run has such a last point |
| `LruRuns.UpdateMayExceedLimit` | store/lru.go:114-120 | whatever the cache holds, overwriting any of its keys with a value longer than a positive limit leaves it above the limit |
| `LruAnswers.OverwriteThenRead` | store/lru.go:55-120 | after a write to a present key a read answers its value until the duration is over, for ever without one, and other keys are unaffected |
| `LruAnswers.InsertThenRead` | store/lru.go:55-132 | after a write of a new key a read answers its value exactly if name and value fit a positive limit on their own and the duration is over neither at the eviction nor at the read |
| `LruAnswers.UpdateThenRead` | store/lru.go:267-282 | a new duration counts from its own clock reading and affects its key alone |
| `LruAnswers.OtherOpsThenRead` | store/lru.go:55-163 | reads change no answers, a deletion takes away that of its key alone, Clear all of them |
| `LruAnswers.UnlimitedEvictionExact` | store/lru.go:186-196 | without a limit an eviction keeps exactly the items without an expiry or with one not before the clock |
| `LruCache.Cache.RemoveElement` | store/lru.go:173-183 | one entry leaves list, index and expiry map, the byte count follows, one callback is made |
| `LruCache.Cache.Evict` | store/lru.go:186-204 | the list becomes `Lru.Evicted`, the expiry map keeps exactly the entries left, one callback per removed entry; as `LruRuns.Evict` says |
| `LruCache.Cache.SetWithExpiration` | store/lru.go:95-132 | nil deletes; a present key is overwritten and becomes most recent without eviction, the byte count changing by the difference of the lengths; a new key is appended and then evicted against; as `LruRuns.Apply` says |
| `LruCache.Cache.Get` | store/lru.go:55-87 | a hit returns the value and becomes most recent; an expired entry is a miss that schedules a deletion; as `LruRuns.Apply` says |
| `LruCache.Cache.Delete` | store/lru.go:135-144 | exactly the key goes, with one callback; as `LruRuns.Apply` says |
| `LruCache.Cache.Clear` | store/lru.go:147-163 | everything goes, with one callback per entry in some order; as `LruRuns.Apply` says |
| `LruCache.Cache.UpdateExpiration` | store/lru.go:267-282 | only a present key's expiry changes; as `LruRuns.Apply` says |
| `LruCache.Cache.SetMaxBytes` | store/lru.go:299-307 | a positive limit evicts exactly, any other is only recorded; as `LruRuns.Apply` says |
| `Bloom.SetPosition` | bloom/bloom.go:31-32 | setting one bit of one word adds exactly one position to the encoded set |
| `Bloom.BloomFilter.Add` | bloom/bloom.go:27-34 | the encoded set grows by exactly the hashes of the key with the seeds below k, each cut to its low byte, modulo m, all within bounds |
| `Bloom.BloomFilter.AddEach` | bloom/bloom.go:27-34 | a sequence of additions to the word array leaves the set `AddAll` says, with all probes of every added key set |
| `Bloom.BloomFilter.Contains` | bloom/bloom.go:36-46 | true exactly if all those positions of the key are set |
| `Bloom.AddAllIsUnion` | bloom/bloom.go:27-34 | any sequence of additions encodes the union of the probes |
| `Bloom.OrderDoesNotMatter` | bloom/bloom.go:27-34 | order and repetition of additions do not matter |
| `Bloom.NoFalseNegative` | bloom/bloom.go:36-46 | an added key is never reported absent |
| `Policy.CachePolicy.Get` | policy.go:36-50 | the read code does what `Policy.Step` and `Policy.ReplyTo` say |
| `Policy.CachePolicy.LoadFromSource` | policy.go:94-123 | without a store it fails and changes nothing; a key found cached by the second check is returned without effect; otherwise a load is stored, a failure leaves a placeholder, and only a success teaches the filter |
| `Policy.ReplyAfter` | policy.go:36-81 | what a read that passes the gate replies right after a write, a deletion, a clear or another read |
| `Policy.NoRunSetsABit` | policy.go:36-81 | with at least one probe no run of reads, writes, deletions and clears sets a bit |
| `Policy.GateRejectsEverything` | policy.go:36-60 | every read of every run from a new policy is rejected if and only if the filter uses at least one probe |
| `Policy.NothingLoadsBeforeAWrite` | policy.go:94-101 | in every run without a write no read brings up a value, with or without the gate |
| `Policy.TaughtKeysPass` | policy.go:53-60 | had Set added its key to the filter, every written key would pass in all later states |
| `Propagation.StoresExact` | group.go:199-246 | at every node and key: a write, by a client or by a message, binds its key at its node unless the key is empty or the value nil or of no length; a deletion unbinds it there; nothing else changes |
| `Propagation.SetMessagesConserved` | group.go:199-280 | in every run, with deletions and losses mixed in, Set messages in flight plus those delivered or lost equal those there were plus one per peer for every accepted client write; deliveries and remote writes send none |
| `Agreement.OutcomesExact` | group.go:199-280 | once no client touches a key and none of its messages is lost, the values the nodes can be left with are exactly the combinations of what is possible at each: a value on its way there, nothing if a deletion can come there, what it has if neither; none at all if a deletion of the key never comes to rest |
| `Agreement.DoomedIffReached` | server.go:193-201 | a deletion can come to exactly those nodes that a way along peers leads to from its target |
| `Agreement.AlwaysEndsIff` | group.go:199-280 | a node is sure to end up with a value if and only if everything on its way there says so, or the key never comes to rest |
| `Agreement.OnlyWritesEndIff` | group.go:199-226 | with only writes of the key in flight, that is: all of them to the node carry the value, and it has the value or one of them is coming |
| `Agreement.AlwaysAgreeIff` | group.go:199-280 | all nodes are sure to agree, in whatever order messages arrive, if and only if one value is what every node is bound to, or there is one node only, or the key never comes to rest |
| `Agreement.WriteReachesEveryPeer` | server.go:173-190 | a write is sure to be what its node, or any of its peers, ends up with if and only if no other value and no deletion is on its way there, whatever else is in flight or happens on other keys |
| `Agreement.ConcurrentWritesDiverge` | group.go:199-226 | in every network, two nodes that know each other and write one key before they hear of each other can swap their values and stay different with nothing of the key in flight |
| `DeleteCascade.DeleteStep` | server.go:193-201 | a received deletion is replaced by one message per peer of the receiver |
| `DeleteCascade.EndlessExactlyInClosedSets` | group.go:229-280 | loss-free delivery runs of every length exist if and only if a deletion in flight is on its way into a set of nodes that each know a node of the set |
| `DeleteCascade.ClientDeleteEndlessIff` | group.go:229-246 | a client deletion on a quiet network never comes to rest if and only if its key is not empty and its node knows a node of such a set |
| `DeleteCascade.DeliveriesCounted` | group.go:229-280 | otherwise every delivery brings down the number of deliveries to come by exactly one, so all loss-free runs to the end have the same length |
| `DeleteCascade.DeletesMultiply` | group.go:229-246 | where every node has at least q peers each delivery of a deletion adds at least q-1 messages |

## Left out

- Locking in `store/lru2.go` and `store/lru.go`: operations are sequential; Clear of the two-level store is not interleaved with writers, and Get of the byte-bounded LRU is one step.
- A nil eviction callback: the stores record every call they would make.
- The early exit of `walk`: every caller's walker returns true.
- `HashRing.Ring.RemoveNode`: what a removal leaves of a ring with collisions is stated on points and owners only, not in terms of ownership.
- `Rebalancing.NewReplicasBounds`: computes with reals, because rounding of floating point is not the point of the rule.
- `HashRing.Ring.RebalanceNodes`: asks for at least one request, as its only caller guarantees.
- The concrete hashes FNV-1a and CRC-32, the sizing formulas of the Bloom filter and its false-positive rate.
- The order of the bits within a word of the Bloom filter: nothing outside the filter can tell.
- Functions passed to Do that call Do again for their own key, which wait for themselves, and functions that end their goroutine.
- `Policy.CachePolicy.LoadFromSource`: is one step, since merging is modelled in `Singleflight`; time to live and jitter are not modelled.
- GetWithExpiration, GetExpiration and the counters of `store/lru.go`, statistics, options, the group registry, ByteView and the closed flags: single-branch facts.
- gRPC, etcd, peer discovery and timeouts: a failed or late message counts as lost.
