# Core containers of a Dragonfly fork, in Dafny

The project models the data structures under `src/core` of the key-value store drakeydb, a fork of Dragonfly, and
proves what they are relied on for. Each component is a class or a state machine with an invariant that every
operation keeps, a function or multiset that says what it holds, and theorems about whole runs.

| files | component |
|---|---|
| `DashBucket`, `DashState`, `DashSteps`, `DashSwap`, `DashSegment`, `DashSplit` | a segment of the dash table: buckets, displacement, the stash and its lossy index |
| `DashDirectory`, `DashView`, `DashTable`, `DashRun` | the directory of extendible hashing, growth, merge, clear, and whole runs |
| `DashTraverse`, `DashTraverseRun`, `DashTraverseShrink`, `DashTraverseChanges` | the stable traversal: one call, whole traversals, and what merges do to them |
| `CuckooIndex`, `CuckooCells`, `CuckooKick`, `Cuckoo`, `CuckooCount`, `CuckooRun` | the cuckoo filter with a chain of sub-filters |
| `DenseBuckets`, `DenseRehash`, `DenseSet`, `DenseScan`, `DenseReaper`, `DenseRun` | the dense set with displacement, TTLs, resizing, scan and reaper, and whole runs |
| `OahLayout`, `OahTable`, `OahScan`, `OahRun` | the open-addressing table, its scan and reaper, and whole runs |
| `TtlMap`, `ScanRun` | the map with TTLs that the last two stand for, and whole scans of either |
| `PinProtocol` | borrowed strings: pins, orphans and drains across threads |
| `Glob`, `Bloom`, `ExtentTree`, `Rapidhash`, `DictBuilder` | the glob matcher, the Bloom filter dump, the extent allocator, the hash, the dictionary trainer |
| `Arith`, `Bits`, `Bags`, `Keys`, `Members`, `LittleEndian` | shared arithmetic, multiset algebra, keys and entries |

How to read it. A hash is a number below 2^64 and part of the key, so equal keys have equal hashes; the hash function
of the tables is not interpreted. Shifts are the recursive functions `Shr` and `Shl`, exclusive or is `Bits.Xor`. What
a container holds is a multiset, so conservation is an equation. `Reaped(before, after, now)` says that `after` lacks
some entries of `before` whose TTL has passed, and nothing else. Clocks, allocation addresses and the answers of
policies are parameters. A ghost cell beside each slot of the cuckoo filter names the item the slot belongs to.

Five statements in the repository's comments do not hold of its code. The model follows the code, gives an input for each,
and says exactly when the statement holds.

- `src/core/dash.h:348-355` promises that a traversal reaches a key that stays in the table even when the table shrinks.
  `LostKey` is a finished traversal with one merge that reports such a key in none of its calls. The promise holds, with
  exactly one report, while every cursor stands at the beginning of a chunk (`RunReportsOnce`), and inserts, deletes, growth
  and every merge of twins of which the cursor does not stand at the upper half leave it there (`RunAligned`,
  `MergeAlignment`). From a slot inside a chunk a traversal goes on to every segment of the row up to the first one that is
  no longer than the slot's distance from the beginning of its chunk, and skips that one (`UpToShort`, `ShortIsSkipped`), so
  it leaves nothing out exactly when there is no such segment (`PassesRestIff`). `OneChange` says for every key whether a
  traversal with one change of the directory reports it, and `AnyChanges` that with any number of changes a key is only
  missed if one of them takes it out of the cursor's way.
- `src/core/compact_object.h:256-259` promises that borrowed bytes are valid until the pin is released. They stay allocated
  in every run (`HandlesArePinned`), but SetByteAtIndex writes a string in place without looking at its pin. It changes what
  a handle sees exactly when the string has a reader and the write changes a byte (`StepKeeps`); `SetByteSpoilsView` is
  such a run, and `HandlesAreSafe` is the promise for runs without such a write.
- `src/core/cuckoo.h:47-50` describes `Count` as the number of fingerprint matches. `CountOfOne` adds one item and counts
  two. The count exceeds the matches exactly when some sub-filter with a match has a number of buckets that divides the
  fingerprint, so never with 256 buckets or more (`CuckooCount.Count`).
- `src/core/glob_matcher.cc:150-154` is to match a glob. It rejects the empty string for a non-empty pattern of stars
  (`StarRefusesEmpty`), which is the only exception among patterns with at most 1000 runs of stars (`Glob.StringMatch`).
- `src/core/extent_tree.h:14-16` speaks of a tree of disjoint extents that are joined when they touch. A request for an empty
  range leaves two that touch exactly when it falls inside an extent (`CutApart`, `EmptyRequestTouches`).

## Model

| member | source | states |
|---|---|---|
| DashBucket.HashParts | src/core/dash_internal.h:604-606 | a hash is its fingerprint, its home bucket and the bits above both; the three determine it |
| DashState.SetPtrKeeps | src/core/dash_internal.h:896-911 | recording a stash entry keeps the index sound for every bucket: pointers are a sub-multiset of the stash entries, and the overflow count makes up the difference |
| DashState.UnsetPtrKeeps | src/core/dash_internal.h:913-943 | forgetting one keeps it too: the right pointer or count goes, no other bucket is affected, and the present bit falls exactly with the last stash entry of the bucket |
| DashState.StashReachable | src/core/dash_internal.h:896-943 | every stash entry is announced: by the present bit, and by a pointer in its home bucket, one in the neighbour, or a positive overflow count |
| DashSegment.FindByFp | src/core/dash_internal.h:1044-1071 | finds a slot with that key, fingerprint and probe bit exactly when there is one |
| DashSegment.Segment.constructor | src/core/dash_internal.h:403-405 | a new segment is sound and empty: nothing but free slots and unset pointers |
| DashSegment.Segment.Clear | src/core/dash_internal.h:1231-1236 | an emptied segment is sound and holds nothing |
| DashSegment.Segment.IterateStash | src/core/dash_internal.h:1007-1026 | following the pointers of a bucket finds the key, or no stash bucket they name for its fingerprint holds it |
| DashSegment.Segment.FindIt | src/core/dash_internal.h:1141-1212 | in every sound segment the lookup finds a key exactly when some slot stores it |
| DashSegment.Segment.MoveToOther | src/core/dash_internal.h:1358-1383 | succeeds exactly when there is an entry to move and room for it; the first entry of its kind goes to the first free slot of the other bucket and no other slot changes |
| DashSegment.Segment.InsertUniq | src/core/dash_internal.h:1398-1461 | adds exactly the entry and keeps the invariant, in the bucket foretold by `Touches` and in its first free slot or that of the entry that gives way; fails without a trace exactly when there is no room; of the slots it changes only those of the buckets foretold |
| DashSegment.NoRoomIsAll | src/core/dash_internal.h:1398-1508 | whether or not the insertion spreads its load, `Touches` foretells failure exactly when home and neighbour are full, neither can pass an entry on, and the whole stash is full |
| DashSegment.Segment.CVCOnInsert | src/core/dash_internal.h:1463-1508 | names beforehand the buckets that a spreading insertion of the key will change, all of them when it must fail; `InsertForetold` proves it right |
| DashSegment.Segment.InsertForetold | src/core/dash_internal.h:1398-1508 | naming and then inserting: the insertion fails exactly when all buckets were named; otherwise the entry goes into the first one named, no bucket that was not named has its slots changed, and with a new entry every named one has |
| DashSegment.Segment.Delete | src/core/dash_internal.h:1238-1249 | removes exactly that entry; the stash index stays exact |
| DashSegment.Segment.TryMoveFromStash | src/core/dash_internal.h:1094-1124 | fails only when home and neighbour are full; otherwise the entry goes to the first free slot of its home bucket, or of the neighbour if there is none, and the segment is sound with the same contents once the stash slot is freed, slots already marked in a mask counting as free |
| DashSegment.Segment.BumpUp | src/core/dash_internal.h:1629-1727 | the entry changes places with what was at the result and no other slot changes; it moves one slot forward, or out of the stash into the first free slot of home or neighbour or else the last slot of the bucket whose pointer announces it, exactly when the policy lets it; contents and stash index stay exact |
| DashSegment.Segment.UnloadStash | src/core/dash_internal.h:1729-1755 | the stash shrinks by the number returned, nothing is lost, and no entry left in it has room at home or in the neighbour |
| DashSegment.Segment.ShiftRight | src/core/dash_internal.h:552-562 | shifts the slots of one bucket by one and loses exactly the last entry, with its stash reference |
| DashSegment.Segment.TraverseLogicalBucket | src/core/dash_internal.h:1557-1603 | reports the entries at home in the bucket, each once, wherever in the segment they live, and nothing else |
| DashSplit.Split | src/core/dash_internal.h:1251-1356 | parts the contents exactly by the bit the new depth adds and keeps both segments sound; the second is the result of inserting the entries with that bit one after the other in slot order; fails only if one of them finds no room in what the ones before it have filled |
| DashSplit.OverflowIsLarge | src/core/dash_internal.h:1251-1356 | entries that do not all find room in a segment, and those that were there, are more than the stash and two buckets have slots for |
| DashDirectory.ChunkIsInterval | src/core/dash.h:310-313 | the directory slots that name a segment are one aligned run of length 2^(global depth - local depth) |
| DashDirectory.NextIsStart | src/core/dash.h:310-313 | NextSeg leads from the first slot of a segment to the first slot of the next |
| DashDirectory.GrowKeeps | src/core/dash.h:1146-1160 | replicating every slot keeps that structure |
| DashDirectory.HalvedKeeps | src/core/dash.h:1162-1194 | giving the upper half of a chunk to a new segment keeps it |
| DashDirectory.JoinedKeeps | src/core/dash.h:235-304 | joining twin chunks keeps it |
| DashView.SplitKeeps | src/core/dash.h:1162-1194 | after a split the segment that a hash selects holds every entry as often as before |
| DashView.MergeKeeps | src/core/dash.h:235-304 | so it does after a merge of twins |
| DashView.GrewTwice | src/core/dash.h:1146-1194 | growth of the directory composes |
| DashTable.Table.constructor | src/core/dash.h:793-803 | a sound, empty table of the depth asked for |
| DashTable.Table.Find | src/core/dash.h:936-950 | one segment decides: the key is found exactly when the table has it |
| DashTable.Table.IncreaseDepth | src/core/dash.h:1146-1160 | the in-place fill from the end replicates the directory, although it overwrites slots it has yet to read from; nothing stored is lost |
| DashTable.Table.Split | src/core/dash.h:1162-1194 | no entry is lost or changes its count, one segment becomes one level deeper and one more is named; fails only if the entries that have to leave overfill a segment of their own |
| DashTable.Table.TryInsert | src/core/dash.h:1021-1064 | adds exactly the entry at the position returned, reports the position of an existing key, or finds the segment full and changes nothing |
| DashTable.Table.MakeRoom | src/core/dash.h:1127-1140 | makes the segment of the key one level deeper without changing what is stored, with one segment more and a directory only as deep as it must be; refused exactly at the depth limit; fails only if the upper half of the segment overfills a new one |
| DashTable.Table.GrowFor | src/core/dash.h:1116-1139 | the same over several steps: the table is still the one before the insertion with the segment of the key deeper |
| DashTable.Table.KeySegment | src/core/dash.h:1021-1030 | the segment of a key holds exactly the entries that agree with it in as many bits as the segment is deep |
| DashTable.Table.Insert | src/core/dash.h:1019-1144 | adds exactly one entry for a new key, at the position returned; reports a duplicate exactly for a stored one, with the position of the entry stored, and then changes nothing; the segment of the key is deepened one level at a time, only where the keys it shares its first bits with make up a segment without room for it, and the directory only as far as needed; gives up only with a full segment at the depth limit, or if at some depth below it the upper half of such a segment overfills a new one |
| DashTable.Table.Erase | src/core/dash.h:976-1004 | removes exactly one entry of the key, if there is one |
| DashTable.Table.FindBuddyId | src/core/dash.h:197-216 | finds the twin segment exactly when there is one and the segment is deeper than 1 |
| DashTable.Table.Merge | src/core/dash.h:235-304 | declined exactly below the initial depth; a merge changes no count and joins the two chunks; it is given up only if the entries of the second segment, inserted one after the other into the first, do not all find room |
| DashTable.Table.Clear | src/core/dash.h:848-901 | leaves 2^initial depth different, empty segments: there are always enough to fill the collapsed directory |
| DashTable.Table.BumpUp | src/core/dash.h:409-418 | the entry is where the result says, and what every key finds is unchanged |
| DashTable.Table.UnloadStash | src/core/dash.h:1107-1112 | the stash of the segment shrinks by the number returned, no entry left in it has room at home or in the neighbour, and what every key finds is unchanged |
| DashRun.Replay | src/core/dash.h:197-1194 | in any run of insertions, removals, lookups, promotions, stash unloads, merges and clears, with all splits and growth of the directory, every answer is the one of a plain map, the value of a duplicate being read at the position returned, or the refusal of a new key when at least as many keys as six buckets have slots for share with it the hash bits that the depth limit allows to tell apart; a run ends early only with an insertion whose split, or a merge whose entries, overfill a segment |
| DashRun.StuckIsLarge | src/core/dash.h:1127-1194 | which can happen only with more keys than the stash and two buckets have slots for |
| DashRun.FullIsNear | src/core/dash.h:1116-1132 | a segment that has reached a depth and has no room for a key is full of keys whose hashes begin with the same bits |
| DashRun.BothNoMoreThan | src/core/dash.h:228-304 | different segments hold different keys, so together no more than the table |
| DashTraverse.TokenPlace | src/core/dash_internal.h:716-753 | a cursor is a bucket number and a place in the 32-bit hash space |
| DashTraverse.GrowthKeepsAligned | src/core/dash_internal.h:733-741 | growth leaves a cursor at the beginning of a chunk |
| DashTraverse.Traverse | src/core/dash.h:1228-1261 | from any cursor a call goes on to the first place of the walk with something to report and reports all of it, each entry once; from a cursor at the beginning of a chunk this is exactly what lies between it and the cursor it returns; cursors stay below 2^40 |
| DashTraverse.CallCovers | src/core/dash.h:1228-1261 | from a cursor inside a chunk with no short segment behind it, a call reports exactly the entries between the beginnings of the chunks in which the two cursors stand |
| DashTraverseRun.CallForward | src/core/dash.h:1228-1261 | a call goes forward from any cursor |
| DashTraverseRun.RunAligned | src/core/dash.h:348-356 | while the table grows, changes its contents or merges twins of which the cursor does not stand at the upper, every cursor stands at the beginning of a chunk |
| DashTraverseRun.RunIsBounded | src/core/dash.h:348-356 | a traversal ends, whatever happens to the table |
| DashTraverseRun.RunReportsOnce | src/core/dash.h:348-356 | if at every call the cursor stands at the beginning of a chunk, a key that is in the table at every call of a finished traversal is reported by exactly one call |
| DashTraverseRun.MergeAlignment | src/core/dash.h:235-304 | a merge keeps a cursor at the beginning of a chunk exactly when it did not stand at the upper half |
| DashTraverseShrink.NextSegReaches | src/core/dash.h:310-313 | from any slot NextSeg reaches the following segment exactly when the slot's offset in its chunk is smaller than the following chunk |
| DashTraverseShrink.UpToShort | src/core/dash.h:1243-1258 | from any slot the walk comes to every segment of the row before the first short one, and behind it to what it would come to from the slot at the same distance from that one's beginning |
| DashTraverseShrink.ShortIsSkipped | src/core/dash.h:1243-1258 | the first short segment is not reached |
| DashTraverseShrink.PassesRestIff | src/core/dash.h:1243-1258 | the rest of the table is reached without exception exactly when no segment behind the cursor's in its row is short |
| DashTraverseShrink.RestReports | src/core/dash.h:348-356 | while the directory stays as it is, the rest of a traversal from any cursor reports a key that is there throughout exactly when the walk comes to its segment |
| DashTraverseShrink.OneChange | src/core/dash.h:348-356 | a finished traversal with one change of the directory, of any kind, reports a key that is there throughout exactly when the key lies before the cursor of that moment or ahead of it in the changed directory |
| DashTraverseShrink.ShrinkLoses | src/core/dash.h:348-356 | if the change leaves a short segment ahead of the cursor, no call reports a key of the first one in that bucket |
| DashTraverseShrink.ShrinkKeeps | src/core/dash.h:348-356 | if it leaves none, every key that is there throughout is reported |
| DashTraverseShrink.RunReports | src/core/dash.h:348-356 | with any number of changes that leave no short segment ahead and move the beginning of the cursor's chunk to no later place, every key that is there throughout is reported |
| DashTraverseShrink.MergeNotLater | src/core/dash.h:235-304 | a merge moves the beginning of no chunk to a later place |
| DashTraverseChanges.AnyChanges | src/core/dash.h:348-356 | whatever happens to the directory, a key that is there at every call of a finished traversal is reported unless a change between two calls takes it out of the cursor's way; if no change puts it back there, the converse holds too |
| DashTraverseShrink.LostKey | src/core/dash.h:348-356 | a finished traversal of three calls with one merge after the first; a key of the third segment is in the table at every call and reported by none |
| CuckooIndex.SameFingerprint | src/core/cuckoo.cc:26-29 | two hashes have one fingerprint exactly when they agree modulo 255 |
| CuckooIndex.AltReturns | src/core/cuckoo.cc:31-43 | taking the alternate of a reduced bucket index twice leads back |
| CuckooIndex.CandidateBelow | src/core/cuckoo.cc:229-257 | a bucket number of a larger sub-filter stands for the hash in every smaller one |
| CuckooIndex.CandidatesAgree | src/core/cuckoo.cc:135-155 | two hashes with one fingerprint that share a candidate bucket share both, in every smaller sub-filter too |
| CuckooKick.BackwardForward | src/core/cuckoo.cc:284-314 | a round of evictions taken back restores bytes, bucket, fingerprint and victim |
| Cuckoo.Filter.constructor | src/core/cuckoo.cc:47-60 | an empty filter; the number of buckets is the smallest power of two that is large enough; growth is enabled exactly for factors from 1 to 32768, which are rounded up by less than twice |
| Cuckoo.Filter.AddNewSubFilter | src/core/cuckoo.cc:209-227 | appends a sub-filter of zeros exactly when its bucket count is in range |
| Cuckoo.Filter.FindIn | src/core/cuckoo.cc:101-116 | finds the first slot with the byte in the first candidate bucket, or else in the other, or neither has it |
| Cuckoo.Filter.Exists | src/core/cuckoo.cc:101-116 | true for every item held; true exactly when an item is held that agrees with the hash modulo 255 and lies in one of its candidate buckets, so never if all items held differ from it modulo 255 |
| Cuckoo.Filter.HeldIsFound | src/core/cuckoo.cc:101-116 | an item held has its fingerprint in a candidate bucket |
| Cuckoo.Filter.FindsIff | src/core/cuckoo.cc:101-116 | a fingerprint is found exactly when such an item is held |
| Cuckoo.Filter.PlaceInVacant | src/core/cuckoo.cc:62-93 | adds the item exactly when some candidate bucket has an empty slot, in the first such slot of the newest sub-filter with one |
| Cuckoo.Filter.Evict | src/core/cuckoo.cc:284-314 | one round puts the item in hand into one of its buckets and takes another in hand that belongs to the next; no item is lost |
| Cuckoo.Filter.RollBack | src/core/cuckoo.cc:306-311 | restores the sub-filter byte for byte, for every iteration limit and bucket width |
| Cuckoo.Filter.KOInsert | src/core/cuckoo.cc:284-314 | succeeds exactly if some round arrives at a bucket with an empty slot, and leaves the bytes of the first such round with that slot filled; then one item more is held, each in one of its buckets; otherwise nothing has changed |
| Cuckoo.Filter.Insert | src/core/cuckoo.cc:62-93 | adds exactly the item: in the first empty slot, by the first round of evictions that finds one, or in a new sub-filter, in this order, with every byte accounted for; fails exactly when there is no empty slot, evictions lead nowhere and the filter cannot grow, and then nothing has changed |
| Cuckoo.Filter.InsertUnique | src/core/cuckoo.cc:95-99 | fails exactly when the item seems to be there, which is so exactly when one like it is held, or cannot be added; never adds an item that is held |
| Cuckoo.Filter.Delete | src/core/cuckoo.cc:135-155 | succeeds exactly when an item that agrees with the hash modulo 255 lies in one of its candidate buckets, and clears the first such slot of the newest sub-filter with one; deleting an item that is held leaves exactly the others held, whoever the slot belonged to |
| Cuckoo.Filter.RelocateSlot | src/core/cuckoo.cc:229-257 | empties the slot exactly when an earlier sub-filter has room, and then the byte is in the first slot for it of the oldest one; what is held does not change |
| Cuckoo.Filter.CompactSingleFilter | src/core/cuckoo.cc:259-274 | what is left in the sub-filter fits into no earlier one; only the newest is given up, and only if empty |
| Cuckoo.Filter.Compact | src/core/cuckoo.cc:276-282 | what is held does not change; the newest sub-filter left is the first or not empty; unless asked to go on, nothing in it fits into an earlier one, and if asked to, no later sub-filter holds anything that has an empty slot in the first |
| Cuckoo.Filter.NumItemsIsOccupied | src/core/cuckoo.cc:62-155 | the item counter is the number of non-empty slots |
| CuckooCount.Count | src/core/cuckoo.cc:118-133 | the matching slots plus those counted twice; never less than the copies held; equal to the matches exactly if no sub-filter with a match has a number of buckets that divides the fingerprint, and so with 256 buckets or more |
| CuckooIndex.CandidatesMeet | src/core/cuckoo.cc:33-48 | the two candidate buckets are one exactly when the number of buckets divides the fingerprint |
| CuckooCount.CountOfOne | src/core/cuckoo.h:47-51 | in a filter of one bucket an item added once is counted twice |
| CuckooRun.Replay | src/core/cuckoo.cc:62-314 | after any run in which only items believed present are removed, every removal succeeded, the counter is right, every item added and not removed is found, and whatever is found is like one of them: equal modulo 255 and in a candidate bucket of the hash |
| DenseSet.Set.Delete | src/core/dense_set.cc:747-783 | removes exactly that entry from its chain |
| DenseSet.Set.ExpireIfNeeded | src/core/dense_set.cc:975-999 | removes the due entries at a position and nothing else |
| DenseSet.Set.Find2 | src/core/dense_set.cc:692-745 | finds a live entry of the key, at home or displaced; if none is found, the table has none any more |
| DenseSet.Set.PushFront | src/core/dense_set.cc:129-181 | adds the entry to a bucket that hosts no displaced one, and raises the TTL flags as the source does |
| DenseRehash.Destination | src/core/dense_set.cc:496-591 | during Grow an entry goes to a bucket that has been dealt with, or from the first to the first |
| DenseSet.Set.GrowBucket | src/core/dense_set.cc:517-586 | the bucket ends up with entries at home only, all others are at home in buckets dealt with before; only due entries go |
| DenseSet.Set.Grow | src/core/dense_set.cc:496-591 | rebuilds the table in place for the larger capacity; due entries go, all but one that was displaced into the first bucket, and nothing else does |
| DenseSet.Set.Reserve | src/core/dense_set.cc:389-399 | at least as many buckets as asked for: the least power of two that is enough, at least 4, unless there are as many already; nothing but due entries goes |
| DenseRehash.ShrinkDestination | src/core/dense_set.cc:435-458 | during Shrink an entry goes to a bucket that has been dealt with |
| DenseSet.Set.ShrinkBucket | src/core/dense_set.cc:401-433 | settles one bucket for the smaller capacity; only due entries go |
| DenseSet.Set.Shrink | src/core/dense_set.cc:435-458 | rebuilds the table in place for the smaller capacity; exactly the due entries go |
| DenseSet.Set.FindEmptyAround | src/core/dense_set.cc:361-387 | the home bucket, the next or the previous one, the first of these that is empty; otherwise none of them is |
| DenseSet.Set.Cascade | src/core/dense_set.cc:670-676 | displaced entries go home in turn; it ends because each turn leaves one displaced entry less, and no entry is lost |
| DenseSet.Set.AddUnique | src/core/dense_set.cc:594-685 | the entry is added, and nothing but due entries goes; it gets a bucket of its own, without growth, if its home bucket or one next to it is empty; the table is doubled at most twice and only while it has as many entries as buckets, and if the entry has to share its bucket there are as many buckets as entries or it has been doubled twice |
| DenseSet.Set.Find | src/core/dense_set.cc:692-745 | a key is found exactly when it is stored and not due |
| DenseSet.Set.AddOrReplace | src/core/dense_set.cc:846-875 | puts the entry in the place of a live one of its key, or adds it if there is none |
| DenseSet.Set.Erase | src/core/dense_set.h:420-427 | removes the live entry of the key, and reports it exactly if there is one |
| DenseSet.Set.SetExpiryTime | src/core/dense_set.cc:53-88 | changes only the TTL of a live entry, and raises both flags |
| DenseSet.Set.ClearStep | src/core/dense_set.cc:203-241 | empties exactly the buckets of the range; the array and the flag go with the last entry |
| DenseReaper.ReaperStepHasDue | src/core/dense_set.h:290-311 | with a non-zero clock, true exactly when the next step of this budget has something to delete |
| DenseReaper.ReapBucket | src/core/dense_set.h:347-388 | a chain keeps exactly its live entries, and a TTL that stays is noted |
| DenseReaper.ReaperExpireStep | src/core/dense_set.h:321-398 | deletes every due entry of its window and nothing else, and touches no other bucket; returns true exactly at the end of a pass that has met no TTL, and then no entry has one; cursor and flags are left as the next step needs them |
| DenseReaper.WholePass | src/core/dense_set.h:310-398 | steps of any size make a pass: it leaves nothing that is due, and is clean exactly when nothing left has a TTL |
| DenseReaper.ReaperClearMemberExpiration | src/core/dense_set.h:404-406 | after such a pass the flag may be cleared |
| DenseReaper.PeekThenStep | src/core/dense_set.h:290-398 | the peek foretells exactly whether the step deletes |
| DenseRun.Replay | src/core/dense_set.cc:53-999 | in any run of insertions, replacements, removals, lookups, TTL changes, resizes, reaper steps, clears and ticks of the clock, every answer is the one of a plain map with TTLs, also after a clean pass has dropped the TTL flag |
| TtlMap.Lifetime | src/core/dense_set.cc:414-424 | in the map these runs are compared with, an entry that was put is seen as long as nothing else happens to its key, and if it has a TTL as long as the clock is before its expiry |
| TtlMap.OfferedLifetime | src/core/oah_table.h:905-907 | one that is offered replaces only what was not seen, and then is seen as long |
| TtlMap.ExpiryCounts | src/core/oah_table.h:905-907 | a new expiry counts for an entry that was seen, and does not bring back one that was not |
| TtlMap.GoneStaysGone | src/core/dense_set.h:420-427 | one that was removed or cleared away is not seen again until it is put again |
| Keys.BucketIdIs | src/core/dense_set.h:494-497 | the hashes of a bucket are one interval, and the buckets part the range of hashes in order |
| DenseScan.NoItemBelongsBucket | src/core/dense_set.cc:335-359 | true exactly when no entry is at home in the bucket |
| DenseScan.ScanHome | src/core/dense_set.cc:913-956 | reports exactly the entries at home in the bucket, each once, displaced ones included, and none that is due |
| DenseScan.Scan | src/core/dense_set.cc:892-959 | one call goes forward and reports every entry between its cursor and the one it returns; what it reports are the entries of one bucket, each once |
| DenseScan.IndexBehindEnd | src/core/dense_set.cc:892-913 | a set that has given up its array and kept its capacity, and a cursor for which the index is past the end without being equal to it |
| ScanRun.RunReports | src/core/dense_set.cc:877-890 | a key that is in the table at every call of a finished scan has been reported, however often the table was resized in between |
| ScanRun.RunIsBounded | src/core/dense_set.cc:877-890 | a scan takes at most 2^32 calls |
| OahLayout.AddedOk | src/core/oah_ptr.h:65-99 | putting an entry into an empty slot of its window, or into the vector at its extension point, keeps the layout, also when that promotes a single entry of another bucket |
| OahLayout.TagIsHome | src/core/oah_table.h:875-883 | the leading bits of the cached hash are the low bits of the bucket number, also where zero is replaced by one |
| OahLayout.TagIsBits | src/core/oah_table.h:875-883 | the cached hash is the twelve bits of the hash behind the first ones, which leave out all but the last four of the bucket number, except that one stands for zero |
| OahLayout.SameBucket | src/core/oah_table.h:715-744 | two buckets that reach one slot and agree on those bits are the same |
| OahTable.Table.Locate | src/core/oah_table.h:840-873 | a key that is met neither in the window nor in the extension vector is not stored |
| OahTable.Table.FindEmptyAround | src/core/oah_table.h:622-636 | the first empty slot of the window, or the extension point if there is none |
| OahTable.MoveUp | src/core/oah_table.h:542-565 | behind the first 31 slots an entry's new bucket lies strictly behind its old slot |
| OahTable.Table.Redistribute | src/core/oah_table.h:567-579 | re-inserts the entries of a slot, none of them below a bound |
| OahTable.Table.Rehash | src/core/oah_table.h:541-565 | re-establishes the layout in place for a larger capacity; no entry is processed twice or lost |
| OahTable.Table.GrowCapacity | src/core/oah_table.cc:80-92 | the least power of two that is enough, at least 2, unless there are as many slots already; nothing is lost |
| OahTable.Table.TryGrow | src/core/oah_table.h:508-518 | grows exactly when there are twice as many entries as slots, to the least power of two above half of them; nothing is lost |
| OahTable.Table.ShrinkBucket | src/core/oah_table.h:581-611 | settles one slot; entries land in slots dealt with or still to come, and only due ones go |
| OahTable.Table.Shrink | src/core/oah_table.cc:16-32 | restores the layout in place for the least power of two that holds half of the entries and the size asked for, unless there are no more slots; then exactly the due entries go |
| OahTable.Table.Find | src/core/oah_table.h:840-873 | a key is found exactly when it is stored and not due |
| OahTable.Table.Erase | src/core/oah_table.h:257-301 | the key is gone; reports an entry exactly if it was live, and takes nothing else |
| OahTable.Table.Add | src/core/oah_map.h:153-220 | keeps or replaces a live entry of the key, or adds one if there is none; grows beforehand exactly when there are twice as many entries as slots |
| OahTable.Table.AddNew | src/core/oah_set.h:109-116 | adds exactly the entry, in the first empty slot of its window or else the extension vector, and changes no other slot |
| OahTable.Table.SetExpiryTime | src/core/oah_table.h:65-75 | changes only the TTL of a live entry, and raises both flags |
| OahTable.Table.ClearStep | src/core/oah_table.cc:44-72 | empties exactly the slots of the range; the flag falls with the last entry |
| OahTable.Table.Clear | src/core/oah_table.cc:34-42 | leaves nothing |
| OahScan.AffiliatedIsHome | src/core/oah_table.h:715-744 | in a slot the bucket reaches, the cached hash tells exactly which entries belong to it |
| OahScan.ScanHomeBucket | src/core/oah_table.h:746-804 | reports exactly the entries at home in the bucket, each once; if asked to, it removes the due ones among them first, and no other entry |
| OahScan.Scan | src/core/oah_table.h:238-255 | one call goes forward and reports every entry between its cursor and the one it returns; what it reports are the entries of one bucket, each once |
| OahScan.ReaperStepHasDue | src/core/oah_table.h:450-465 | with a non-zero clock, true exactly when the next step of this budget has something to delete; changes nothing |
| OahScan.ReaperExpireStep | src/core/oah_table.h:467-493 | deletes every due entry of its window and nothing else; returns true exactly at the end of a pass that has met no TTL, and then no entry has one, across any resizes between the steps; cursor and flag are left as the next step needs them |
| OahScan.WholePass | src/core/oah_table.h:467-493 | steps of any size make a pass: it leaves nothing that is due, and is clean exactly when nothing left has a TTL |
| OahScan.ReaperClearMemberExpiration | src/core/oah_table.h:495-500 | after such a pass the flag may be cleared |
| OahRun.Replay | src/core/oah_table.h:238-890 | in any run of insertions, replacements, removals, lookups, TTL changes, resizes, reaper steps, clears and ticks of the clock, every answer is the one of a plain map with TTLs, also after a clean pass has dropped the TTL flag |
| PinProtocol.StepKeeps | src/core/compact_object.cc:425-502 | every step of the owner and of other threads keeps the invariant: counts are the live handles, pinned buffers are allocated, every buffer has an owner or is an orphan, none is freed twice; and every handle goes on seeing the bytes it was given unless the step is a write by index that changes a string with a reader |
| PinProtocol.SetBytesReadable | src/core/compact_object.cc:1617-1672 | a write by index leaves what the handles see alone exactly when it changes nothing or the string has no reader |
| PinProtocol.ClearBitIsSafe | src/core/compact_object.h:101-103 | which is so if the string's read_pending bit is clear |
| PinProtocol.SetByteSpoilsView | src/core/compact_object.cc:1643-1650 | a run of three steps at the end of which a live handle no longer sees the byte it was given |
| PinProtocol.ReleaseKeeps | src/core/compact_object.cc:617-630 | a string can give up its buffer at any time, also one with a stale bit |
| PinProtocol.InPlaceKeeps | src/core/compact_object.cc:641-660 | SetString writes a string in place only when nobody reads it |
| PinProtocol.StepValue | src/core/compact_object.cc:617-698 | SetString makes the value of its string exactly the bytes given, a write by index patches it, freeing leaves none; no other step changes the value of any string |
| PinProtocol.RunValue | src/core/compact_object.cc:425-698 | in every state of every run a string reads what its last write, with the patches since, gave it |
| PinProtocol.LastWriteStays | src/core/compact_object.cc:641-660 | and so exactly the bytes of the last SetString if nothing has written to it since |
| PinProtocol.BorrowReads | src/core/compact_object.cc:1212-1227 | a borrow is given the value of its string |
| PinProtocol.RelocateIsRefill | src/core/compact_object.cc:682-698 | moving an unpinned string is the same as freeing it and filling it anew |
| PinProtocol.BorrowKeeps | src/core/compact_object.cc:1212-1227 | a borrow may join a pin that is in use, has no reader left, or does not exist |
| PinProtocol.UnpinKeeps | src/common/borrowed_string.h:140-143 | an unpin from any thread at any time keeps the invariant, so the count it lowers was not zero |
| PinProtocol.MoveKeeps | src/common/borrowed_string.h:76-80 | moving a handle takes its pin along |
| PinProtocol.DrainKeeps | src/core/compact_object.cc:487-502 | a pin is dropped only when no handle is left, and an orphaned buffer with it |
| PinProtocol.RunInv | src/core/compact_object.cc:438-445 | the invariant holds in every state of every interleaving, writes by index included |
| PinProtocol.HandlesArePinned | src/core/compact_object.cc:438-445 | in every run a live handle points to an allocated buffer that is long enough, and the count of its pin is the number of live handles |
| PinProtocol.HandlesAreSafe | src/core/compact_object.h:256-259 | in every run whose writes by index change no string with a reader, every live handle sees the bytes it was given; the first write that does ends this |
| PinProtocol.ViewIsFixed | src/common/borrowed_string.h:40-85 | no step changes what a handle was given while it lives |
| PinProtocol.NeverFreedTwice | src/core/compact_object.cc:487-502 | in every run no allocation is freed twice, and none that is still in the heap was freed |
| PinProtocol.OrphanGoesByDrain | src/core/compact_object.cc:479-502 | an orphaned buffer is freed by a drain after its last unpin and by nothing else |
| PinProtocol.DrainAll | src/core/compact_object.cc:487-502 | without handles, draining every pin leaves exactly the buffers of the strings |
| Glob.StarMatches | src/core/glob_matcher.cc:23-51 | in the language of patterns a star stands for any stretch of the string |
| Glob.MatchClass | src/core/glob_matcher.cc:56-116 | the loop over a bracket expression decides membership in the class it denotes and finds its end, for unclosed, negated, escaped and reversed ones too |
| Glob.RangeMatches | src/core/glob_matcher.cc:79-96 | a range, the ends in either order, matches exactly the characters from the lesser to the greater, both included |
| Glob.NegatedRangeMatches | src/core/glob_matcher.cc:56-116 | with a caret exactly the others |
| Glob.LetterRangeMatches | src/core/glob_matcher.cc:79-96 | without regard to case exactly the letters of both cases in the range |
| Glob.ClassMatches | src/core/glob_matcher.cc:56-116 | a class of ordinary characters matches exactly these, in both cases if case does not matter |
| Glob.UnclosedMatches | src/core/glob_matcher.cc:56-116 | a class without its closing bracket ends with the pattern |
| Glob.EscapedInClass | src/core/glob_matcher.cc:68-72 | an escaped character of a class stands for itself alone |
| Glob.LiteralMatches | src/core/glob_matcher.cc:123-134 | a pattern of ordinary characters matches exactly the equal string, up to case if case does not matter |
| Glob.EscapedMatches | src/core/glob_matcher.cc:117-134 | so does one in which every character, special ones included, is escaped |
| Glob.QuestionsMatch | src/core/glob_matcher.cc:52-55 | question marks match exactly the strings of their number |
| Glob.MatchStar | src/core/glob_matcher.cc:23-51 | a match is right; within the nesting limit the answer is exact, and the search is cut short only when no later start can match |
| Glob.MatchFrom | src/core/glob_matcher.cc:14-148 | the same for a whole pattern |
| Glob.EmptyMatches | src/core/glob_matcher.cc:14-148 | the empty string is in the language of exactly the patterns of stars |
| Glob.StringMatch | src/core/glob_matcher.cc:150-154 | decides the language of every pattern with at most 1000 runs of stars, except that the empty string is rejected for a non-empty pattern of stars |
| Glob.StarRefusesEmpty | src/core/glob_matcher.cc:150-154 | a single star is such a pattern |
| LittleEndian.ValueOfBytes | src/core/bloom.cc:50-60 | reading back a stored field gives its value |
| LittleEndian.ValueTells | src/core/bloom.cc:50-60 | fields of one width with one value are equal |
| Bloom.ParseMeta | src/core/bloom.cc:266-278 | the metadata of a filter reads back as written |
| Bloom.DumpIterator.constructor | src/core/bloom.cc:287-290 | an iterator may start from any signed 64-bit cursor, and stands where the cursor says, a negative one behind all filters |
| Bloom.DumpIterator.ResolveCursorToPos | src/core/bloom.cc:368-388 | the loop finds the filter and offset the cursor stands for |
| Bloom.DumpIterator.Next | src/core/bloom.cc:320-356 | the chunk depends only on the filter and the cursor, so a restarted dump goes on with the same chunks; from a negative cursor there is none |
| Bloom.NextPosition | src/core/bloom.cc:295-318 | a chunk is not empty, not longer than the limit and stays in its filter, and its end is where the next begins |
| Bloom.LoadHeader | src/core/bloom.cc:390-411 | accepts exactly a header of the right size and version with a finite growth factor of at least 1, and tells the errors apart |
| Bloom.SingleBitIsPower | src/core/bloom.cc:426-427 | the lengths accepted for the data of a filter are exactly the powers of two |
| Bloom.Target.AddNewFilter | src/core/bloom.cc:413-449 | a chunk opens a filter with its payload and zeros exactly when its metadata is valid and the payload not too long, and otherwise changes nothing and says which of the three was wrong |
| Bloom.Target.LoadChunk | src/core/bloom.cc:451-482 | a chunk is written where its cursor says exactly if that lies in the data of one filter, or opens the next filter exactly if it stands behind the last; anything else changes nothing and is out of range |
| Bloom.RoundTrip | src/core/bloom.cc:287-482 | loading every chunk of a dump rebuilds every byte and the scalar state, for any limit above 44 bytes |
| ExtentTree.Tree.Add | src/core/extent_tree.cc:14-53 | exactly the range becomes free; both indexes list the same extents, which neither overlap nor touch |
| ExtentTree.Tree.GetRange | src/core/extent_tree.cc:55-113 | takes exactly an aligned range, from the shortest extent that has room for one; fails exactly if no extent has, and then no aligned range of that length is free; the extents stay apart unless the range is empty and inside one |
| ExtentTree.CutApart | src/core/extent_tree.cc:94-108 | taking a range out of an extent leaves extents that do not touch exactly when the range is not empty or lies at an end |
| ExtentTree.EmptyRequestTouches | src/core/extent_tree.cc:55-113 | a request for nothing, aligned to 2, in the extent [1, 5) |
| ExtentTree.InOneExtent | src/core/extent_tree.cc:55-113 | a stretch of free space lies in one extent |
| Rapidhash.MumPortable | src/common/rapidhash.h:186-198 | the four half-word products with their carries are the exact 128-bit product |
| Rapidhash.LoopCompact | src/common/rapidhash.h:306-317 | the compact loop takes 112 bytes a round while more are left |
| Rapidhash.LoopUnrolled | src/common/rapidhash.h:318-348 | the unrolled loop arrives at the same lanes and leaves the same rest |
| Rapidhash.RapidHash | src/common/rapidhash.h:278-381 | both builds compute the same function for every key and seed, and read only bytes of the key |
| Rapidhash.RoundsByLane | src/common/rapidhash.h:306-348 | in a long key block number j of every 112 bytes enters lane j and no other, in order |
| Rapidhash.TailByBlock | src/common/rapidhash.h:356-373 | and each whole block of the rest is mixed in once, in order |
| Rapidhash.FoldSees | src/common/rapidhash.h:349-354 | the lanes folded together differ whenever exactly one of them does |
| Rapidhash.ShortKeysTold | src/common/rapidhash.h:284-300 | the two words read from a key of at most 16 bytes determine it |
| DictBuilder.Slide | src/core/dict_builder.cc:90-94 | dropping the first d-mer and adding the next gives the score of the next window |
| DictBuilder.FindBestSegment | src/core/dict_builder.cc:66-104 | the result is the first window of the highest score over all pieces, although scores are only updated, not summed |
| DictBuilder.Populate | src/core/dict_builder.cc:44-59 | every cell is the number of d-mers that fall into it, but at most 65535 |
| DictBuilder.TableSize | src/core/dict_builder.cc:35-42 | the number of cells is the least power of two that is not below the length of the samples, but at least 2^10 and at most 2^24 |
| DictBuilder.HashIsMiddle | src/core/dict_builder.cc:24-32 | the hash of a d-mer is the upper 32 of the lower 48 bits of its value times the multiplier |
| DictBuilder.DmersToldApart | src/core/dict_builder.cc:24-32 | with the 16 bits below it, it determines the d-mer |
| DictBuilder.ZeroOut | src/core/dict_builder.cc:106-114 | exactly the cells of the window's d-mers become zero |
| DictBuilder.WithoutFacts | src/core/dict_builder.cc:106-114 | then the window is worth nothing, and no count has grown |
| DictBuilder.Train | src/core/dict_builder.cc:146-180 | each window is the first of the best by what the earlier ones have left of the histogram; scores never increase, no window is chosen twice; the dictionary is their concatenation cut off at its size, and short only if no window is worth anything |

## Left out

- DashSplit.Split: the source asserts that every entry that moves finds room in the new segment; the model reports the opposite case and says when it arises, but not in what state the segments are then left.
- DashTable.Table.Split: what a split that finds no room leaves behind is not described, as for `DashSplit.Split`.
- DashTable.Table.MakeRoom: the policy is a limit on the depth of segments.
- DashTable.Table.Insert: the eviction and garbage collection hooks of the policy are not modelled; the policy is a limit on the depth of segments.
- DashTable.Table.Merge: a merge that is rolled back is described only by when it happens; the rollback frees stash slots without dropping their references, which is outside the segment's invariant.
- DashTable.Table.Clear: the number that each segment keeps of its own place in the directory is not part of the state.
- DashTraverse.Traverse: the directory has fewer than 32 bits of depth and a segment at most 255 buckets, as the fields of the cursor allow.
- DashTraverseChanges.AnyChanges: of a traversal in which a change puts a key that was left behind into the cursor's way again, it says only when the key must have been reported.
- DashSegment.Segment.BumpUp: what the policy answers for the leftover key of a free slot is one parameter for the whole call.
- DashSegment.Segment.constructor: a segment has at least two regular buckets, so that a bucket and its neighbour differ.
- Bucket versions, move notifications, prefetching and memory counters are not modelled; a mask of vector lanes is a predicate on slots.
- Cuckoo.Filter.constructor: demands a bucket count that the first sub-filter can have; the source constructs a filter without sub-filters otherwise. Allocation failures and loading from a snapshot are not modelled.
- Cuckoo.Filter.Delete: for a hash that is not held, which of the items like it goes is not said.
- DenseSet.Set.AddUnique: demands that two doublings still fit into 32-bit bucket numbers.
- DenseSet.Set.AddOrReplace: demands the same.
- DenseScan.Scan: a set whose array has been given up is scanned only from cursors that fall into bucket 0, because the source indexes the array for any other (`DenseScan.IndexBehindEnd`).
- OahTable.Table.Add: the size is below 2^31, which the 32-bit bucket numbers of the source demand.
- Chains and vectors are sequences: links, tags in pointers, holes in a vector and the order in which holes are used again are not modelled.
- DenseRun.Replay: an insertion that might need more than 2^32 buckets ends the run; so does clearing 2^32 buckets, a number that the source takes modulo 2^32.
- OahRun.Replay: an insertion into a table of 2^31 entries ends the run.
- DashRun.Replay: the run ends with a split or merge that overfills a segment; what such a call leaves behind is not described.
- The iterators, random members, batched cloning and the keep-TTL option of the string containers would add easy members.
- PinProtocol.StepKeeps: the count does not wrap around; AppendString, which the source forbids on a pinned string, is not a step; how an ASCII character is packed into the bytes that a write by index replaces is not modelled.
- Glob.MatchFrom: beyond the nesting limit a negative answer may be wrong. The matcher reads the byte behind the pattern, which is demanded not to be a star. Translation of globs to regular expressions is not modelled.
- Bloom.RoundTrip: hashing items into filter bits and the choice of capacities and error rates are not modelled; a double is its bit pattern.
- Bloom.DumpIterator.constructor: for a negative cursor the dump is demanded to be shorter than 2^63 bytes.
- ExtentTree.Tree.GetRange: the two ordered containers are a map and a set with searches for neighbours.
- Rapidhash.RapidHash: the protected variant, big-endian reads and the two smaller hash functions of the header are not modelled.
- DictBuilder.Train: the estimate of compressibility is not modelled.
- The B+ tree set, the quick list, Huffman coding and ASCII packing are not modelled.
