# Pogocache: a verified model

Pogocache is a sharded in-memory cache server. This project models the parts of it whose
correctness is hard to see from the code and proves what they are for:

- **The cache engine** (`RobinHood`, `Tables`, `Sweeps`, `Evictions`, `Shards`): a shard is an open-addressed Robin Hood
  table that swaps, shifts and rehashes in place. `Table` and `Shard` are classes over the bucket
  array; every method is proved against the map of stored entries. The functions of `CacheSpec` say
  what an operation does to that map, dead entries included.
- **Whole runs of a shard** (`CacheRuns`, `CacheLaws`): the lazily cleaned shard cannot be told
  from a plain map that drops entries the instant they die; versions are never reused, so
  compare-and-store is safe; the O(1) clear keeps an exact count.
- **8-bit probe distances** (`NarrowDib`, `NarrowRuns`): when the packed bucket behaves like the
  unbounded one, for one insertion, for a rehash and over whole runs.
- **Batches** (`Batch`, `BatchAtomic`, `BatchLocks`, `Increments`): the spin locks and the linked list of
  a batch as a state machine in which a step is one access to shared memory; every interleaving is
  serial, locks are held exactly while they are needed, and counters lose no increment whatever else
  goes on.
- **LZ4** (`Lz4Format`, `Lz4Spec`, `Lz4Copy`, `Lz4Decoder`, `Lz4Compressor`): the compressor and the
  wide-copy decoder work on arrays; both are proved against a byte-wise meaning of blocks.
- **Persistence** (`Varint`, `Snapshot`, `Restart`, `Persist`, `Loader`): what is written, read back, and
  in the cache after a restart, from shard objects to shard contents, and the pool of loading threads.
- **Records** (`Sixpack`, `Record`): key packing, its order, and the record layout.
- **Connections** (`Resp`, `Conn`, `EventLoop`): incremental parsing over packet splits, the
  hand-off of connections between the event loop and background threads, and that every report is
  answered and every reply sent.
- **Key patterns** (`Glob`): the matcher of the KEYS command.

`dafny verify dfyconfig.toml` checks everything. Hash functions, checksums, callbacks, clocks and
allocation outcomes are parameters, and the theorems hold for all of them.

## Where the code does less than one would hope

Each of these has a concrete input, or a whole family of them, and an exact condition.

- A clear at the very instant of an entry's last access leaves that entry visible but counts it as
  cleared (`CacheLaws.ClearSameInstant`); `ClearAccounts` gives the condition.
- A probe distance of 256 wraps to 0 and loses the entry: `NarrowDib.LostAt256` for every table of 255
  keys of one home slot that is not due to grow. `NarrowRuns.RunAgrees` says that the 8-bit table
  follows the unbounded one exactly as long as no stored distance of the latter reaches 256.
- `kept` of a sweep exceeds the number of live entries by exactly the number of deletions whose shift
  wraps past the last bucket (`Sweeps.Wraps`). That happens if and only if, in the table before the
  sweep, some live entry went round the end of the array when it was stored and some dead one sits at or
  after the last slot that is empty or holds an entry at home (`Shards.Shard.SweepOp`,
  `Sweeps.WrapsIff`). `Sweeps.CountedTwice` is an input: one live entry, counted as two.
- A snapshot item due at the very instant it is loaded never expires (`Restart.LoadedWhenDue`);
  `ExpiryKept` gives the condition.
- A shard is saved so that it can be loaded again if and only if its block is at most
  LZ4_MAX_INPUT_SIZE bytes long (`Snapshot.LoadableIff`). Above that, only the bytes up to the length
  modulo 2^32 count: the file is accepted, with the entries before the cut and without an error, if and
  only if those are within the limit and end at the end of an entry (`Restart.SilentlyCut`).
  `Restart.EightItemsLost` is an input: eight entries of 2^29 bytes, which clients may store, at the end
  of any shard.
- Packet boundaries matter for a RESP command exactly if one of its number fields is longer than 32
  bytes, or is empty with nothing but white space or a sign behind it (`Resp.StableIffFirm`,
  `Conn.NotFirmTells`; inputs at `Conn.LongNumber` and `Conn.EmptyNumber`). In the second case the
  number also depends on the memory behind the buffer (`Resp.MemoryMatters`).
- A pattern with more than 127 star runs before its last token matches nothing, not even the strings
  it means (`Glob.DeepPattern`); `MatchKey` is exact below.
- If the thread for background work cannot be created, the error is not noticed: a connection in
  background mode can come back if and only if its thread was created (`EventLoop.ComesBackIff`), and
  otherwise nothing ever changes it (`EventLoop.StrandedForever`). `EventLoop.StrandedReached` is a run
  that leads there. The code then also calls pthread_detach on a thread handle that was never set
  (src/net.c:1218-1220), which is undefined; the model lets the program go on.

## Model

| member | source | states |
|---|---|---|
| `RobinHood.Chain` | src/pogocache.c:898-904 | probe distances fall by at most one per slot going left, so a distance is bounded by any earlier one plus the steps between |
| `RobinHood.EmptySlot` | src/pogocache.c:868-881 | a table with fewer entries than buckets has an empty bucket, which every probe loop will meet |
| `RobinHood.OnPath` | src/pogocache.c:921-936 | every slot from a stored key's home up to the key is at least as displaced as the key would be there: no empty slot and no swap comes first |
| `RobinHood.Locate` | src/pogocache.c:921-936 | a stored key sits in exactly one slot, with its clipped hash and 1 plus the cyclic distance from its home |
| `RobinHood.CarryIntoEmpty` | src/pogocache.c:881-888 | putting the entry in hand into an empty slot completes the invariant for the map with that entry |
| `RobinHood.CarryPast` | src/pogocache.c:898-904 | moving on past a bucket at least as displaced keeps the entry in hand insertable |
| `RobinHood.CarrySwap` | src/pogocache.c:898-904 | swapping with a less displaced bucket keeps the invariant, the displaced entry now being in hand |
| `RobinHood.ProbeAhead` | src/pogocache.c:880-905 | while a key is stored no slot before it is empty or invites a swap: an existing key is met before any displacement |
| `RobinHood.ProbeMatch` | src/pogocache.c:889-897 | the slot with an equal key holds the old entry, and replacing it there gives the table of the updated map |
| `RobinHood.ProbeSwap` | src/pogocache.c:898-904 | a swap proves that the key being inserted was not stored, so no duplicate can appear |
| `RobinHood.OpenHole` | src/pogocache.c:948-952 | emptying a bucket leaves a table with one hole that holds the map without that key |
| `RobinHood.MoveHole` | src/pogocache.c:951-958 | one backward shift moves the hole right and keeps every other part of the invariant |
| `RobinHood.CloseHole` | src/pogocache.c:953-956 | when the next bucket is empty or at home the hole is a legal empty slot |
| `RobinHood.BehindScan` | src/pogocache.c:1686-1692 | deleting at slot i brings nothing new into the slots before i, even if the shift wraps around |
| `RobinHood.BehindKeys` | src/pogocache.c:1850-1866 | a deletion at slot i takes a key away from the slots before i exactly if its shift wraps and takes the one of slot 0 |
| `RobinHood.HomeStops` | src/pogocache.c:948-961 | no shift wraps while the first bucket is empty or at home, and a deletion keeps it so |
| `Tables.LoadBounds` | src/pogocache.c:812-819 | growat stays below the number of buckets and above 55 percent of it |
| `Tables.HalfFits` | src/pogocache.c:963-992 | halving a table at its shrink threshold leaves room below the new growat |
| `Tables.Probe` | src/pogocache.c:876-906 | the insert loop terminates with the table of m[key := entry] and returns exactly the replaced entry |
| `Tables.Rehash` | src/pogocache.c:836-851 | re-inserting every bucket into an empty array gives a table of the same map |
| `Tables.Unlink` | src/pogocache.c:948-961 | backward-shift deletion leaves a table of the map without the key, and each bucket is where it was or one slot to the left |
| `Tables.FitCap` | src/pogocache.c:974-992 | the multi-step shrink finds the least doubling of the initial size that holds the entries below growat |
| `Tables.Table.constructor` | src/pogocache.c:812-828 | an empty valid table of the initial size |
| `Tables.Table.GetBucket` | src/pogocache.c:921-936 | -1 exactly for keys not stored, otherwise the slot of the key |
| `Tables.Table.DelBkt` | src/pogocache.c:948-961 | removes exactly the entry at a slot and counts it |
| `Tables.Table.Resize` | src/pogocache.c:830-862 | keeps the map and the count; a failed allocation changes nothing |
| `Tables.Table.Insert` | src/pogocache.c:864-906 | fails only if the table is full to growat and cannot grow; otherwise updates the map and returns the old entry, after which there is room below growat; the buckets double exactly if the table was full |
| `Tables.Table.Delete` | src/pogocache.c:1005-1019 | removes the key, returns exactly the entry it had, and leaves room for a put-back |
| `Tables.Table.TryShrink` | src/pogocache.c:963-993 | both forms keep the map; a sparse table is halved, or in the multi-step form brought to the least size that holds its entries, after which it is not sparse, and any other table or a failed allocation leaves the buckets alone |
| `NarrowDib.NarrowAgrees` | src/pogocache.c:672-676 | inserting with w-valued distances gives the same buckets as unbounded ones if and only if no distance on the way reaches w |
| `NarrowDib.NarrowInserts` | src/pogocache.c:864-906 | below its width a narrow insert yields the table of the updated map |
| `NarrowDib.HomeRun` | src/pogocache.c:880-905 | a table whose keys all have one home slot is a single run of buckets with distances 1, 2, 3 and so on |
| `NarrowDib.LostAt256` | src/pogocache.c:864-906 | in every table of 255 keys of one home slot, at any slot, of a size at which it is not due to grow, an 8-bit insert of another key of that home loses it |
| `NarrowDib.CrowdedTable` | src/pogocache.c:864-906 | such tables exist for any keys whose hashes are multiples of the number of buckets |
| `NarrowRuns.InsertAgrees` | src/pogocache.c:864-906 | an insert of a new or a stored key gives the unbounded result if and only if that stores no distance of w or more |
| `NarrowRuns.RebuildAgrees` | src/pogocache.c:830-862 | so does a rehash into any number of buckets |
| `NarrowRuns.RunAgrees` | src/pogocache.c:830-961 | over every run of insertions, deletions and rehashes the narrow table is the unbounded one after every change, and a table of the right map, if and only if no stored distance of the unbounded one reaches the width |
| `Shards.Shard.LoadOp` | src/pogocache.c:1345-1406 | result, entry shown, touch, in-callback update and lazy removal are those of CacheSpec.Load |
| `Shards.Shard.DeleteOp` | src/pogocache.c:1416-1473 | result and state are those of CacheSpec.Delete, a vetoed entry being put back |
| `Shards.Shard.StoreOp` | src/pogocache.c:1483-1627 | result and state are those of CacheSpec.Store under NX, XX, CAS, KEEPTTL, veto, failed allocation and low memory; a new key under low memory evicts exactly the entry that Evictions.Victim names in the table with the new entry, which is never the one just stored unless that is dead already |
| `Shards.Shard.PutBack` | src/pogocache.c:1562-1574 | putting a replaced entry back restores it without allocating and cannot fail |
| `Evictions.DeadGoes` | src/pogocache.c:1058-1070 | in the order of the scan, the first dead entry goes if at most one live candidate comes before it |
| `Evictions.OlderGoes` | src/pogocache.c:1071-1089 | if the first two candidates are alive and of another hash, the one used longer ago goes, the second one on a tie |
| `Evictions.OnlyGoes` | src/pogocache.c:1076-1089 | a single candidate goes |
| `Evictions.NothingGoes` | src/pogocache.c:1058-1075 | nothing goes if and only if every slot of the scan is empty or holds a live entry of the same hash |
| `Evictions.SomethingGoes` | src/pogocache.c:1058-1075 | something goes whenever two stored entries are dead or of another hash, since the scan leaves out one slot only |
| `Shards.Shard.PickVictim` | src/pogocache.c:1051-1089 | the scanning loop finds the entry that Evictions.Victim names |
| `Shards.Shard.AutoEvict` | src/pogocache.c:1051-1091 | removes exactly the entry that Evictions.Victim names in the buckets before the call, or nothing if it names none |
| `Shards.Shard.ClearOp` | src/pogocache.c:1912-1921 | a clear only moves the clear time and the clear count |
| `Shards.Shard.CountOp` | src/pogocache.c:1734-1738 | the stored entries less the clear count |
| `Sweeps.WrapsIff` | src/pogocache.c:1829-1876 | a sweep counts some entry twice if and only if a live entry went round the end of the array and a dead one sits at or after the last slot that is empty or at home |
| `Sweeps.CalmNoWraps` | src/pogocache.c:948-961 | it counts none twice while the first bucket is empty or at home |
| `Sweeps.CountedTwice` | src/pogocache.c:1829-1876 | in a table of a dead and a live key whose home is the last slot there is one live entry and one wrapped shift, so that kept is 2 |
| `Shards.Shard.SweepOp` | src/pogocache.c:1829-1876 | removes exactly the dead entries, reports their number exactly and keeps every live one; kept is the number of live entries plus the number of wrapped shifts, and exact if and only if the condition on the table before the sweep does not hold |
| `Shards.Shard.IterOp` | src/pogocache.c:1648-1709 | shows only live entries, deletes exactly those the callback chose, visits every live entry unless stopped, and each once if nothing is deleted |
| `CacheRuns.StoreRefines` | src/pogocache.c:1483-1627 | a store on a shard with dead entries in it is the store of the flat map |
| `CacheRuns.LoadRefines` | src/pogocache.c:1345-1406 | the same for loads with touch and in-callback update |
| `CacheRuns.DeleteRefines` | src/pogocache.c:1416-1473 | the same for deletes with veto |
| `CacheRuns.ClearRefines` | src/pogocache.c:1912-1921 | a clear leaves visible exactly what was touched at that instant or later |
| `CacheRuns.SweepRefines` | src/pogocache.c:1829-1876 | a sweep changes nothing that can be seen |
| `CacheRuns.RunRefines` | src/pogocache.c:365-377 | over every run with times that never decrease and no eviction, all results and everything visible are those of a map that drops entries when they die |
| `CacheSpec.ClampBranches` | src/util.c:40-51 | the branches of the clamped sum give the sum cut off at the 64-bit limits |
| `CacheLaws.StoreMeans` | src/pogocache.c:1483-1627 | each status of a store, if and only if its condition on what is visible holds: found for a failed version or NX test, canceled for a veto after those passed, replaced otherwise, not found and inserted for a key that is not visible with and without XX or CAS; what is stored then, KEEPTTL and version included; a refused store changes nothing visible, and no store changes another key |
| `CacheLaws.StoredFor` | src/pogocache.c:1488-1510 | what was stored is found by a load exactly until the expiry given, or else for the time to live given, or else for ever |
| `CacheLaws.DeleteMeans` | src/pogocache.c:1416-1473 | each status of a delete, if and only if its condition on what is visible holds, and what is visible afterwards |
| `CacheLaws.LoadMeans` | src/pogocache.c:1345-1406 | each status of a load, if and only if its condition holds, what the callback sees, and the entry afterwards: touched unless asked not to, or replaced by what the callback wants |
| `CacheLaws.VersionsStay` | src/pogocache.c:1508-1510 | over every run, versions in a shard are distinct and never ahead of its counter |
| `CacheLaws.NeverAgain` | src/pogocache.c:1386-1395 | a version that a key no longer has never comes back |
| `CacheLaws.CasStoreSafe` | src/pogocache.c:1545-1583 | a compare-and-store that succeeds implies that at no point of the run since its version was read was the key written or removed |
| `CacheLaws.ClearAccounts` | src/pogocache.c:1912-1919 | the count is exact after a clear if and only if every access came strictly before it |
| `CacheLaws.EvictAccounts` | src/pogocache.c:1021-1049 | removing an entry keeps the clear count exact |
| `CacheLaws.StoreAccounts` | src/pogocache.c:1539-1605 | so does every store |
| `CacheLaws.LoadAccounts` | src/pogocache.c:1361-1404 | so does every load |
| `CacheLaws.CountExact` | src/pogocache.c:1734-1738 | over every run with timely clears, evictions included, the reported count is the number of entries not cleared |
| `CacheLaws.ClearSameInstant` | src/pogocache.c:1912-1919 | after a store and a clear at one instant a load still finds the entry while the count is 0 |
| `Batch.NextDisciplined` | src/pogocache.c:1228-1273 | after every access to shared memory, a shard is in a batch's list exactly once if and only if its lock holds that batch, midway through the release loop too |
| `Batch.TakeDisciplined` | src/pogocache.c:1242-1273 | taking a lock in a batch keeps that discipline |
| `Batch.UnlinkDisciplined` | src/pogocache.c:1228-1240 | so does unlinking the first shard while the others are still locked |
| `BatchAtomic.NextAtomic` | src/pogocache.c:1211-1314 | every step of every thread keeps the committed state equal to the serial execution of the batches ended so far |
| `BatchAtomic.EveryRunSerial` | src/pogocache.c:1211-1314 | in every interleaving each batch takes effect at the instant its end starts, and its calls return what they return there |
| `BatchAtomic.QuiescentSerial` | src/pogocache.c:1228-1240 | once all batches have ended the shards hold exactly the serial result |
| `BatchLocks.EveryRunGuarded` | src/pogocache.c:1242-1328 | in every interleaving a lock holds the mark of a single operation if and only if that operation has taken that shard and not given it back |
| `BatchLocks.IdleHoldsNothing` | src/pogocache.c:1228-1328 | no lock names an idle thread, and when all threads are idle every shard is free |
| `BatchLocks.GoesOn` | src/pogocache.c:1242-1273 | the next access of a running thread moves it on unless it waits for a shard that another one has |
| `BatchLocks.SingleCompletes` | src/pogocache.c:1317-1330 | a single operation on a free shard takes it, runs and gives it back in three accesses |
| `BatchLocks.SingleRuns` | src/pogocache.c:1317-1330 | so it is from every reachable state in which the thread is idle and the shard is free |
| `BatchLocks.BatchCallCompletes` | src/pogocache.c:1242-1314 | a call of a batch on a free shard takes it, links it and runs, and keeps it |
| `BatchLocks.BatchCallAgain` | src/pogocache.c:1242-1273 | a further call on a shard of the batch runs without linking it again |
| `BatchLocks.BeginAndEnd` | src/pogocache.c:1211-1240 | a batch opens without shards, and its end commits what it logged |
| `BatchLocks.EndReleases` | src/pogocache.c:1228-1240 | the release loop ends after two accesses for each shard and one more, having freed exactly the shards of the batch |
| `BatchLocks.CallRefines` | src/pogocache.c:1317-1330 | a call does to its shard what the flat map does, returns what it returns, and leaves other shards alone |
| `BatchLocks.CallMeans` | src/pogocache.c:1345-1921 | what a store, load, delete, clear, sweep or scan that is called leaves visible of its shard |
| `Increments.IncrementAdds` | src/cmds.c:1434-1539 | an increment stores the value its load found, or 0, plus its delta, with the same expiry, and the counter is there afterwards unless it was dead when stored |
| `Increments.CallSpares` | src/pogocache.c:1345-1627 | a call that is about another key, only reads the key or is refused leaves the value and expiry of the key, or removes it if it is dead |
| `Increments.SparesIff` | src/pogocache.c:1345-1627 | and those are exactly the calls that leave a live entry of the key its version |
| `Increments.NoLostUpdate` | src/cmds.c:1434-1539 | in every serial history of increments of a key and transactions that do not write it, the key holds the tally of its increments, one that finds no counter starting from 0 |
| `Increments.SteadyCounter` | src/cmds.c:1434-1539 | a counter without expiry in a shard that is not cleared is there from its first increment on and holds the initial value plus the sum of all increments |
| `Increments.ConcurrentIncrements` | src/cmds.c:1434-1539 | so it is at every moment of every interleaving, for the committed value, whatever else commits on other keys and shards |
| `Increments.ConcurrentSum` | src/cmds.c:1434-1539 | and with the plain sum for a counter that cannot die |
| `Lz4Format.EchoExtends` | src/lz4.c:1939-1957 | bytes that each equal the byte `offset` before them are what an overlapping copy produces |
| `Lz4Format.SizeBound` | src/lz4.h:215-216 | any sequence of literal runs and matches is encoded in at most n + n/255 + 2 bytes |
| `Lz4Spec.ReadsSequence` | src/lz4.c:2250-2435 | the decoder reads one encoded sequence and appends its literals and its overlapping copy |
| `Lz4Spec.RoundTrip` | src/lz4.c:1302-1338 | an encoded list of sequences within the end-of-block restrictions decodes to what it plays |
| `Lz4Copy.WildCopy8` | src/lz4.c:464-473 | copying eight bytes at a time at a distance of at least eight equals the byte-wise overlapping copy |
| `Lz4Copy.WildCopy32` | src/lz4.c:521-529 | the same in pairs of sixteen |
| `Lz4Copy.First8` | src/lz4.c:495-516 | the table-driven first eight bytes for offsets below eight are the byte-wise ones, and leave the match a legal stride behind |
| `Lz4Copy.EchoStride` | src/lz4.c:475-476 | copying at a multiple of the offset after a first period is copying at the offset |
| `Lz4Copy.CopyUsingOffset` | src/lz4.c:534-572 | the pattern copy for offsets 1, 2, 4 and the base copy for the others equal the byte-wise copy |
| `Lz4Copy.CopyMatchSafe` | src/lz4.c:2398-2435 | the careful copy near the end of the output equals the byte-wise copy and writes nothing past the match |
| `Lz4Decoder.ReadVar` | src/lz4.c:1978-2014 | reads a variable length within its limit or fails, exactly as the byte-wise reader |
| `Lz4Decoder.FastSequence` | src/lz4.c:2083-2209 | the fast loop leaves the output and the position at a label from which byte-wise decoding gives the same result |
| `Lz4Decoder.Shortcut` | src/lz4.c:2221-2261 | so does the shortcut for short literals and matches |
| `Lz4Decoder.SafeToken` | src/lz4.c:2215-2435 | so does the safe loop |
| `Lz4Decoder.DecompressSafe` | src/lz4.c:2023-2445 | accepts exactly the blocks of the byte-wise decoder, with the same output, on every input |
| `Lz4Compressor.AddSequence` | src/lz4.c:1111-1226 | adding a checked match keeps the emitted bytes an encoding of the input up to its end |
| `Lz4Compressor.PutIndex` | src/lz4.c:820-831 | the match table only ever holds earlier positions, and learns exactly the one it is given |
| `Lz4Compressor.FindMatch` | src/lz4.c:1040-1102 | whatever the hash proposes, an accepted match has four equal bytes, an offset of 1 to 65535 and room before the end, byU16 included |
| `Lz4Compressor.CatchUp` | src/lz4.c:1104-1109 | extending a match backwards keeps offset and equality, and goes on until the anchor, the start of the input or a byte that differs |
| `Lz4Compressor.Count` | src/lz4.c:679-707 | the word-wise count is the length of the longest common run up to the limit |
| `Lz4Compressor.PutMatchRun` | src/lz4.c:1213-1226 | the length bytes written four at a time are those of the format |
| `Lz4Compressor.CompressLoop` | src/lz4.c:1004-1300 | what has been emitted always encodes the input up to the anchor, within the bound |
| `Lz4Compressor.Compress` | src/lz4.c:930-1338 | for every input up to LZ4_MAX_INPUT_SIZE and every hash function the block decodes to the input and obeys the size bound; an input of one byte repeated n times, n over 12, takes at most n/255 + 11 bytes |
| `Loader.NextSound` | src/save.c:376-409 | every step of the reader and the workers keeps each block in one place, the queue bounded and no wake-up lost |
| `Loader.EveryRunSound` | src/save.c:519-588 | so does every interleaving from the start |
| `Loader.SuccessLoadsAll` | src/save.c:546-588 | a successful return means that every queued block was loaded, exactly once |
| `Loader.EveryRunComplete` | src/save.c:519-543 | in every interleaving, unless a read or a block was bad, every block read so far is queued, taken, loaded or in the hand of the reader |
| `Loader.ReturnMeans` | src/save.c:519-588 | load returns success if and only if no read failed and no block was bad, and then every block read from the file was loaded exactly once |
| `Loader.NeverStuck` | src/save.c:376-409 | before the return some thread can always take a step without a spurious wake-up or another block to read |
| `Loader.SpuriousHarmless` | src/save.c:376-409 | a thread woken without cause that has nothing to do goes back to sleep, and nothing has changed |
| `Loader.Progress` | src/save.c:376-409 | every step that changes something, other than a spurious wake-up, lowers a bound on the steps to come |
| `Loader.LoadEnds` | src/save.c:519-588 | with n blocks in the file no run without spurious wake-ups is longer than the bound at its start, so every one that goes on returns |
| `Varint.WriteInto` | src/util.c:74-87 | the loop writes the base-128 form |
| `Varint.ReadAt` | src/util.c:89-107 | the loop returns the value and its length, 0 for an incomplete one and -1 for one over ten bytes |
| `Varint.RoundTrip` | src/util.c:74-107 | every 64-bit value is read back whatever follows it |
| `Varint.WriteLength` | src/util.c:74-87 | no 64-bit value needs more than ten bytes |
| `Varint.FixedRoundTrip` | src/util.c:208-224 | fixed-width little-endian fields are read back |
| `Snapshot.ItemBack` | src/save.c:283-344 | the fields of a written entry are read back, whatever follows |
| `Snapshot.ItemCut` | src/save.c:283-344 | no strict prefix of a written entry is accepted |
| `Snapshot.ItemsCut` | src/save.c:283-344 | of a cut block the entries before the cut are read, and the cut is noticed if and only if it is not at the end of an entry |
| `Snapshot.BlockBack` | src/save.c:96-118 | parsing the bytes written for any list of entries yields the same entries in the same order |
| `Snapshot.FramesBack` | src/save.c:57-94 | a file of framed blocks is read back block by block, for every checksum function |
| `Snapshot.Saver.SaveEntry` | src/save.c:96-118 | appends exactly one entry to the block |
| `Snapshot.Saver.Flush` | src/save.c:53-94 | the frame holds the compressed form of the buffer up to its length modulo 2^32, or nothing that can be decompressed if that is over the compressor's limit; an empty block writes nothing |
| `Snapshot.LoadableIff` | src/save.c:60-80 | what flush wrote decompresses to the whole buffer if and only if the buffer is within the compressor's limit |
| `Snapshot.Oversized` | src/save.c:251-267 | the empty block framed above that limit is never accepted by the decompressor |
| `Snapshot.ReadFile` | src/save.c:462-516 | the reading loop yields the good frames before the first bad one and reports whether there was one |
| `Restart.Worker.LoadBlock` | src/save.c:251-374 | stores the items of a block in order up to the first malformed one, skips and counts the expired ones, and succeeds exactly on well-formed blocks |
| `Restart.AllLoaded` | src/save.c:345-364 | afterwards exactly the unexpired items are in the cache with their value, flags and remaining life, in whatever order they came; expired items and other keys change nothing |
| `Restart.ExpiryKept` | src/save.c:345-353 | an item expires exactly at its saved wall-clock expiry, up to the 64-bit clamp, if and only if that is not the very instant of the load |
| `Restart.LoadedWhenDue` | src/save.c:345-353 | an item due at the instant of the load is kept for ever |
| `Restart.RestartRestores` | src/save.c:251-374 | a file of faithfully saved shards is read and accepted, and afterwards each saved entry is back with its value, flags and wall-clock expiry, or expired and left alone; other keys are untouched |
| `Restart.AnyInterleaving` | src/save.c:345-409 | so it is however the stores of the loading threads interleave, with each block loaded at its own time |
| `Restart.SilentlyCut` | src/save.c:53-80 | a saved block is accepted if and only if its length modulo 2^32 is within the limit and ends at the end of an entry, and then exactly the entries before that are loaded |
| `Restart.EightItemsLost` | src/save.c:53-80 | eight entries of 2^29 bytes each at the end of any shard are lost without an error |
| `Persist.SaveShard` | src/save.c:120-150 | iterating over a shard, saving each live entry and flushing leaves the shard as it was and writes one frame for exactly its live entries, loadable if and only if within the limit |
| `Persist.SaveFile` | src/save.c:120-150 | the file is the frames of the shards that have live entries |
| `Persist.LoadFile` | src/save.c:410-588 | succeeds exactly if all frames and all blocks are good, and then all have been loaded, each at its own time |
| `Persist.CarriedAnyhow` | src/save.c:345-409 | for shards within the limit, whatever the interleaving of the loading threads and the time of each block, every live entry survives as above and nothing else changes |
| `Persist.ListsSize` | src/save.c:96-118 | the length of the block of a shard is the sum of the sizes of its live entries, in whatever order they are visited |
| `Persist.SaveAndLoad` | src/save.c:53-374 | from the shards of one cache to another cache: if no shard is over the limit, which can be computed beforehand, the load succeeds, every live entry survives as above and nothing else changes |
| `Sixpack.CodesOrder` | src/pogocache.c:155-174 | the codes of the allowed characters are in the order of the characters |
| `Sixpack.CodesOnto` | src/pogocache.c:155-174 | each of the 63 codes belongs to exactly one character, and no other character has one |
| `Sixpack.RoundTrip` | src/pogocache.c:184-230 | unpacking undoes packing, lengths of 3 modulo 4 included |
| `Sixpack.PackOrder` | src/pogocache.c:146-153 | comparing packed strings, bytes first and then length, gives the order of the originals |
| `Sixpack.KeyRoundTrip` | src/pogocache.c:184-230 | every key of allowed characters is restored |
| `Sixpack.KeyOrder` | src/pogocache.c:146-153 | packed keys compare like the keys |
| `Sixpack.SixpackInto` | src/pogocache.c:184-206 | the loop packs the key, or returns 0 exactly for empty keys and keys with a character that has no code |
| `Sixpack.UnsixpackInto` | src/pogocache.c:208-230 | the loop restores the characters and drops the zero tail |
| `Record.EntryNew` | src/pogocache.c:535-639 | the allocation is filled exactly with header, time, optional fields, key and value |
| `Record.SetTime` | src/pogocache.c:353-363 | stamping a record changes its time and nothing else |
| `Record.ExtractEncode` | src/pogocache.c:452-508 | extracting recovers every field stored, a non-positive expiry as 0, and the size of the record |
| `Record.FieldsRead` | src/pogocache.c:330-338 | the accessors for expiry, flags and version agree with what was stored |
| `Record.KeyRead` | src/pogocache.c:397-450 | the accessors for the key return it, packed or not |
| `Record.RecordIsEntry` | src/pogocache.c:535-639 | the record of a store holds the entry the cache model stores |
| `Record.CompareIsKeyOrder` | src/pogocache.c:645-663 | comparing two records gives the order of their keys however each is stored, and 0 exactly for equal keys |
| `Resp.ParseResp` | src/resp.c:171-206 | the parser's loop computes the parse: a command and its length, more needed, or an error |
| `Resp.ReadsNum` | src/resp.c:134-169 | a decimal number with its line end is read back, and a strict prefix of it asks for more |
| `Resp.OtherFirstByte` | src/resp.c:171-182 | a buffer that starts with another byte than a star is refused |
| `Resp.TooManyArgs` | src/resp.c:180-182 | so is a header of more than MAXARGS arguments |
| `Resp.MissingDollar` | src/resp.c:183-190 | so is another byte than a dollar sign where an argument should start, after any number of good arguments |
| `Resp.TooLongArg` | src/resp.c:191-198 | so is an argument longer than MAXARGSZ |
| `Resp.ParseEncoded` | src/conn.c:332-358 | a buffer that begins a canonical command parses to exactly that command once it is complete and asks for more before |
| `Resp.StableIffFirm` | src/resp.c:144-206 | every strict prefix of an accepted command asks for more and no continuation changes the outcome, if and only if each number field has at most 32 bytes and none is empty with only white space or a sign after it |
| `Resp.Alone` | src/resp.c:171-206 | a command accepted at the start of a buffer is accepted by itself, so the theorem above covers every accepted command |
| `Resp.CanonicalFirm` | src/conn.c:332-358 | commands as clients write them are of that kind |
| `Resp.EmptyButFirm` | src/resp.c:144-169 | an empty field alone does no harm: a command with one that is settled by the bytes after it |
| `Resp.MemoryMatters` | src/resp.c:134-142 | the bytes in memory behind the buffer change what is read if and only if an accepted number is empty with only white space or a sign after it |
| `Conn.Connection.EvData` | src/conn.c:81-188 | the packet buffer, the commands run and the flags after a packet are those of Receive |
| `Conn.DrainStream` | src/conn.c:118-168 | draining a buffer runs a prefix of the commands in order, up to the one that closes the connection, and keeps exactly the bytes of the rest |
| `Conn.Lossless` | src/conn.c:103-188 | over any packets of a command stream the commands run are its first k up to the first that closes, nothing lost, repeated or reordered, and the buffer holds exactly the bytes after them |
| `Conn.AnySplit` | src/conn.c:103-188 | however a stream of firm commands is split into packets, once background work is done exactly its commands up to and including the first that closes have run with their exact arguments, and without such a one no byte is left |
| `Conn.SplitsAgree` | src/conn.c:103-188 | two ways of cutting up the same bytes run the same commands and close or not alike |
| `Conn.CanonicalWords` | src/conn.c:332-358 | streams of commands as clients write them are such streams |
| `Conn.NotFirmTells` | src/resp.c:144-169 | for every other accepted command there are two ways of cutting up the same bytes of which one leaves the connection open and one closes it |
| `Conn.EmptyNumber` | src/resp.c:134-169 | the four bytes of an empty array header and a digit do so |
| `Conn.LongNumber` | src/resp.c:144-169 | a number of more than 32 digits is accepted whole and refused in part |
| `Glob.DoubleStar` | src/cmds.c:510-513 | a star before another one changes nothing |
| `Glob.StarStep` | src/cmds.c:509-517 | trying the rest here, or one character later, is exhaustive |
| `Glob.PlainStep` | src/cmds.c:506-523 | an escaped or plain character must match; a question mark matches any, escaped or not |
| `Glob.Match` | src/cmds.c:500-527 | terminates and accepts exactly the strings the pattern means, if the star runs fit the remaining depth |
| `Glob.MatchKey` | src/cmds.c:529-544 | exact for every pattern of at most 127 star runs, and accepts nothing beyond |
| `Glob.DeepPattern` | src/cmds.c:503-505 | n runs of star and letter mean n letters, and are accepted if and only if n is at most 127 |
| `EventLoop.ServeKeeps` | src/conn.c:118-168 | the command loop ends with everything run, a close, or one command in the background, and keeps the account of what was written and sent |
| `EventLoop.ServeDoes` | src/conn.c:118-168 | the loop runs exactly the commands up to the first that closes or starts background work, in order; the output grows by the sum of what they write, and the connection is closed exactly if one of them closes it |
| `EventLoop.AttachDoes` | src/net.c:645-690 | attaching a connection again sends what was pending and what the done callback wrote, and closes it if the callback or a failed write says so |
| `EventLoop.NextSound` | src/net.c:538-848 | no step of the loop or of a background thread violates an assert or uses a freed connection, and each keeps the state sound |
| `EventLoop.EveryRunSound` | src/net.c:538-848 | so it is in every run, whenever background threads finish |
| `EventLoop.ReadyIsIdle` | src/net.c:604-616 | a connection reported ready has nothing left to write and is not closed, unless it comes back from the background, so those branches of qaccept are never taken |
| `EventLoop.Replied` | src/net.c:748-830 | whenever the loop waits, every connection not in background mode has sent exactly what its commands and done callbacks wrote, and none that a command, a callback or a failed write closed is left |
| `EventLoop.EveryRunBooked` | src/net.c:538-770 | at every moment of every run, each report that a descriptor is ready has been answered by one read, by turning a new connection away or by a done callback that ends it, or still stands in exactly one queue |
| `EventLoop.Answered` | src/net.c:538-848 | whenever the loop waits, every report has been answered so, and on a connection not in background mode every command that was read has been carried out, once and in order |
| `EventLoop.HandOff` | src/net.c:1181-1223 | a connection is in background mode exactly when it is not registered for reading, finished work is registered for writing, a connection is queued for closing at most once, and none is left with commands waiting |
| `EventLoop.Pipelined` | src/conn.c:160-165 | commands run once each in the order they arrived, and no later one runs between the start of background work and its done callback |
| `EventLoop.StrandedReached` | src/net.c:1198-1223 | a run in which the first command of a new connection wants background work leads to a connection working in the background, with or without a thread |
| `EventLoop.StrandedForever` | src/net.c:1198-1223 | if no thread could be created, the connection stays in background mode in every continuation, and no later command of it ever runs |
| `EventLoop.ComesBackIff` | src/net.c:660-690 | for every reachable connection that works in the background, some continuation runs its done callback if and only if its thread was created |

## Left out

- Sockets, epoll and kqueue, TLS and io_uring: calls into the kernel and foreign code; the event loop is the one of the system-call path.
- The telnet form of RESP, HTTP, memcache and Postgres front ends: many independent branches that would add easy members. `Conn` takes the telnet parser as a parameter.
- th64, SipHash, Murmur, xxHash, CRC-32: uninterpreted functions. The hash of a key selects its bucket by remainder, which for a power of two is the mask of the code.
- Eviction notifications, statistics, `total` and `entsize`: the code does not keep the last two exact.
- Tables.Table.Insert: distances are unbounded integers; `NarrowRuns.RunAgrees` states exactly when the 8-bit ones agree over whole runs.
- Tables.Probe: as for Tables.Table.Insert, with `NarrowRuns.InsertAgrees`.
- Tables.Rehash: as for Tables.Table.Insert, with `NarrowRuns.RebuildAgrees`.
- CacheLaws.VersionsStay: the version counter does not wrap at 64 bits.
- Tables.LoadBounds: the load factor is an integer percentage from 55 to 95 and the shrink factor is 10 percent, in place of floating point.
- Batch.NextDisciplined: shared memory is sequentially consistent; scans issued through a batch act on the root cache and are not part of the protocol, and batches over several shards may deadlock because nothing orders their locks.
- Increments.ConcurrentIncrements: evictions are assumed to be ones that `Shards.Shard.StoreOp` can make; parsing and printing of numbers are a parameter, and so is the test for overflow: an increment refused by it is a batch that only loads.
- cmdAPPEND: the same batch pattern as the increment, with another value.
- src/hashmap.c: a second Robin Hood table of the same shape, with 48-bit hashes and 16-bit distances.
- Lz4Decoder.DecompressSafe: which negative number reports an error is not modelled, only that it is negative.
- Lz4Compressor.Compress: the mode the server uses, with a full bound; dictionaries, streaming, limited output and acceleration other than 1 are not part of this model. The first differing byte of two words is found by comparing bytes, in place of counting trailing zeros.
- Lz4Copy.CopyUsingOffset: bytes past the end of a match that a wide copy leaves behind are not specified, since later copies overwrite them.
- Loader.NextSound: critical sections are single steps; failure to create a thread is not modelled.
- Persist.SaveAndLoad: runs one loading thread, and the target is one abstract state; `Persist.CarriedAnyhow` covers every interleaving of threads. Loading happens without memory pressure; version numbers are not preserved, because a store assigns a fresh one.
- Snapshot.ReadFile: a read returns all bytes asked for unless the file ends; failing reads and writes are not modelled.
- Record.Extract: only records that EntryNew made are read; allocation failure is modelled in `Shards`. The half-second time stamp of the alternative build is not modelled.
- Sixpack.SixpackInto: shifts and ors of disjoint bits are written as arithmetic.
- Resp.ParseResp: number parsing stops at the end of the buffer. A packet straight from the event loop has a NUL byte there; a joined packet has not, and `Resp.MemoryMatters` says exactly when that makes a difference.
- EventLoop.NextSound: a connection's commands are abstract, given by what they write and whether they close or start background work; listening sockets and the connection map are reduced to accepting or rejecting.
- Memory allocation, flags, tuning and statistics (src/main.c, src/performance_tuning.c, src/sys.c, src/stats.c, src/xmalloc.c).
