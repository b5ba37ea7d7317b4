# Models and proofs for cstone

cstone is a library of data structures and services for embedded C and C++. This project models the parts of it whose
state is hardest to keep right and proves what they are for:

- `dhash`, the Robin Hood hash table, behaves like a map through stealing, tombstones, growth and removal;
- the two flash logs, `error_log` and `log_db`, keep the newest entries of every run and come back from a restart, also
  from one between the erase and the program of a write;
- `isr_queue` is first in, first out under every interleaving of one producer and one consumer;
- the pool allocator, the bipartite FIFO and the bipartite deque conserve their elements and refine a partition and a
  queue;
- the exact algorithms (fixed point square root, glob matching, table driven CRC-16, property serialization, the cron
  calendar, event sequences, LED patterns, weighted choice) agree with declarative definitions on all inputs.

## How it is organised

There is one module for each source file, named after it, with these additions: `HashTable` holds the theory of the
bucket table that `DHash` changes step by step, `HashProbe` its probe loop as a function of the buckets, and `HashLoss`
two runs of it that lose a pair; `RingIndex` holds the index arithmetic that `IsrQueue` (calls one after the other) and
`IsrQueueConcurrent` (a state machine over atomic loads, copies and stores) share, and `SectorRing` what the two logs
share. `IsrQueueCalls` says what the calls of that state machine give their callers. `Cron` says what the events of a
list are, minute by minute, and `CronStorage` has the list itself: its elements, their links, and the free list that
removed elements go to. `CronMeaning` says what an event means without bitmaps, and `GlobSyntax` what a pattern means
without positions in its text. `PropDb` has its properties in a hash of `DHash`, and `PropFlag` holds runs of it after
which nothing has told of a change. `Arithmetic` and `Wrappers` hold a few general facts and `Option`.

Structures that the source changes in place are classes with the fields of the source. Each has a ghost value (the map
`m` of a hash table, the `log` or `ring` of a log, the `free` list of a pool) or a function (`Contents` of a queue) that
says what it stands for, and its methods are proved against that. What the source promises is then proved about these
values, as lemmas over all runs where it is a property of runs.

The two logs see flash as an array of cells with three operations: erasing a sector, programming erased cells, and
reading. Programming requires that the cells are erased, so every proof of a write also shows that nothing is programmed
twice. A write takes a parameter `programs`: with `false` only its erase step has happened, which is what a power
failure between erase and program leaves. In `LogDb` a cell is a whole byte that knows whether a block starts there; this
stands for the assumption that a header validates exactly where a block starts. In `ErrorLog` no such assumption is
needed: an entry is its two words, and an id of all ones is an unused slot. For both logs there is what the events of a
run retain (`Run` and `AfterEvents`), and a method `Execute` that carries out any sequence of writes, writes that are cut
off, and restarts on the log itself, and shows how far it follows these events.

`IsrQueueConcurrent` covers push_one, pop_one, push and pop with overwriting off. A step is one atomic load or store or
the copy of one element. `Run` is any sequence of calls and steps of both sides, and the states that it goes through are
a `Trace`.

`Crc16` works on bit vectors, wrapped in a datatype so that bit-level facts stay in the lemmas that need them. `IntMath`
models the machine word explicitly: every shift and sum is cut to `w` bits, and its theorems say exactly when the result
is right all the same. In `Glob` characters are bytes, and whether `char` is signed is a parameter. `PropSerialize`,
`Sequence` and `Cron` cut to 8, 16 and 32 bits where the source does.

## Where the code does something else than it is meant to

Each of these is stated by a lemma or a contract; a name that ends in `Iff` gives the exact condition:

- A key equal to what removal leaves in a tombstone, with hash 0, is taken for a match by an insertion
  (src/util/dhash.c:791-795): `HashTable.TombstoneMatch`.
- An insertion that hits the probe cap leaves one pair over, the one that `HashProbe.Probed` says
  (src/util/dhash.c:845-852). None is left over while some bucket is fresh and fewer buckets than the cap have ever been
  used, tombstones included; one always is when all buckets are live and the key is new (`DHash.DHash.InsertEx`). The
  bound is sharp (`HashLoss.CapIsSharp`), but its converse holds only for the latter tables: more used buckets need not
  be on one path. After a steal the pair left over can be one that was in the table before (`HashLoss.OldPairLost`).
- `dh_init` over a buffer of fewer than 11 buckets takes 11 all the same, and its buckets reach behind the buffer
  (src/util/dhash.c:408-413): `DHash.DHash.OnStorage`.
- `prop_set` asks the entry that it has passed to the hash whether the change is persistent, after an insertion that may
  have swapped a robbed entry into it (src/prop_db.c:215-219, src/util/dhash.c:842). For a new property the answer is
  right exactly when the insertion robs no bucket, or when the entry that it robs last has the same attribute:
  `PropDb.FlagIsRightIff`. `PropFlag.SetUnsaid` sets a new persistent property and sends no message, and
  `PropFlag.RestoredUnsaid` reads one back and sends none.
- `prop_db_serialize` puts 16 bits of the length into the header of the block; that is the length exactly when it is
  below 2^16: `PropDb.Serialize`, `PropDb.SaveAndRestore`.
- `isr_queue_push` never returns while the tail is at slot 0 and the data does not fit (src/isr_queue.c:104-131):
  `IsrQueueConcurrent.PushReturnsIff`.
- With one entry per sector, a power failure between the erase of sector 0 and the write to the last sector lets the
  next mount put the head into sector 0 (src/error_log.c:203-210). The next write then erases the oldest entry, and
  readers stop in front of the newest one (src/error_log.c:246-251): `ErrorLog.AlmostAlwaysMountable`,
  `ErrorLog.WriteMisplaced`, with a run that gets there in `ErrorLog.MisplacedRun` and what its events say in
  `ErrorLog.MisplacedExample`. There is no such mount with two entries or more in each sector, or with two sectors:
  `ErrorLog.Execute`.
- `logdb_read_next_header` ends after the tail sector when the head has just filled the sector in front of it to the
  last byte (src/log_db.c:356-362): `LogDb.IteratesAllIff`, with a run that gets there in `LogDb.StopsShortExample`.
- In a log of two sectors that was mounted after a power failure, a block that fills sector 0 leaves the tail without
  its guard until the next mount (src/log_db.c:251-254): `LogDb.GuardsAfter`. The next write does not erase and is
  programmed over the blocks in the tail (src/log_db.c:200): `LogDb.LogDb.PrepExposed`, with a run that gets there in
  `LogDb.ExposedRun` and what its events say in `LogDb.UnguardedExample`. There is no such write with three sectors or
  more: `LogDb.Execute`.
- The entry of an index for a kind whose newest block has been evicted is left as it is (src/log_index.c:20-34). Reading
  through it gives the block just written, of another kind, if the entry points to the start of the evicted sector, and
  nothing otherwise: `LogIndex.LogIndex.WriteAndUpdate`.
- After a program that the flash has refused, the next write of the same instance of a log goes into the new sector that
  was prepared, also when its block would have fitted behind the newest one (src/log_db.c:180-221):
  `LogDb.LogDb.WriteWaiting`, `LogDb.InNewIsAppendIff`. A restart in between does not do that.
- `do_pending_events` begins every minute with the list entry it was called with, also when that entry has been removed
  and freed in an earlier minute of the same call (src/cron_events.c:184, 238-241). It then goes on with whatever the
  link of the freed element has become. The call does what the events of the list ask for exactly when its first entry
  is not removed before the last minute: `CronStorage.DoesWhatRunSaysIff`. `CronStorage.SecondEventMissed` is a call that
  misses an event, and `CronStorage.CallNeverEnds` one that frees an element twice, sends what the pointer check of
  `mp_free` has written over its event ID, and does not end. The only caller of `do_pending_events` holds the semaphore
  s_cron_lock, which a removal takes once more (src/cron_events.c:238, 292-306); where locks are more than stubs, any
  removal therefore blocks before that.
- `random_weighted_choice` passes the greatest key on as a signed number; with a total above 2^31 it always makes the
  same choice (src/util/random.c:326-330): `Random.RandomState.WeightedChoice`.
- For exponents up to w - 4, `isqrt_fixed` is right exactly when no remainder is shifted out of the word, which is the
  case for all values below a quarter of the word and for none from three quarters on (src/util/intmath.c:480-487):
  `IntMath.RoundsToNearestIff`, `IntMath.LargeValuesFail`. For the exponents w - 2 and w, which it accepts too, the
  correction in the end rounds to a step of 2 or 4 and then by one. The result is right exactly when also the root is
  near enough to such a step: `IntMath.StepsAreNearestIff`; for the value 3 it is not, with words of 32 and of 64 bits:
  `IntMath.ExponentLimitIsNeeded`.
- `sequence_compile` keeps times in 16 bits; its result is right exactly when all times fit. It counts the events in 16
  bits, too, and overruns what it has allocated exactly from 2^16 events on (src/sequence_events.c:207-230):
  `Sequence.Compile`.
- `bipfifo_pop` and `pop_front` of more than the first region holds, but not more than the buffer has behind its start,
  are carried out and lose the queue: `BipBuf.BipFifo.Pop`, `BipDeque.BipDeque.PopFront`.
- `uint32_encode` leaves bytes unwritten for numbers below 2^16, and writes a fifth byte from 2^24 on
  (src/prop_serialize.c:106-118): `PropSerialize.Uint32RoundTripIff`, `PropSerialize.Uint32OverrunIff`. Property IDs are
  all in the second range, where the value that follows overwrites the extra byte.
- Pushing no elements to the front of a deque whose first region starts the buffer hides what it holds
  (include/cstone/BipBuf.hpp:160-185): `BipDeque.PushFront`, `BipDeque.EmptyPushFrontHidesData`. The space that
  `free_elems` is documented to give both pushes is not always there for `push_front`: `BipDeque.FrontSpaceIsFreeIff`.
- `glob_match` can read past the end of a string that is at its end before a set with the terminator in it, as an
  inverted one is, or before a set without an end (src/util/glob.c:168-176). For a given pattern there is such a string
  exactly when some set like that is preceded only by tokens that accept some character: `Glob.OverrunsIff`. It does not
  end when it comes to a set with a span up to the greatest value of `char` (src/util/glob.c:87). For a given pattern
  there is such a string exactly when some set like that is preceded only by closed sets and other tokens that accept
  some character: `Glob.HangsIff`. Whenever it ends, a match is reported exactly for the strings that match:
  `Glob.GlobMatch`.
- `prioritize_day_of_week` names another field than `map_init` leaves in force for wildcards with a step:
  `Cron.PrioritizeAgreesIff`.
- A request for 255 runs of a sequence makes it endless, and LED patterns honour requests of at most 14:
  `Sequence.RunsAsRequestedIff`, `LedBlink.BlinksAsRequestedIff`.
- Freeing a pool element twice closes the free list into a ring: `MemPool.DoubleFreeIsARing`.

## Model

| member | source | states |
|---|---|---|
| `HashTable.AbsentWhenShort` | src/util/dhash.c:646-678 | a lookup may stop at a bucket whose probe count is below the probe number: the key is nowhere in the table |
| `HashTable.AbsentAtCap` | src/util/dhash.c:646-678 | when all probes up to the cap miss, the key is absent too |
| `HashTable.Placed` | src/util/dhash.c:810-843 | writing the carried item over a bucket with a smaller count keeps every probe path, exchanges exactly one pair of the map, and leaves the evicted pair a path of its own |
| `HashTable.Replaced` | src/util/dhash.c:796-807 | replacing the value of a live bucket updates the map at its key and nothing else |
| `HashTable.Buried` | src/util/dhash.c:969-998 | a tombstone that keeps its probe count removes exactly its key; all other keys stay findable |
| `HashTable.Robbed` | src/util/dhash.c:825-843 | one steal: the table stands for the map without the evicted pair, which is carried on, and the headroom of the table has shrunk |
| `HashTable.Passed` | src/util/dhash.c:845-852 | a bucket that neither matches nor is poorer leaves table and map alone and costs the carried item headroom |
| `HashTable.HeadroomFalls` | src/util/dhash.c:776-853 | the total probe-count headroom falls with every write of an insertion, the first part of its termination measure |
| `HashTable.LivePathIsShort` | src/util/dhash.c:866-922 | without tombstones and with a free bucket, no probe number exceeds the number of pairs |
| `HashTable.NoMorePairsThanBuckets` | src/util/dhash.c:1012-1014 | a table never stands for more pairs than it has buckets |
| `HashTable.WalkMeetsEachPairOnce` | src/util/dhash.c:1249-1273 | going through the buckets meets every pair of the map exactly once, and nothing else |
| `HashTable.TombstoneMatch` | src/util/dhash.c:791-795 | a tombstone passes the match test exactly for the wiped key with hash 0; the value written there is lost |
| `DHash.DHash.constructor` | src/util/dhash.c:348-442 | dh_init: an empty map on the least listed prime number of buckets that is as many as asked for, or the greatest one |
| `DHash.DHash.OnStorage` | src/util/dhash.c:348-442 | dh_init on a given buffer: an empty map on the greatest listed prime number of buckets that is not more than the buffer has, or on 11; they fit the buffer exactly when it has at least 11 |
| `DHash.DHash.FindBucket` | src/util/dhash.c:646-678 | finds the live bucket of a key, or fails exactly when the key is not in the map |
| `DHash.DHash.Lookup` | src/util/dhash.c:695-709 | agrees with the map |
| `DHash.DHash.Remove` | src/util/dhash.c:969-998 | removes the key from the map, hands back its value, and changes nothing when the key is absent |
| `DHash.DHash.Bury` | src/util/dhash.c:969-998 | a bucket that becomes a tombstone takes exactly its key out of the map |
| `DHash.DHash.InsertEx` | src/util/dhash.c:765-855 | terminates from every table, with the buckets that the probe function says and what it says is left in the buffer of the caller; true means the map is updated at the key; false means a refused replacement, which changes nothing, or, for a new key, that the one pair the probe function leaves over is missing. None is left over while a bucket is fresh and fewer than the cap have been used; one always is in a table of live buckets |
| `DHash.DHash.ProbeOn` | src/util/dhash.c:776-853 | the probe loop ends, and ends as the probe function says |
| `DHash.DHash.Probe` | src/util/dhash.c:776-853 | one turn of the loop: the pair is placed, refused, left over at the cap, or the insertion is under way with one more probe |
| `HashProbe.ProbedOn` | src/util/dhash.c:776-853 | the probe function goes on with the item that a bucket passes on, and its measure falls |
| `HashProbe.CapNeedsUse` | src/util/dhash.c:845-852 | a path that has no room up to the cap takes as many used buckets as the cap, or all of them |
| `HashProbe.StepKeepsUsed` | src/util/dhash.c:825-843 | a probe that goes on has not used a fresh bucket |
| `HashProbe.ComesToCap` | src/util/dhash.c:845-852 | at the cap exactly the carried pair is missing, the key was new, and the table was crowded |
| `HashProbe.FullTableLoses` | src/util/dhash.c:776-853 | in a table of live buckets that do not hold the key an item is always left over |
| `HashProbe.BufferIs` | src/util/dhash.c:836-843 | unless the key was there, the buffer of the caller holds the value of the entry robbed last, or its own value when no bucket was robbed |
| `HashLoss.CapIsSharp` | src/util/dhash.c:845-852 | a run after which exactly as many buckets as the cap are used, some are fresh, and a new pair is lost |
| `HashLoss.OldPairLost` | src/util/dhash.c:825-852 | a run of insertions on 45161 buckets after which a pair that was there before is lost, and the new one is not |
| `HashLoss.RampTakes` | src/util/dhash.c:776-853 | a key with the hash of all the others goes behind them |
| `HashLoss.RampHasNoRoom` | src/util/dhash.c:776-853 | and finds no room behind as many as the cap |
| `DHash.DHash.Visit` | src/util/dhash.c:776-853 | what one bucket of the probe path does: store, refuse, or pass on the carried or the robbed item |
| `DHash.DHash.Replace` | src/util/dhash.c:796-807 | a present key gets what the callback makes of the new value, unless it refuses, and then nothing changes |
| `DHash.DHash.Grow` | src/util/dhash.c:866-922 | fails without a change or rebuilds the table at the least listed prime that fits, without tombstones; the map is the same whenever it has fewer pairs than the probe cap |
| `DHash.DHash.CopyAll` | src/util/dhash.c:902-918 | the ignored results of the insertions hide nothing below the probe cap |
| `DHash.DHash.Insert` | src/util/dhash.c:940-951 | growth once the load is too high, and the insertion: false is growth turned down or a replacement refused, which leave the map alone, or the one pair too many of a new key; below the cap growth keeps every pair and then only a refusal fails. The buffer of the caller holds what the probe function says for the buckets that the insertion began with |
| `DHash.DHash.MakeRoom` | src/util/dhash.c:942-946 | growth happens exactly at the load limit and is turned down exactly for a given buffer or without memory; below the limit nothing changes |
| `DHash.DHash.TurnsDownIff` | src/util/dhash.c:940-951 | an insertion into a table that cannot grow is turned down exactly when it would be more than 15/16 full |
| `DHash.RoomAfterGrowth` | src/util/dhash.c:872-873 | growth always makes room, up to the greatest listed prime |
| `DHash.DhIter.Next` | src/util/dhash.c:1249-1273 | delivers the live buckets one after the other and then nothing |
| `Search.SearchNearest` | src/util/search.c:128-167 | no item is closer to the key, and of two equally close ones the higher one is meant |
| `Search.SearchNearestAbove` | src/util/search.c:189-199 | the least item not below the key, or the last item |
| `Search.SearchNearestBelow` | src/util/search.c:221-231 | the greatest item not above the key, or the first item |
| `Search.PrimesAscend` | include/util/prime_modulus.h:15-70 | the listed primes ascend, so that the searches apply to them |
| `ErrorLog.RetainsTheLast` | src/error_log.c:216-314 | after n writes to a formatted log exactly the last K entries are retained in order, K = n below S*E and (S-1)*E + n mod E from there on, also for a single sector |
| `ErrorLog.KeptIs` | src/error_log.c:216-258 | the closed form of K agrees with the sectors and slots that single writes fill |
| `ErrorLog.FillIs` | src/error_log.c:216-258 | full sectors and slots in use after n writes |
| `ErrorLog.RunsRetainTheEnd` | src/error_log.c:216-277 | of the events of a run, with writes and power failures: what they retain is the end of what was committed, and nothing is gone before the ring has filled up; how far a log follows them is ErrorLog.Execute |
| `ErrorLog.AlmostAlwaysMountable` | src/error_log.c:134-213 | a log that was written in turn cannot be placed by a mount exactly when it has one entry per sector and power failed between the erase of sector 0 and the write to the last sector; ErrorLog.MisplacedRun gets there |
| `ErrorLog.EraseThenProgram` | src/error_log.c:261-277 | a write is its erase step and then its program step |
| `ErrorLog.ErrorLog.constructor` | src/error_log.c:29-34 | the geometry; a sector may end with a remainder smaller than an entry |
| `ErrorLog.ErrorLog.Format` | src/error_log.c:78-95 | an empty log on erased flash |
| `ErrorLog.ErrorLog.FindWriteSlot` | src/error_log.c:216-241 | the head offset, normalised over a sector remainder and the end of the flash, is the slot behind the last entry |
| `ErrorLog.ErrorLog.PrepForWrite` | src/error_log.c:216-258 | erases the next sector exactly when the last slot of a sector is to be filled, and moves the tail off it |
| `ErrorLog.ErrorLog.Write` | src/error_log.c:261-277 | appends the entry, or leaves the state after the erase when the program fails; only erased cells are programmed |
| `ErrorLog.ErrorLog.ReadNext` | src/error_log.c:287-314 | delivers the next entry of the log, or false exactly when none is left |
| `ErrorLog.ErrorLog.ReadAll` | src/error_log.c:335-351 | an iteration delivers exactly the log |
| `ErrorLog.ErrorLog.FindLastEntry` | src/error_log.c:100-111 | the last of the used slots at the front of a sector |
| `ErrorLog.ErrorLog.FindTailSector` | src/error_log.c:114-131 | the first used sector after the head is the tail |
| `ErrorLog.ErrorLog.ScanSectors` | src/error_log.c:162-190 | a partly filled sector is the head; otherwise the least erased sector is found |
| `ErrorLog.ErrorLog.MountPartial` | src/error_log.c:177-185 | from a partly filled sector everything is recovered |
| `ErrorLog.ErrorLog.MountOnBound` | src/error_log.c:203-210 | without one, everything but latest_offset is recovered exactly when the erased sectors do not wrap around |
| `ErrorLog.ErrorLog.MountSingle` | src/error_log.c:145-159 | the whole flash is one sector |
| `ErrorLog.ErrorLog.Mount` | src/error_log.c:134-213 | from flash alone: tail, write position and readable sequence come back for every mountable log, and a log that is not mountable comes back with its head in sector 0 and its tail in sector 1 |
| `ErrorLog.Restart` | src/error_log.c:134-213 | a new instance on the flash of an old one has its log again, or has misplaced its head, exactly when the log is not mountable |
| `ErrorLog.Turn` | src/error_log.c:134-277 | one write, one that is cut off and followed by a restart, or one restart does to the log what its event says |
| `ErrorLog.Execute` | src/error_log.c:134-277 | any sequence of writes, power failures and restarts on a formatted log leaves the log of its events, up to a write to a log that a mount has misplaced; there is none with two entries or more in each sector, or with two sectors |
| `ErrorLog.WriteMisplaced` | src/error_log.c:216-277 | the write after such a mount erases the oldest entry and programs sector 0, behind a sector that ends every iteration |
| `ErrorLog.MisplacedRun` | src/error_log.c:134-277 | a run that gets there |
| `ErrorLog.MisplacedExample` | src/error_log.c:134-277 | what its events say: both entries would be retained |
| `LogDb.RunsRetainTheEnd` | src/log_db.c:180-262 | of the events of a run, with writes and power failures, on at least two sectors: what they retain is the end of the completed blocks, no sector was left before a block it had room for, and all sectors but one are in use once anything is lost; how far a log follows them is LogDb.Execute |
| `LogDb.RunKeepsLast` | src/log_db.c:180-262 | of the events of a run: they leave the last sectors of the packing of all completed blocks into sectors, all of them or as many as there are, after a power failure one less |
| `LogDb.ErasesOldestIff` | src/log_db.c:193-214 | the oldest sector is freed exactly when all are in use and the newest one has no room for the block |
| `LogDb.OldestDropped` | src/log_db.c:205-214 | evicting the oldest sector moves the tail and keeps the head and the meaning of all generation bits |
| `LogDb.PlacedInHead` | src/log_db.c:224-262 | a block that fits keeps the generations and the shape of the log |
| `LogDb.PlacedInNew` | src/log_db.c:180-221 | a block in a new sector carries the new generation exactly when the write wraps around |
| `LogDb.ErasesWhenFull` | src/log_db.c:193-203 | the tests of the wrap and of tail_filled erase the oldest sector exactly when no sector is free |
| `LogDb.EraseThenPlace` | src/log_db.c:180-221 | the erase step changes neither where the block goes nor whether it wraps |
| `LogDb.FreeToProgram` | src/log_db.c:224-262 | every cell a block is programmed to was erased before |
| `LogDb.GuardsAfter` | src/log_db.c:247-254 | tail_filled protects the right sector after a write exactly unless there are two sectors, sector 1 is the unguarded tail, and the block fills sector 0 to its last byte; what the next write does then is LogDb.LogDb.PrepExposed |
| `LogDb.ExposedAfter` | src/log_db.c:247-254 | such a write leaves both sectors in use and the head at the end of sector 0 |
| `LogDb.LogDb.PrepExposed` | src/log_db.c:180-221 | the next write erases nothing and is to be programmed from the start of the tail sector on, where a block starts |
| `LogDb.LogDb.PrepGuarded` | src/log_db.c:180-221 | the erase step of a write to a guarded log, and that the place for the block is erased |
| `LogDb.Turn` | src/log_db.c:109-262 | one write, one that is cut off and followed by a restart, or one restart does to the log what its event says; the tail is exposed afterwards exactly in the unguarded case |
| `LogDb.Execute` | src/log_db.c:109-262 | any sequence of writes, power failures and restarts on a formatted log leaves the log of its events, up to a write that follows an unguarded one without a restart; with three sectors or more there is none |
| `LogDb.ExposedRun` | src/log_db.c:109-262 | a run on two sectors after which the tail is exposed |
| `LogDb.UnguardedExample` | src/log_db.c:180-262 | what its events say: the block that the next write is programmed over would be evicted |
| `LogDb.BlockStarts` | src/log_db.c:109-177 | scanning a sector from its front meets its blocks one after the other |
| `LogDb.ScanEnds` | src/log_db.c:154-165 | the scan of the head sector stops behind its last block |
| `LogDb.IteratesAllIff` | src/log_db.c:338-375 | an iteration delivers the whole log exactly unless the head has just met the tail and the tail sector has a byte to spare |
| `LogDb.StopsShortExample` | src/log_db.c:356-362 | three writes after which the newest block is not delivered |
| `LogDb.LogDb.constructor` | src/log_db.c:17-20 | a log instance on a flash of at least two sectors |
| `LogDb.LogDb.Format` | src/log_db.c:62-81 | an empty log on erased flash |
| `LogDb.LogDb.VerifyEmpty` | src/log_db.c:33-59 | tells whether a range is erased |
| `LogDb.LogDb.FindPlace` | src/log_db.c:181-198 | the offset arithmetic finds the sector and offset that the abstract write means, and whether it wraps |
| `LogDb.LogDb.PrepForWrite` | src/log_db.c:180-221 | leaves the log after the erase step, the tail behind an evicted sector, and flips the generation exactly on a wrap |
| `LogDb.LogDb.Commit` | src/log_db.c:237-258 | the program step: the block is the newest, the head is behind it, and tail_filled is set once the head has left the tail sector |
| `LogDb.LogDb.WriteBlock` | src/log_db.c:224-262 | appends the block; refuses one longer than a sector unchanged; keeps the tail guarded but for the one case; on a refused program leaves the state after the erase, with head_offset, generation and tail_filled moved on as the block needed it |
| `LogDb.LogDb.RefusedIs` | src/log_db.c:224-262 | after a refused program the running instance has the log as it was if the block would have gone behind the newest one, and otherwise waits at the start of a new sector |
| `LogDb.LogDb.WriteWaiting` | src/log_db.c:180-262 | the next write of such an instance: the block goes into the new sector, with the generation as it was left, and is refused without a change if it is longer than a sector or the flash refuses again |
| `LogDb.InNewIsAppendIff` | src/log_db.c:180-221 | that is what a write to the log means exactly when the block does not fit behind the newest one |
| `LogDb.LogDb.FindUsed` | src/log_db.c:114-131 | the lowest used sector and the newest generation |
| `LogDb.LogDb.FindWrap` | src/log_db.c:133-146 | the generation bits tell head and tail |
| `LogDb.LogDb.FindHead` | src/log_db.c:154-168 | head_offset and the length of the newest block |
| `LogDb.LogDb.ScanHead` | src/log_db.c:154-174 | head_offset, latest_offset, and an erased remainder behind them |
| `LogDb.LogDb.Mount` | src/log_db.c:109-177 | from flash alone: the log, tail_sector and generation, also after a power failure between erase and program; an empty flash is formatted |
| `LogDb.LogDb.ReadInit` | src/log_db.c:27-30 | the iterator is at the start of the tail |
| `LogDb.LogDb.ReadNextHeader` | src/log_db.c:338-375 | delivers the next block in the order of writing and where it starts, over gaps and the end of the flash |
| `LogDb.LogDb.ReadAllHeaders` | src/log_db.c:338-375 | a whole iteration, including the one case in which it stops short |
| `LogDb.LogDb.ReadLast` | src/log_db.c:379-381 | the newest block |
| `LogDb.LogDb.NewestStarts` | src/log_db.c:379-381 | latest_offset is where the newest block starts |
| `LogDb.LogDb.ReadRaw` | src/log_db.c:389-391 | the block that starts at an offset, or what else is there |
| `LogDb.Restart` | src/log_db.c:109-177 | a new instance on the flash of an old one takes over tail_sector, generation, head_offset and latest_offset at any time, also between erase and program |
| `LogIndex.NewestIsLast` | src/log_index.c:41-66 | the scan finds the last block of a kind, or none when there is none |
| `LogIndex.LogIndex.Update` | src/log_index.c:20-34 | an index of some blocks and one more block: it tells the newest of every kind among all of them |
| `LogIndex.LogIndex.WriteAndUpdate` | src/log_index.c:20-34 | a write to the log and the update that goes with it: the entry of any other kind stays right exactly when the write does not evict the sector it points into, and without an eviction the whole index is right. A read through an entry for the evicted sector delivers the new block if it points to the start of the sector, and nothing otherwise; the newest block of another kind changes only if it was in that sector, and then there is none |
| `LogIndex.NewestAfter` | src/log_index.c:20-34 | of the log: after a write the newest block of another kind is as it was, unless it was evicted with its sector |
| `LogIndex.StaleAfter` | src/log_index.c:86-108 | what starts where an entry for the evicted sector points to |
| `LogIndex.LogIndex.Create` | src/log_index.c:41-66 | the index of a log is that of what an iteration delivers |
| `LogIndex.LogIndex.Read` | src/log_index.c:86-108 | reading through the index gives what an ordered scan of the headers finds newest, and through an entry that is not right whatever starts there |
| `IsrQueue.IsrQueue.constructor` | src/isr_queue.c:19-27 | an empty queue |
| `IsrQueue.IsrQueue.PushOne` | src/isr_queue.c:51-84 | appends, drops the oldest when overwriting a full queue, or refuses |
| `IsrQueue.IsrQueue.PopOne` | src/isr_queue.c:87-98 | takes the oldest element, or reports an empty queue |
| `IsrQueue.IsrQueue.Push` | src/isr_queue.c:101-143 | appends a prefix, all of it unless the queue is full then; with overwriting the newest elements remain |
| `IsrQueue.IsrQueue.PushFree` | src/isr_queue.c:104-131 | the chunk loop takes what fits |
| `IsrQueue.IsrQueue.PushOver` | src/isr_queue.c:133-140 | the overwriting loop keeps the newest elements |
| `IsrQueue.IsrQueue.Pop` | src/isr_queue.c:146-178 | takes as many of the oldest elements as asked for and present, in order, over the wrap-around |
| `IsrQueue.IsrQueue.Discard` | src/isr_queue.c:181-211 | drops as many of the oldest elements as asked for and present |
| `IsrQueue.IsrQueue.Peek` | src/isr_queue.c:226-247 | the oldest elements in place, all of them or as many as there are up to the end of the buffer |
| `IsrQueue.IsrQueue.CountElements` | src/isr_queue.c:250-254 | the length of the contents |
| `IsrQueueConcurrent.NextOk` | src/isr_queue.c:51-178 | every step of either side keeps the invariant, with stale copies of the other side's index |
| `IsrQueueConcurrent.NextGrows` | src/isr_queue.c:51-178 | what was accepted and what was popped is never taken back |
| `IsrQueueConcurrent.FirstInFirstOut` | src/isr_queue.c:51-178 | in every interleaving the popped elements are a prefix of the accepted ones, and the difference is exactly the ring between tail and head, at most end_ix - 1 elements |
| `IsrQueueConcurrent.ProducerWritesOnlyFreeSlots` | src/isr_queue.c:59-61 | the slot about to be written is not in the queue and not in the chunk the consumer is copying |
| `IsrQueueConcurrent.CallsAcceptPrefixes` | src/isr_queue.c:101-143 | a call under way has accepted exactly what it was given up to what it still holds |
| `IsrQueueConcurrent.RoundIs` | src/isr_queue.c:104-131 | one round of the loop of push is what the steps of the producer do from its head: the loads, the copies, and the store of the new head |
| `IsrQueueConcurrent.AloneIsRun` | src/isr_queue.c:104-131 | the producer alone is a run without steps of the consumer |
| `IsrQueueConcurrent.SpinsForever` | src/isr_queue.c:104-131 | with the tail at slot 0 and more left than fits, no number of steps gets out of the loop |
| `IsrQueueConcurrent.PushReturnsIff` | src/isr_queue.c:104-131 | in any run, from the head of its loop on and with the consumer at rest, push returns exactly when the tail is not at slot 0 or what is left fits, and then it has accepted exactly as much as fits |
| `IsrQueueCalls.RunsAreTraces` | src/isr_queue.c:51-178 | every run goes through the states of a trace, from any point of it on |
| `IsrQueueCalls.PopTakes` | src/isr_queue.c:146-178 | in every interleaving a pop that returns has taken as many elements as it was asked for, or all that were in the ring when it was called if that is less |
| `IsrQueueCalls.PopOneTakes` | src/isr_queue.c:87-98 | in every interleaving pop_one takes one element, unless the ring was empty when it loaded the head |
| `IsrQueueCalls.PopReturns` | src/isr_queue.c:146-178 | whatever the producer does, a pop of n elements returns after 4n + 2 of its own steps |
| `IsrQueueCalls.PopOneReturns` | src/isr_queue.c:87-98 | and pop_one after 4 |
| `IsrQueueCalls.PushOneTakes` | src/isr_queue.c:51-84 | in every interleaving push_one adds its element, unless the ring was full when it loaded the tail |
| `IsrQueueCalls.PushOneReturns` | src/isr_queue.c:51-84 | whatever the consumer does, push_one returns after 4 of its own steps |
| `IsrQueueCalls.PushTakes` | src/isr_queue.c:101-143 | in every interleaving a push that returns has added all of its elements in order, or the first of them and found the ring full at its last step |
| `IsrQueueCalls.PushAloneReturnsIff` | src/isr_queue.c:101-143 | with the consumer at rest, a push returns exactly when the tail is not at slot 0 or its elements fit, and then has added as many of them as fit |
| `IntMath.IsqrtFixed` | src/util/intmath.c:445-492 | the loop on a w-bit word, for all even exponents: up to w-4 the result is the integer nearest to the square root of value * 2^fp_exp exactly when all remainders fit, which they do below 2^(w-2); for w-2 and w exactly when also the root is near enough to a step of 2 or 4 |
| `IntMath.RoundsToNearest` | src/util/intmath.c:445-492 | below 2^(w-2) the result is the nearest integer |
| `IntMath.BracketHalves` | src/util/intmath.c:479-487 | one round doubles the precision of the bracket around the root |
| `IntMath.RoundsToNearestIff` | src/util/intmath.c:445-492 | for every value of w bits the result is the nearest integer exactly when no shift takes a remainder out of the word |
| `IntMath.AllRounds` | src/util/intmath.c:479-487 | the loop finds the root of what is left of the value after the losses, and any loss gives another nearest root |
| `IntMath.LargeValuesFail` | src/util/intmath.c:445-492 | from 3 * 2^(w-2) on no value gives the nearest integer |
| `IntMath.StepsAreNearestIff` | src/util/intmath.c:445-492 | for the exponents w-2 and w, with n the root at exponent w-4 rounded down and u its radicand, the result is nearest exactly when nothing is lost and 2u <= 2n^2+n or n^2+n < u and 2u <= 2n^2+3n+1, or for w when 4u <= 4n^2+n |
| `IntMath.ExponentLimitIsNeeded` | src/util/intmath.c:445-492 | on words of 32 and of 64 bits, neither of these two exponents gives the nearest root of 3 |
| `Glob.GlobMatch` | src/util/glob.c:131-200 | for patterns and strings of any bytes and both kinds of char: whenever it ends, a match is reported exactly for the strings that the declarative matcher accepts; it overruns or does not end only with patterns that can, and does when the matcher runs out of the string or comes to an endless set |
| `Glob.OverrunsIff` | src/util/glob.c:131-200 | some string makes a pattern overrun exactly when a set with the terminator in it, or an unclosed one that is not empty, is preceded only by tokens that accept some character |
| `Glob.HangsIff` | src/util/glob.c:69-104 | some string makes a pattern not end exactly when a set with a span up to the greatest char is preceded only by closed sets and other tokens that accept some character |
| `Glob.CleanIsSafe` | src/util/glob.c:69-104 | patterns of ASCII characters below 0x7F with closed sets that are not inverted never overrun and always end |
| `GlobSyntax.MatchesMeans` | src/util/glob.c:107-200 | of a pattern of the documented syntax, with literals, both wildcards, and sets of characters and spans, inverted or not, the matcher accepts exactly the strings that the pattern means, and it always ends; a span holds both of its ends |
| `GlobSyntax.SetIs` | src/util/glob.c:69-104 | a set holds exactly the characters that are one of its single characters or within one of its spans, in the order of char |
| `Glob.ParseRangeDef` | src/util/glob.c:69-104 | the members of a set in the order of char, where it ends, and whether it does |
| `Glob.LaterMatchesPass` | src/util/glob.c:131-200 | what the last star could match later passes through the current position: going back to the last star is enough |
| `Glob.NewStar` | src/util/glob.c:131-200 | a new star takes over from all the ones before it |
| `Crc16.BitIsConditional` | src/util/crc16.c:65-74 | the shift with feedback is the conditional exclusive or of 0x8005 |
| `Crc16.SmallTableIsSerial` | src/util/crc16.c:106-109 | every entry of the 16-entry table is four bits through the register |
| `Crc16.TableIsSerial` | src/util/crc16.c:143-176 | every entry of the 256-entry table is eight bits through the register |
| `Crc16.ByteStep` | src/util/crc16.c:190-194 | one lookup is eight serial bits, for every state and byte |
| `Crc16.TwoNibbles` | src/util/crc16.c:125-137 | two small lookups are eight serial bits, for every state and byte |
| `Crc16.UpdateSerial` | src/util/crc16.c:65-74 | the bit loop computes the serial step |
| `Crc16.UpdateSerialBlock` | src/util/crc16.c:90-101 | the CRC of a block, bit by bit |
| `Crc16.UpdateSmallBlock` | src/util/crc16.c:125-137 | the 16-entry table gives the same CRC for every state and block |
| `Crc16.Update` | src/util/crc16.c:190-194 | the table step is the serial step |
| `Crc16.UpdateBlock` | src/util/crc16.c:210-216 | the 256-entry table gives the same CRC for every state and block |
| `Crc16.BitsAreInjective` | src/util/crc16.c:65-74 | different states stay different |
| `Crc16.CrcIsInjective` | src/util/crc16.c:90-101 | every block is a bijection of the states |
| `Crc16.DetectsTwoBytes` | src/util/crc16.c:90-101 | blocks that differ only within two adjacent bytes have different CRCs |
| `MemPool.Pool.constructor` | src/util/mempool.c:263-293 | all elements are on the free list, and memory outside the pool is untouched |
| `MemPool.Pool.Populate` | src/util/mempool.c:276-292 | every element is linked to the next one and the last one to NULL |
| `MemPool.PoolSet.constructor` | src/util/mempool.c:137-145 | no pools |
| `MemPool.PoolSet.AddPool` | src/util/mempool.c:389-425 | inserts the pool behind those with elements of at most its size, so that the list stays sorted |
| `MemPool.PoolSet.Alloc` | src/util/mempool.c:455-484 | NULL exactly when every pool has an empty free list, is disabled, or has elements that are too small; otherwise takes an element off one free list, of a size that fits, and no enabled pool with a smaller one that fits has any; nothing else changes |
| `MemPool.PoolSet.AllocBestEffort` | src/util/mempool.c:541-576 | NULL exactly when every pool has an empty free list or is disabled; otherwise the smallest size that fits, or the largest there is when none fits |
| `MemPool.PoolSet.BestPool` | src/util/mempool.c:556-562 | the pool that its loop settles on |
| `MemPool.PoolSet.TookIsLive` | src/util/mempool.c:431-443 | an allocated element is in use from then on, and no other changes |
| `MemPool.PoolSet.FindPool` | src/util/mempool.c:640-650 | the one pool an address is within, or none |
| `MemPool.PoolSet.Free` | src/util/mempool.c:749-786 | puts the element back on the list of its pool and changes nothing else; false exactly for an address outside all pools |
| `MemPool.PoolSet.WriteData` | src/util/mempool.c:455-484 | writing to an element in use disturbs no free list |
| `MemPool.PoolSet.Realloc` | src/util/mempool.c:684-712 | NULL, an address outside, size 0; an element that is large enough stays, and one that is too small moves to the smallest size that fits, or stays with NULL as the result exactly when no enabled pool has an element that fits |
| `MemPool.PoolSet.Enlarge` | src/util/mempool.c:703-711 | moves the content to a larger element and frees the old one, or keeps the old one when there is none |
| `MemPool.LiveApart` | src/util/mempool.c:455-484 | elements in use never overlap, in whichever pools they are |
| `MemPool.Partition` | src/util/mempool.c:431-443 | every element is free or in use, and free_elems counts the free ones |
| `MemPool.DoubleFreeIsARing` | src/util/mempool.c:766-771 | freeing a free element leaves links that no finite list of addresses describes |
| `MemPool.ChainIsUnique` | src/util/mempool.c:431-443 | the links of a pool say only one free list |
| `MemPool.ElementsApart` | src/util/mempool.c:263-293 | elements of a pool do not overlap |
| `MemPool.HowManyElements` | src/util/mempool.c:263-293 | a pool has as many elements as it was made for |
| `MemPool.NotCounted` | src/util/mempool.c:633-636 | a plain element never looks reference counted |
| `BipBuf.BipFifo.constructor` | template/cstone/bipbuf.c.m4:22-26 | an empty queue |
| `BipBuf.BipFifo.UsedElems` | template/cstone/bipbuf.c.m4:29-31 | the queue and the reservation together |
| `BipBuf.BipFifo.PopableElems` | template/cstone/bipbuf.c.m4:39-41 | without a reservation: elements of the queue, none exactly when it is empty |
| `BipBuf.BipFifo.PopableIsLongest` | template/cstone/bipbuf.c.m4:39-41 | without a reservation these are as many of the oldest elements as are in places in a row |
| `BipBuf.BipFifo.PushableElems` | template/cstone/bipbuf.c.m4:45-54 | never more than is free |
| `BipBuf.BipFifo.PushableIff` | template/cstone/bipbuf.c.m4:45-54 | exactly as many elements are pushable as there are free places in a row right behind the newest element, or at the start of the buffer while the queue has not gone round to there |
| `BipBuf.BipFifo.IsEmpty` | template/cstone/bipbuf.c.m4:57-59 | without a reservation: exactly when the queue is empty |
| `BipBuf.BipFifo.Flush` | template/cstone/bipbuf.c.m4:65-71 | empties the queue and gives up a reservation |
| `BipBuf.BipFifo.Reserve` | template/cstone/bipbuf.c.m4:88-112 | succeeds exactly when nothing is reserved and the elements fit behind region B, or behind region A if there is no region B; the queue does not change or move |
| `BipBuf.BipFifo.WriteReserved` | template/cstone/bipbuf.c.m4:88-112 | writing to a reservation leaves the queue alone |
| `BipBuf.BipFifo.Commit` | template/cstone/bipbuf.c.m4:116-134 | the first n reserved elements join the queue at its end, and no element moves |
| `BipBuf.BipFifo.Push` | template/cstone/bipbuf.c.m4:137-147 | appends all of the data or, exactly when it does not fit in one piece, nothing |
| `BipBuf.BipFifo.Pop` | template/cstone/bipbuf.c.m4:151-185 | takes the oldest elements and leaves them readable in place; which pops succeed under a reservation; the queue is lost exactly when more than the first region holds are taken |
| `BipBuf.BipFifo.Peek` | template/cstone/bipbuf.c.m4:188-206 | the oldest elements in place, unless it is overdrawn |
| `BipBuf.BipFifo.DeliversIff` | template/cstone/bipbuf.c.m4:151-206 | without a reservation pop and peek deliver whenever the queue is not empty; with one in region A only when an element remains, and with one in region B nothing |
| `BipBuf.BipFifo.DeliversOldest` | template/cstone/bipbuf.c.m4:151-206 | what is delivered is the front of the queue exactly when it is not overdrawn, and popable_elems never overdraws it |
| `BipBuf.BipFifo.NextChunk` | template/cstone/bipbuf.c.m4:210-226 | region A, then region B if there is one, then the end |
| `BipBuf.BipFifo.PrevChunk` | template/cstone/bipbuf.c.m4:229-251 | the chunks from the end |
| `BipBuf.BipFifo.ReadForward` | template/cstone/bipbuf.c.m4:210-226 | going through the chunks delivers the queue in order |
| `BipBuf.BipFifo.ReadBackward` | template/cstone/bipbuf.c.m4:229-251 | going back through the chunks delivers the same queue |
| `BipBuf.BipFifo.Places` | template/cstone/bipbuf.c.m4:88-185 | where each element is, outside the reservation |
| `BipBuf.BipFifo.PlacesDiffer` | template/cstone/bipbuf.c.m4:88-185 | different elements are in different places |
| `BipDeque.BipDeque.constructor` | include/cstone/BipBuf.hpp:62-68 | an empty deque |
| `BipDeque.BipDeque.TotalUsedElems` | include/cstone/BipBuf.hpp:70-72 | the length of the contents |
| `BipDeque.BipDeque.FreeElems` | include/cstone/BipBuf.hpp:92-102 | never more than is free |
| `BipDeque.BipDeque.BackGapIff` | include/cstone/BipBuf.hpp:92-102 | exactly as many as there are free places in a row right behind the last element, or at the start of the buffer while the deque has not gone round to there |
| `BipDeque.BipDeque.FrontGapIff` | include/cstone/BipBuf.hpp:160-185 | push_front has room for exactly as many as there are free places in a row right in front of the first element, or at the end of the buffer while that element starts it |
| `BipDeque.BipDeque.FrontIsLongest` | include/cstone/BipBuf.hpp:79-81 | used_front_elems are as many from the front as are in places in a row |
| `BipDeque.BipDeque.BackIsLongest` | include/cstone/BipBuf.hpp:84-89 | and used_back_elems as many from the back |
| `BipDeque.BipDeque.Places` | include/cstone/BipBuf.hpp:160-284 | where each element is; different ones are in different places |
| `BipDeque.BipDeque.EmptyIff` | include/cstone/BipBuf.hpp:106-108 | the test of the first region is exact for a valid deque |
| `BipDeque.BipDeque.FrontSpaceIsFreeIff` | include/cstone/BipBuf.hpp:92-102 | when free_elems is what push_front has room for |
| `BipDeque.BipDeque.PushBack` | include/cstone/BipBuf.hpp:136-156 | appends all of the data, or nothing exactly when it is more than free_elems |
| `BipDeque.BipDeque.PushFront` | include/cstone/BipBuf.hpp:160-185 | prepends all of the data or nothing; exactly when the deque stays valid |
| `BipDeque.BipDeque.EmptyPushFrontHidesData` | include/cstone/BipBuf.hpp:160-185 | a run that hides data |
| `BipDeque.BipDeque.PopFront` | include/cstone/BipBuf.hpp:189-214 | takes elements from the front and leaves them readable in place; the deque is lost exactly when it is overdrawn |
| `BipDeque.BipDeque.PeekFront` | include/cstone/BipBuf.hpp:218-229 | the first elements in place, unless it is overdrawn |
| `BipDeque.BipDeque.PopBack` | include/cstone/BipBuf.hpp:233-260 | takes the last elements of the last region, or nothing |
| `BipDeque.BipDeque.PeekBack` | include/cstone/BipBuf.hpp:264-284 | the last elements in place |
| `PropSerialize.ZigzagRoundTrip` | src/prop_serialize.c:14-20 | zigzag coding is a bijection, and numbers near zero have small codes |
| `PropSerialize.LebRoundTrip` | src/prop_serialize.c:72-103 | unsigned LEB128 (section 7.6 of DWARF 5) reads back, and ends where it was written to |
| `PropSerialize.Clz` | src/prop_serialize.c:33-47 | the fallback counts the leading zeros |
| `PropSerialize.VarintBytesIsLength` | src/prop_serialize.c:50-68 | the closed form is the number of bytes the loop writes |
| `PropSerialize.VarintEncode` | src/prop_serialize.c:72-85 | writes the encoding and nothing else, or reports the bytes that it needs |
| `PropSerialize.VarintDecode` | src/prop_serialize.c:88-103 | reads any encoding of up to five bytes; the fifth loses the bits above bit 31 |
| `PropSerialize.ReadVarint` | src/prop_serialize.c:88-103 | reads what was written |
| `PropSerialize.Uint32Encode` | src/prop_serialize.c:106-118 | the bytes it writes: the significant ones and one zero byte |
| `PropSerialize.Uint32Decode` | src/prop_serialize.c:121-134 | four bytes, least significant first |
| `PropSerialize.Uint32RoundTripIff` | src/prop_serialize.c:106-134 | a number survives whatever was in the buffer exactly from 2^16 on |
| `PropSerialize.Uint32OverrunIff` | src/prop_serialize.c:106-118 | more than the reported four bytes are written exactly from 2^24 on |
| `PropSerialize.EncodedBytesIsLength` | src/prop_serialize.c:205-228 | the size computed beforehand is that of the encoding |
| `PropSerialize.BytesEncode` | src/prop_serialize.c:148-162 | length and bytes, or the bytes that it needs |
| `PropSerialize.BytesDecode` | src/prop_serialize.c:165-180 | reads back what was written, as a string or as a blob |
| `PropSerialize.PropEncode` | src/prop_serialize.c:231-269 | exactly the encoding, with the extra byte of the ID overwritten, or the bytes that it needs |
| `PropSerialize.Encodings` | src/prop_serialize.c:231-269 | the bytes of one property of each kind |
| `PropSerialize.PropDecode` | src/prop_serialize.c:272-352 | recovers property, kind and value from any buffer that holds the encoding |
| `PropDb.CountedIsLength` | src/prop_db.c:431-439 | the length computed in the first pass is what the second pass writes |
| `PropDb.Serialize` | src/prop_db.c:421-470 | the block is exactly the encodings of the persistent properties that are not read-only; the header has its length exactly when that is below 2^16 |
| `PropDb.PropIsValid` | src/prop_id.c:464-494 | the loop over the four fields decides which property IDs are valid |
| `PropDb.ValidIff` | src/prop_id.c:464-494 | the valid IDs field by field: 1 to 126, or the same with the top bit for an array, and an index from 0 to 254 behind an array |
| `PropDb.PropDb.PropSet` | src/prop_db.c:194-250 | prop_set of a value in the real hash: invalid IDs, read-only properties and growth turned down change nothing; a valid one is inserted as dh_insert says, an existing property keeps its attributes; the outermost transaction tells of a persistent change exactly when what the insertion leaves in the entry of the caller is persistent |
| `PropDb.AttributesStay` | src/prop_db.c:54-87 | setting a property that is there changes neither readonly nor persist and never takes its protection away; its value is the new one unless it is read-only; no other property changes |
| `PropDb.PropDb.ToldIff` | src/prop_db.c:162-181 | one message when the outermost transaction ends with something to tell, and none before; without a hub it is kept |
| `PropDb.FlagIsRightIff` | src/prop_db.c:213-222 | what is left says the right thing exactly when the property was there before, the insertion robs no bucket, or the entry robbed last has the same attribute |
| `PropDb.PropDb.Deserialize` | src/prop_db.c:473-492 | sets every entry of the block, in order, each in what the ones before it have made of the database, and tells once of what the insertions have left; with room for all of them the database is what setting them one after the other makes of it |
| `PropDb.LinkedTo` | src/prop_db.c:473-492 | what the first entries of the block have made of the database, and of the flag |
| `PropDb.RoomStays` | src/util/dhash.c:940-951 | setting an entry takes up room for no more than one |
| `PropDb.ValuesList` | src/prop_db.c:431-439 | the iterator of the hash delivers each entry of the database once |
| `PropDb.Collect` | src/prop_db.c:431-439 | so does the loop over it |
| `PropDb.SaveAndRestore` | src/prop_db.c:421-492 | serializing one database and deserializing the block into another one with room for it, as long as the block is shorter than 2^16 bytes |
| `PropDb.SavedAreSet` | src/prop_db.c:421-492 | this sets exactly the persistent properties that are not read-only, each once, to their values, and leaves all others alone |
| `PropDb.SavedComeBack` | src/prop_db.c:421-492 | an empty database becomes what was saved |
| `PropDb.SavingChangesNothing` | src/prop_db.c:421-492 | the database itself stays as it is, but for blobs, which become protected |
| `PropFlag.CRobs` | src/util/dhash.c:825-843 | two properties in buckets 0 and 1 of 11: a third one for bucket 0 robs the second |
| `PropFlag.SetUnsaid` | src/prop_db.c:213-222 | a run of prop_set after which a new persistent property is in the database and no message has told of it |
| `PropFlag.RestoredUnsaid` | src/prop_db.c:473-492 | the same property read back from a block, and no message |
| `Cron.FieldSpecToBitmap` | src/cron_events.c:110-129 | the 64-bit map has exactly the values that the field selects: ranges, steps and wildcards |
| `Cron.MapInit` | src/cron_events.c:132-155 | the bitmaps of a schedule, with the precedence of the day of the week |
| `Cron.MatchIffScheduled` | src/cron_events.c:166-170 | the bitmaps match a time exactly when the schedule means it |
| `Cron.PrioritizeAgreesIff` | src/cron_events.c:158-163 | when the description names the day field that is in force |
| `Cron.RunsCompose` | src/cron_events.c:173-248 | of the events of a list: a run of minutes can be taken in two parts |
| `Cron.WindowsCompose` | src/cron_events.c:173-248 | of the events of a list: consecutive spans send what one span would, nothing twice, nothing left out |
| `Cron.RunSplits` | src/cron_events.c:184-244 | the run of a list is that of its two parts, minute by minute |
| `Cron.EntriesRunAlone` | src/cron_events.c:184-244 | every entry runs as if it were alone: what is kept and what is sent are those of the single entries |
| `CronStorage.EventList.VisitEntry` | src/cron_events.c:188-246 | one element in one minute: the message, the end map, and the removal from the list to the free list, where the pointer check of mp_free marks its event IDs; the successor is read first |
| `CronStorage.SentinelIsInIds` | src/util/mempool.c:766-786 | the pointer check as it is by default writes over the event IDs of a freed entry and nothing else |
| `CronStorage.EventList.WalkMinute` | src/cron_events.c:184-244 | the loop over the elements, from any element on |
| `CronStorage.EventList.DoPendingEvents` | src/cron_events.c:173-248 | every whole minute after `from` up to `until`, each from the same element on; it does what the events of the list ask for if its first entry is not removed before the last minute |
| `CronStorage.DoesWhatRunSaysIff` | src/cron_events.c:173-248 | whatever the elements off the list hold, as far as the pointer check leaves it to them, the call does to the list and sends what its events ask for, exactly when the first entry is not removed before the last minute |
| `CronStorage.OneMinuteIsSafe` | src/cron_events.c:173-248 | a call for a single minute always does |
| `CronStorage.SecondEventMissed` | src/cron_events.c:173-248 | two events and a call for two minutes that misses the second one |
| `CronStorage.NeverEnds` | src/cron_events.c:184-244 | an element that is linked to itself and due is visited for ever |
| `CronStorage.CallNeverEnds` | src/cron_events.c:173-248 | one event and a call for three minutes that sends the marked ID of its freed element, frees it once more, and does not end |
| `Cron.EndIs` | src/cron_events.c:197-212 | the 8-bit arithmetic of the end map gives the minute of the day that is event_minutes later |
| `Cron.EndMapMatches` | src/cron_events.c:197-212 | the end map matches that minute of the day and no other |
| `Cron.StartThenEnd` | src/cron_events.c:173-248 | an event of 1 to 1440 minutes ends exactly that long after its start, nothing is sent in between, and then it waits again or is gone |
| `Cron.StartsAndEndsAlternate` | src/cron_events.c:188-246 | over any run, whatever the clock does, starts and ends of an event with a duration alternate, and the entry says which is next; it is gone only after its end |
| `CronMeaning.RunMeans` | src/cron_events.c:173-248 | the entry of any event of up to a day, run from any minute on, sends exactly what the event means: a start in every scheduled minute in which it waits, an end its duration later, and nothing else; it is gone exactly when it will not come again |
| `Sequence.CatchUp` | src/sequence_events.c:118-160 | catching up in two steps passes the same events as in one and ends at the same place |
| `Sequence.UpdateTwice` | src/sequence_events.c:118-160 | updates at t1 and t2 send what one update at t2 sends, over the wrap-around of the clock |
| `Sequence.TimestampIsOfLastEvent` | src/sequence_events.c:156-157 | the stored time stamp is the time of the last event passed |
| `Sequence.SendsTheRest` | src/sequence_events.c:118-160 | a repeated sequence sends its events in order and is done exactly when the time of all of them has passed |
| `Sequence.RestLength` | src/sequence_events.c:118-160 | the stored count means that many runs of all events |
| `Sequence.RestIs` | src/sequence_events.c:118-160 | the events come in order, over and over |
| `Sequence.EndlessGoesRound` | src/sequence_events.c:118-160 | an endless sequence is never done: it sends its events in order, over and over, exactly those whose time has come |
| `Sequence.RunsAsRequestedIff` | src/sequence_events.c:47-57 | a requested count is honoured exactly when it is not 255 |
| `Sequence.Sequence.constructor` | src/sequence_events.c:47-57 | the configured sequence |
| `Sequence.Sequence.Update` | src/sequence_events.c:118-160 | sends what is due and returns the time to the next event, never 0 before the end; an endless sequence goes round |
| `Sequence.Sequence.PassEvents` | src/sequence_events.c:122-157 | the loop terminates and passes exactly the due events |
| `Sequence.Populate` | src/sequence_events.c:218-230 | every pair becomes its two events at their absolute times, in 16 bits, or the events are more than was allocated for |
| `Sequence.CountEvents` | src/sequence_events.c:206-212 | the number of events in 16 bits |
| `Sequence.CutIsExactIff` | src/sequence_events.c:218-230 | events in 16 bits are the events themselves exactly when all times fit |
| `Sequence.MakeRelative` | src/sequence_events.c:235-241 | absolute times become delays in place |
| `Sequence.TimesAddUp` | src/sequence_events.c:235-241 | the running sums of the delays are the absolute times |
| `Sequence.Compile` | src/sequence_events.c:205-245 | the running sums of the result are the absolute times of all pairs in 16 bits, as a multiset of events, in order; these are their times exactly when all fit. It overruns its allocation exactly from 2^16 events on |
| `LedBlink.LedBlinker.constructor` | src/led_blink.c:62-69 | a pattern starts with the LED on |
| `LedBlink.LedBlinker.Update` | src/led_blink.c:93-135 | the pattern is where the time says, by the catch-up law of sequences; the LED is on in even periods; an endless pattern goes round and is always kept |
| `LedBlink.LedBlinker.PassPeriods` | src/led_blink.c:98-123 | the loop passes exactly the due periods |
| `LedBlink.BlinksAsRequestedIff` | src/led_blink.c:62-69 | a requested count is honoured exactly up to 14 |
| `Random.RandomState.Range32` | src/util/random.c:207-220 | the remainder of the first output below the limit, within the range |
| `Random.LimitIs` | src/util/random.c:211-213 | the limit is the greatest multiple of the span that a 32-bit number reaches |
| `Random.RandomState.WeightedChoice` | src/util/random.c:326-330 | the choice whose part of the whole holds the key; from a total above 2^31 on it is always that of key 0, and no output is drawn |
| `Random.WeightsInit` | src/util/random.c:279-285 | the running sums of the weights in 32 bits, which are the sums exactly when the total fits |
| `Random.SearchWeights` | src/util/random.c:288-301 | the binary search finds the choice of a key, and the last one for a key that is too great |
| `Random.SelectsOne` | src/util/random.c:288-301 | there is only one |
| `Random.OutputsInBlocks` | src/util/random.c:207-220 | every block of outputs selects a choice equally often |
| `Random.WeightsAreExact` | src/util/random.c:207-330 | of the accepted outputs exactly weights[i] * (limit / total) select choice i |

## Left out

- DHash.DHash.InsertEx: between the two stated conditions, whether a pair is left over is what the probe function says and nothing shorter; key equality is `==`, and a key that is not `Admits`ted is covered by `HashTable.TombstoneMatch` only.
- DHash.DHash.Grow: whether the allocation succeeds is the parameter `granted`; release callbacks, dh_reserve_capacity, statistics and dumps are not modelled.
- DHash.DHash.constructor: the allocation succeeds; the choice between fast modulus and division in the initial probe is the remainder in both cases.
- HashTable.HeadroomFalls: the measure is per insertion; a bound on the number of probes is not stated.
- ErrorLog.ErrorLog.Mount: after a full sector latest_offset is the start of that sector, as in the code, and not its last entry. One sector of one entry is not modelled: there each write erases sector 0 and writes it again, and the newest entry is read back.
- LogDb.LogDb.WriteBlock: a program happens whole or not at all, torn blocks are left out; a header is taken to validate exactly where a block starts, so the CRC of headers and data is not part of it.
- LogDb.LogDb.Mount: at least two sectors. The return value `false` for a head sector with garbage behind the last block needs torn writes and does not occur.
- LogDb.LogDb.ReadNextHeader: logdb_read_next, whose retry after a bad header reads with a data length of zero, is left out.
- LogIndex.LogIndex.Create: the index covers what an iteration delivers, which is the whole log but for the case of `LogDb.IteratesAllIff`; the hash is taken as a map.
- IsrQueue.IsrQueue.Push: the tail is not at slot 0 or the elements fit; otherwise the call does not return, see `IsrQueueConcurrent.PushReturnsIff`.
- IsrQueueConcurrent.FirstInFirstOut: overwriting off, one producer and one consumer, sequentially consistent atomics; isr_queue_discard (a pop without the copy), peeking and flushing are not among its steps.
- IntMath.IsqrtFixed: word widths are multiples of 8, as on every C implementation with 8-bit bytes; ilog_b, ilog10, the powers of two, the decimal conversions and the curve functions are left out as easier members.
- Glob.GlobMatch: no directory separators; what a run that reads past an end makes of the bytes there is not stated.
- Crc16.DetectsTwoBytes: other burst lengths and Hamming distances are not stated; crc8.c and crc32.c repeat the construction with other polynomials.
- MemPool.PoolSet.Alloc: plain elements only; reference counted allocation, aligned allocation, static pools, releasing pools, histograms and locks are left out.
- MemPool.PoolSet.AddPool: the list is a sequence, its links are not modelled; the free lists inside the pools are linked memory.
- MemPool.Pool.constructor: at least one element, and alignment has already been applied to the element size.
- BipBuf.BipFifo.Pop: what operations do after an overdrawn pop is not stated.
- BipDeque.BipDeque.PopFront: the same; purge_front and purge_back are left out, and the C++ BipFifo repeats the template.
- PropSerialize.PropDecode: kinds uint, int, string and blob, a string being as long as its size says; allocation succeeds; varints of more than five bytes shift by more than the width of the word, which C leaves undefined.
- PropDb.Serialize: every database has properties that can be encoded; removing properties, setting attributes, names, the messages for single properties and history are left out.
- PropDb.SaveAndRestore: what is read back from a block that a wrapped length has cut off is not stated.
- PropDb.PropDb.Deserialize: blocks of other bytes than `prop_db_serialize` writes are left out, and without room for all entries what is said is how each of them was set.
- CronStorage.EventList.DoPendingEvents: locks are taken as absent, see above; local time is a parameter, one value for each minute, and a walk is left after a number of visits that is a parameter too, since it may not end; the condition is for all that the free elements may hold, since for special contents a walk over freed elements can come out right; the periodic caller, scheduling at a point in time and the textual forms of a schedule are left out.
- Cron.FieldSpecToBitmap: an `unsigned long` has 64 bits, as the shifts of `1ul` here and in time_match need it.
- Cron.StartThenEnd: for a clock that advances minute by minute; at a change of daylight saving time an end may come earlier or later.
- Sequence.Sequence.Update: no completion callback and no list of sequences; an endless sequence has some delay that is not zero, otherwise the loop of the source does not end.
- Sequence.Compile: qsort is a parameter that sorts by time, and the allocation succeeds.
- LedBlink.LedBlinker.Update: one blinker without a completion callback; an endless pattern has some period that is not zero.
- Random.RandomState.Range32: the generator is a parameter; spans are below 2^31, beyond which the difference overflows a signed integer; some later output is below the limit, otherwise the loop of the source does not end; random_range64, random_bytes and random_bool are left out.
- Random.RandomState.WeightedChoice: a total of exactly 2^31, for which the span overflows a signed integer, is left out.
- Search.SearchNearest: at least one item, and the items ascend; search_exact is left out as an easier member.
- Threads, callbacks, console, drivers and log compression are left out: input and output, or code that is not part of the repository.
