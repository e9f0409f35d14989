# Verified models of the middleware's stateful components

Dafny models of small stateful components of the middleware, each of which puts something
faster or concurrent in the place of a simple object, with proofs that every run still
behaves like the simple object, or exactly when it does not.

`dafny verify dfyconfig.toml` checks everything.

## How the models are built

* Code that works in place is a class with the source's fields and loops. Each method is
  proved equal to a function on values, and what the source promises is proved of that
  function over whole runs. Files come in groups: `AlertModel`, `AlertPairs`,
  `AlertCooldowns` and `AlertEngine`, `HistogramModel` and `Histogram`, `IoLoopModel`,
  `IoLoopCalls` and `IoLoop`, `WireFormat` with `WireDelivery`, `WireDiscard`,
  `WireVerdicts` and `WireSocket`, `CollectorModel`, `CollectorRuns` and `Collector`,
  `DeviceTable` with `DeviceHash`, `Registry` and `DeviceRegistry`, `PoolModel` and
  `MemoryPool`.
* Code that runs concurrently is a step relation on values with one step per atomic access
  (`RingInterleaving`, `CallbackQueue` with `CallbackProgress` and `CallbackOverflow`,
  `PoolInterleaving`, `DeviceReferences`), and the theorems are about every interleaving.
* What comes from outside is a parameter. Sockets, callbacks, clocks and stop flags are
  finite scripts of what they will do; the kernel's completions are an arbitrary order with
  arbitrary results.
* Fixed-width arithmetic is written out where it shows: the 64-bit smear of `nextPow2`, the
  32-bit hash, `align8` on 64-bit words, the bitmap's bytes, timestamps whose difference
  wraps, 32-bit and 64-bit counters, 32-bit buffer indices.

## Where the code does not do what its documentation says

The models follow the code.

* `dev/hal/interface/hal_interface.c` promises NO_MEMORY when the load factor is exceeded. It
  also answers so when tombstones have used up every slot, as they do in the program's own
  table (`Registry.ExhaustedForever`, `Registry.HalTableExhausts`).
* `dev/proxy/base/proxy_thread_pool.h` promises first-in first-out order, dropping of the
  oldest callback and a drained queue. On overflow the newest runs first and the consumer
  waits at an empty slot (`CallbackOverflow.OverflowBreaksOrder`, `CallbackOverflow.StuckStays`);
  order is kept exactly up to cap outstanding tickets (`CallbackProgress.OrderThreshold`). A
  post that comes after stop() has cleared its flag can be lost, whatever the state
  (`CallbackProgress.LateTicketCanBeLost`).
* `dev/core/io_uring_loop.h` promises that an unregistered callback is not called. A request
  in flight calls it once more, with descriptor -1; it is not called exactly when none is in
  flight (`IoLoopModel.UnregisteredCallIsReached`, `IoLoopModel.NeverCalledAgainIff`).
* `dev/core/memory_pool.h` asks for blocks of 8 bytes or more; the code rejects only a size of
  0 or one that overflows, and rounds up (`MemoryPool.Align8Rounds`). It does not check the
  product of block size and count: when that wraps, the pool is created all the same and
  hands out blocks that lie outside its region (`MemoryPool.BlocksFitIff`,
  `MemoryPool.OverflowingPool`).
* `mon_recv_msg` says AGAIN when there is nothing to read yet; it also does so after it has
  consumed a header (`WireDelivery.RetryIsSafeIff`, `WireDelivery.PayloadStallDerails`), and
  then a session that retries loses its place (`WireDelivery.DeliveredIffUnstalled`).
  `mon_discard_payload` documents two codes and also returns EOF (`WireDiscard.DiscardMayEnd`)
  and AGAIN, the latter exactly when a read blocks before a chunk (`WireDiscard.DiscardStallsIff`);
  calling it again is then safe only for a single chunk (`WireDiscard.DiscardRetryIsSafeIff`).
  `dev/monitoring/docs/PROTOCOL.md` gives another magic, version 2 and a 12-byte header; the code has
  0x4D4F4E00, version 1 and 16 bytes.
* `dev/monitoring/alerts/alert_engine.h` promises that the same condition within its cooldown
  is not listed twice. That needs names that fit (`AlertModel.RepetitionIsRecognisedIff`) and,
  for each pair, one cooldown from its second call on that is no shorter than its first
  call's; less is not enough (`AlertPairs.ListedOnceIffSettled`).
* `histogram_percentile` documents linear interpolation; it returns a bucket's bound, which
  agrees only at the end of a bucket (`HistogramModel.PercentileIsInterpolatedIff`).
* `dev/monitoring/collectors/collector_base.h` has a failed tick lead to STALE and a connect
  lead to SYNCING. A failed tick itself changes no state before the third in a row, only
  lateness makes a collector STALE, and SYNCING is never entered (`CollectorModel.OfflineIff`,
  `CollectorModel.StaleIff`, `CollectorModel.RunsAreCounted`).

## Model

| member | source | states |
|---|---|---|
| RingInterleaving.StepRefinesQueue | dev/core/ring_buffer.c:101-134 | each atomic load, byte copy or index store of the writer or the reader, even one made from a stale cached index, is on the shared memory an enqueue at the back of a queue with room, a dequeue of its front item, or nothing; and it keeps the invariant |
| RingInterleaving.RunsDeliverInOrder | dev/core/ring_buffer.c:101-134 | over every interleaving of one writer and one reader from a new ring: items read are a prefix of items written, what is in flight is the difference and at most capacity-1 items, and the slot being filled is never the slot being copied out |
| RingInterleaving.RunKeepsInv | dev/core/ring_buffer.c:101-158 | the invariant holds along every interleaving, and what was written is exactly the items of the calls that published |
| RingInterleaving.RefusalIsExact | dev/core/ring_buffer.c:105-128 | FULL exactly when capacity-1 items are held at the writer's load of the tail; EMPTY exactly when none is held at the reader's load of the head; a call that publishes or releases an item answers success |
| RingInterleaving.AnswersAreTrue | dev/core/ring_buffer.c:136-158 | is_full, is_empty and count answer the writer and the reader with what was true at an instant within the call, wrap-around included |
| RingInterleaving.OutsideObserverMiscounts | dev/core/ring_buffer.c:152-158 | a concrete interleaving, for items of any size, in which count, called by a third party, answers capacity-1 although one item at most was held at every instant of the call |
| RingInterleaving.OutsideObserverIsRightIff | dev/core/ring_buffer.c:152-158 | over every interleaving, a third party counts what the ring holds at its load of the tail if and only if the items published between its two loads are a multiple of the capacity, and what it held at its load of the head if and only if the items taken in between are |
| SlotLayout.Layout.PokeIsLocal | dev/core/ring_buffer.c:108-131 | a byte written into one slot of the data region changes that byte of that slot and no other slot |
| SlotLayout.Layout.AdvanceHead | dev/core/ring_buffer.c:103-117 | when the ring is not full, storing head + 1 appends the item in the head slot to the queue; full means capacity-1 items |
| SlotLayout.Layout.AdvanceTail | dev/core/ring_buffer.c:122-133 | when the ring is not empty, storing tail + 1 removes the oldest item |
| RingBuffer.Ring.Write | dev/core/ring_buffer.c:101-118 | appends the item and answers success, or leaves the ring alone and answers FULL, exactly when capacity-1 items are held |
| RingBuffer.Ring.Read | dev/core/ring_buffer.c:120-134 | hands over the oldest item and removes it, or answers EMPTY exactly when there is none |
| RingBuffer.Ring.Count | dev/core/ring_buffer.c:152-158 | the number of items held |
| RingBuffer.Ring.IsFull | dev/core/ring_buffer.c:136-142 | whether capacity-1 items are held |
| RingBuffer.Ring.IsEmpty | dev/core/ring_buffer.c:144-150 | whether no item is held |
| DeviceTable.HalTableIsValid | dev/hal/interface/hal_interface.h:64 | the program's own table, 128 slots hashed by FNV-1a with a maximum load of 96, is one the theorems below speak about |
| DeviceTable.IndexIsMod | dev/hal/interface/hal_interface.c:331-338 | the masked probe is the hash plus the step, modulo the table size, when the size is a power of two |
| DeviceTable.ProbeVisitsOnce | dev/hal/interface/hal_interface.c:331-365 | for every hash, each slot is visited by exactly one of the size-many probes |
| Registry.FindMeetsMap | dev/hal/interface/hal_interface.c:427-454 | the probe for a name ends at that name's slot if the map holds the name and reports absence otherwise, tombstones or not |
| Registry.RemoveMeetsMap | dev/hal/interface/hal_interface.c:385-407 | the probe for a device ends at its slot exactly when the map holds that device under its name |
| Registry.PlaceMeetsMap | dev/hal/interface/hal_interface.c:336-362 | the insertion probe reports a duplicate exactly when the name is in the map, and otherwise a free slot reachable from the home slot exactly when an EMPTY slot remains; a tombstone is reused only after the rest of the chain was searched; the slot picked is the first on the path that is not in use |
| Registry.InsertRefines | dev/hal/interface/hal_interface.c:341-349 | filling that slot adds the name to the map and keeps every chain unbroken and every name unique |
| Registry.DeleteRefines | dev/hal/interface/hal_interface.c:399-405 | turning a live slot into a tombstone removes that name from the map and keeps every other entry findable |
| Registry.RegisterRefines | dev/hal/interface/hal_interface.c:323-366 | a registration is NO_MEMORY at the maximum load; below it, BUSY exactly when the name is present, a success exactly when it is absent and an EMPTY slot remains, and NO_MEMORY otherwise |
| Registry.UnregisterRefines | dev/hal/interface/hal_interface.c:385-410 | an unregistration removes exactly the device registered under its own name |
| Registry.StepRefinesMap | dev/hal/interface/hal_interface.c:323-454 | register, unregister and find on the probed table answer and act as on a finite map from name to device |
| Registry.RunRefinesMap | dev/hal/interface/hal_interface.c:323-454 | over every sequence of operations from the empty registry every answer is the map's, and count is the number of entries and of live slots |
| Registry.EmptiesNeverGrow | dev/hal/interface/hal_interface.c:331-407 | at no point of a run is a slot EMPTY that was in use at an earlier point of it |
| Registry.ExhaustedForever | dev/hal/interface/hal_interface.c:331-365 | once no EMPTY slot is left no registration ever succeeds again, however few devices remain |
| Registry.ChurnExhausts | dev/hal/interface/hal_interface.c:331-407 | a run that ends so, in every table: registering and unregistering one device per home slot leaves an empty registry that refuses every registration |
| DeviceTable.NameAtHasHome | dev/hal/interface/hal_interface.c:62-73 | each of the 128 slots of the program's own table is the FNV-1a home of a name of one byte |
| DeviceHash.RoundIsXorTimesPrime | dev/hal/interface/hal_interface.c:62-68 | one round of the hash is the exclusive or of the 32-bit hash with a byte, times 16777619, modulo 2^32 |
| DeviceHash.HashExtends | dev/hal/interface/hal_interface.c:62-68 | the hash starts at 2166136261 and every character takes part in turn: a name longer by one has that round of the shorter one's hash |
| DeviceHash.SentinelsGiveWay | dev/hal/interface/hal_interface.c:69-73 | 0 and 2^32-1, which mark free slots, become 1 and 2^32-2, and no other value changes |
| DeviceHash.HashOfA | dev/hal/interface/hal_interface.c:62-73 | the published value for the letter a, 0xE40C292C |
| Registry.HalTableExhausts | dev/hal/interface/hal_interface.c:331-407 | so 128 such names, registered and unregistered in turn, use up the program's own table |
| Registry.ListedIffLive | dev/hal/interface/hal_interface.c:470-489 | the devices listed are exactly those in live slots |
| Registry.ListedNext | dev/hal/interface/hal_interface.c:470-489 | a listing goes through the table in slot order: a live slot adds its device at the end, not listed before, and any other slot adds nothing |
| DeviceRegistry.Registry.Register | dev/hal/interface/hal_interface.c:323-366 | the array, the count and the reference count after the call, by the map; one reference taken exactly on success |
| DeviceRegistry.Registry.Unregister | dev/hal/interface/hal_interface.c:385-410 | removes the device exactly when it is the one registered, drops one reference then, and tears down if that was the last |
| DeviceRegistry.Registry.Find | dev/hal/interface/hal_interface.c:427-454 | the device of that name, with one reference taken on it and on no other, or none |
| DeviceRegistry.Registry.List | dev/hal/interface/hal_interface.c:470-489 | the first live devices in slot order, as many as asked for, one reference taken on each and on no other |
| Devices.TeardownInOrder | dev/hal/interface/hal_interface.c:180-202 | a teardown is stop, close, cleanup, destroy in that order, each at most once, stop only from the running state and destroy always |
| Devices.Device.Unref | dev/hal/interface/hal_interface.c:180-202 | one reference less, and the teardown exactly when it was the last |
| DeviceReferences.StepKeepsInv | dev/hal/interface/hal_interface.c:156-202 | each event of any thread keeps the counters equal to the handles held plus the table's |
| DeviceReferences.EventHandsOut | dev/hal/interface/hal_interface.c:156-489 | creation, a lookup that finds its device, a live slot of a listing and a ref hand out one reference; an unref takes one back; an unregistration hands over the table's exactly if the device is in the table; a registration leaves its caller's |
| DeviceReferences.CountsAreExact | dev/hal/interface/hal_interface.c:156-489 | over every run of creations, registrations, lookups, listings and releases by any threads in which each holder releases once: ref_count equals outstanding handles plus one if the device is in the table, so every device a lookup or a listing hands out is alive, and the teardown has run exactly once for a device whose count reached zero and never for another |
| MemoryPool.Align8Rounds | dev/core/memory_pool.c:41-44 | align8 gives the least multiple of 8 not below its argument, on 64-bit words that do not overflow |
| MemoryPool.ScanBlocks | dev/core/memory_pool.c:237-243 | a byte whose complement is 0 has every block used; otherwise the trailing zeros of the complement give the byte's lowest free block |
| MemoryPool.MarkOne | dev/core/memory_pool.c:246 | setting the bit marks that block and no other |
| MemoryPool.UnmarkOne | dev/core/memory_pool.c:324 | clearing the bit frees that block and no other |
| MemoryPool.Pool.Scan | dev/core/memory_pool.c:226-266 | the hinted two-pass scan finds the lowest free block, or nothing exactly when no block is free; what it finds lies in the bytes of its first pass, from the hint's on, and is never a padding bit |
| MemoryPool.Pool.Alloc | dev/core/memory_pool.c:217-275 | hands out the lowest free block with all its bytes zero and every other block unchanged, or NULL exactly when none is free; the counters and the hint invariant (every block below the hint is used) as the simple allocator has them |
| MemoryPool.Pool.Free | dev/core/memory_pool.c:279-335 | frees exactly the block whose address is given; a null, foreign, unaligned or already free pointer changes nothing |
| MemoryPool.Pool.Reset | dev/core/memory_pool.c:353-370 | empties the pool and every counter |
| MemoryPool.FreeFindsBlock | dev/core/memory_pool.c:262-307 | the division in free recovers the index that alloc multiplied |
| MemoryPool.BlocksAreDisjoint | dev/core/memory_pool.c:262-264 | blocks of different indices are disjoint ranges inside block_size times block_count bytes |
| MemoryPool.BlocksFitIff | dev/core/memory_pool.c:97-143 | the blocks, at the places the 64-bit product gives them, lie inside the region mapped if and only if block_size times block_count is below 2^64, which creation does not check |
| MemoryPool.OverflowingPool | dev/core/memory_pool.c:97-143 | for instance not two blocks of 2^63 + 8 bytes, in a region of 16 |
| PoolModel.RunsAreConsistent | dev/core/memory_pool.c:245-332 | over every sequence of alloc, free and reset: used blocks are the marked ones and at most all, and alloc_count - free_count is their number |
| PoolModel.PeakIsMaximum | dev/core/memory_pool.c:254-258 | peak_used is the greatest number of used blocks since creation or the last reset, and was reached |
| PoolModel.CountersAreExact | dev/core/memory_pool.c:217-334 | since the last reset alloc_count + fail_count is the allocations tried, fail_count those that found every block in use, and free_count the blocks in use given back |
| PoolInterleaving.StepKeepsInv | dev/core/memory_pool.c:224-334 | with locking on, every step of any thread keeps each block in one thread's hands at most and the bytes its owner wrote |
| PoolInterleaving.OthersBlocksUntouched | dev/core/memory_pool.c:260-264 | the zeroing after the unlock, like every other step, changes no byte of a block that another thread owns |
| PoolInterleaving.OwnersSeeTheirOwnBytes | dev/core/memory_pool.c:224-334 | over every interleaving of owner-respecting threads, each owner finds in its block what it wrote there |
| PoolInterleaving.AllocGivesZeroedBlock | dev/core/memory_pool.c:217-276 | an allocation takes the lowest free block and fails exactly when there is none, and when it returns its thread holds that block, all zeros |
| PoolInterleaving.OwnerStepsTakeEffect | dev/core/memory_pool.c:217-334 | a byte stored is in the block, a block given on is the other thread's, and a freed block is free again |
| QueueCapacity.NextPow2IsLeast | dev/proxy/base/proxy_thread_pool.cpp:14-20 | the or-and-shift smear gives the least power of two not below n, for every 64-bit n, 0 and 1 included; a result of 2^64 is cut off to 0 |
| QueueCapacity.CapacityIsPow2 | dev/proxy/base/proxy_thread_pool.cpp:24-29 | the capacity is the least power of two not below the depth and 16 |
| CallbackQueue.StepKeepsInv | dev/proxy/base/proxy_thread_pool.cpp:47-114 | every atomic step of any number of producers, the consumer and stop() keeps the invariant, as long as no post leaves its wait early |
| CallbackQueue.DeliversInTicketOrder | dev/proxy/base/proxy_thread_pool.cpp:47-114 | over every interleaving without overflow, the callbacks run are the non-empty ones of a prefix of the tickets in ticket order, each once, every later ticket is in its slot or with its post, and stop() returns only after all posted before it have run |
| CallbackQueue.StopWaitsForEarlierPosts | dev/proxy/base/proxy_thread_pool.cpp:80-114 | over every run without overflow, when stop() has returned every callback posted before it cleared the flag has run, in ticket order |
| CallbackQueue.FittingClaimsNeverOverflow | dev/proxy/base/proxy_thread_pool.cpp:47-72 | if every claim finds fewer than cap tickets from tail on, no post ever takes the overflow branch |
| CallbackQueue.SlotsAreExclusiveIff | dev/proxy/base/proxy_thread_pool.cpp:49-50 | the outstanding tickets have slots of their own exactly when at most cap of them are outstanding |
| CallbackQueue.NothingRunsAfterExit | dev/proxy/base/proxy_thread_pool.cpp:93-114 | a consumer that has left its loop runs nothing more |
| CallbackQueue.ExitDrainsExactly | dev/proxy/base/proxy_thread_pool.cpp:74-94 | a consumer leaves its loop with exactly the tickets below its last look at the head consumed |
| CallbackProgress.ComesToRest | dev/proxy/base/proxy_thread_pool.cpp:47-114 | from every state of every run without overflow, whatever posts are under way, the dispatcher can go on without overflow and without another post until its consumer idles or has exited |
| CallbackProgress.EveryTicketCanRun | dev/proxy/base/proxy_thread_pool.cpp:47-114 | and every callback claimed has then run in ticket order, unless the consumer acts on a load of head that is out of date |
| CallbackProgress.StopCanReturn | dev/proxy/base/proxy_thread_pool.cpp:80-89 | a stop() that is waiting can so return, with every callback claimed by then run |
| CallbackProgress.OrderThreshold | dev/proxy/base/proxy_thread_pool.cpp:47-72 | all runs whose claims each find fewer than B tickets outstanding run their callbacks in ticket order if and only if B is at most cap |
| CallbackProgress.LateTicketCanBeLost | dev/proxy/base/proxy_thread_pool.cpp:80-94 | from every state of every run without overflow in which stop() has cleared the flag, a callback posted now is lost in some run: claimed, and called in no continuation |
| CallbackOverflow.OverflowBreaksOrder | dev/proxy/base/proxy_thread_pool.cpp:57-66 | a concrete run of cap + 1 posts in which the newest callback runs first and the consumer ends waiting at an empty slot |
| CallbackOverflow.StuckStays | dev/proxy/base/proxy_thread_pool.cpp:57-66 | from that state nothing more runs and stop() never returns until a later ticket comes round to the slot |
| CallbackOverflow.GivesUpAtTest65 | dev/proxy/base/proxy_thread_pool.cpp:56-69 | over every run, with overflow or without, a post waits through at most 64 tests that find its slot ready and empties the slot at exactly the 65th |
| CallbackOverflow.DropEmptiesSlot | dev/proxy/base/proxy_thread_pool.cpp:58-66 | a post that gives up leaves the slot without callback and not ready before it stores its own, so that the consumer finds nothing there and the old callback is dropped |
| CallbackOverflow.SlotsKeepNothingRun | dev/proxy/base/proxy_thread_pool.cpp:47-114 | over every run without overflow a slot holds a callback only while it is ready or about to be, so none keeps a callback that was run |
| CallbackOverflow.LatePostIsLost | dev/proxy/base/proxy_thread_pool.cpp:80-94 | a concrete run from the start in which a callback posted after the consumer's last look is never run |
| IoLoopModel.ProcessInv | dev/core/io_uring_loop.c:218-329 | handling any completion with any result, any callback result and any effects of the callback keeps the accounts of records, buffers and in-flight requests, and leaves an op in flight again exactly when its kind, its result, the callback and its descriptor ask for it |
| IoLoopCalls.CompletionCalls | dev/core/io_uring_loop.c:218-329 | the exact callback call of each completion: none for the wakeup; for a write with a callback its descriptor, the result and its data; for an op with a callback its descriptor and the result, a timer only on -62 or 0, a read that brought something with its own buffer, not yet freed, and that many bytes, and otherwise no data |
| IoLoopCalls.CompletionHandles | dev/core/io_uring_loop.c:218-329 | and all else it does: its record is freed, every other request stays in flight as it was, the writes its callback submitted are in flight, and the only other request is the one that arms the same op again |
| IoLoopCalls.EffectsSubmit | dev/core/io_uring_loop.c:496-530 | each write submitted with a valid descriptor and length gets a record and a heap buffer of its own and is in flight, in order, and nothing else is submitted |
| IoLoopCalls.WriteIsCalledOnce | dev/core/io_uring_loop.c:218-329 | over every run a write in flight waits uncalled until its own completion, which comes once at most, and has then been called exactly once, with that result, if it has a callback |
| IoLoopCalls.CallsAreCompletions | dev/core/io_uring_loop.c:218-329 | over every run each target is called exactly as often as its completions call for |
| IoLoopModel.StartInv | dev/core/io_uring_loop.c:440-465 | starting the loop puts exactly one request in flight for the wakeup and for each op that can have one, a read with a pool block exactly if the pool gave one |
| IoLoopModel.RunsKeepOwnership | dev/core/io_uring_loop.c:91-329 | over every completion order and callback behaviour: records are those in flight plus those freed, each freed once; pool blocks are held by in-flight reads only; each op and the wakeup have at most one request in flight; an op whose call returned nonzero is never called again |
| IoLoopModel.UnregisteredOpStillCalled | dev/core/io_uring_loop.c:428-438 | after an unregistration the request in flight still calls the op, with descriptor -1, and is not armed again |
| IoLoopModel.UnregisteredCallIsReached | dev/core/io_uring_loop.c:218-329 | such calls happen: from every start with a read or poll op and a timer whose callback unregisters it there is a run in which the op is called afterwards, with descriptor -1 |
| IoLoopModel.ClearedIsCalledAtMostOnce | dev/core/io_uring_loop.c:218-329 | over every run an op whose descriptor has been cleared is called at most once more |
| IoLoopModel.NeverCalledAgainIff | dev/core/io_uring_loop.c:218-329 | and it is never called again, in any run, if and only if it had no request in flight |
| IoLoopModel.RegisterOverwritesIff | dev/core/io_uring_loop.c:406-426 | a registration takes the place of an earlier op if and only if some op of its type has a negative descriptor, the first such and no other; otherwise it takes a new slot, or is refused at 64 |
| IoLoopModel.SecondTimerReplacesFirst | dev/core/io_uring_loop.c:406-426 | so a second timer replaces the first, whose descriptor is -1 |
| IoLoop.Loop.Register | dev/core/io_uring_loop.c:406-426 | the op table after a registration: the first free slot of the same type, else a new slot, else refusal |
| IoLoop.Loop.UnregisterFd | dev/core/io_uring_loop.c:428-438 | clears the first op with that descriptor and answers 0, or answers -1 when there is none and -EINVAL for a negative descriptor, with nothing changed |
| IoLoop.Loop.SubmitWrite | dev/core/io_uring_loop.c:496-530 | one record and one buffer in flight for the write |
| IoLoop.Loop.ProcessCqe | dev/core/io_uring_loop.c:218-329 | does what the transition function says for each kind of request |
| IoLoop.Loop.RunLoop | dev/core/io_uring_loop.c:440-494 | one run on a fresh loop follows the transition relation, keeps the invariant, and stops early only at a completion after which the stop flag was clear, or before the first one exactly when it was clear at entry |
| WireFormat.HeaderRoundTrip | dev/monitoring/protocol/monitor_wire_format.h:99-106 | decoding the 16 bytes of a header gives back every field |
| WireVerdicts.HeaderVerdict | dev/monitoring/protocol/monitor_wire_format.h:123-132 | once 16 bytes have come: FRAME if and only if they do not begin with 00 4E 4F 4D or the sixth is not 1, else SIZE if and only if the length in bytes 8 to 11, lowest first, is over 16777216, else OK; and each field handed over is its bytes |
| WireVerdicts.FrameLayout | dev/monitoring/protocol/monitor_wire_format.h:97-114 | the 16 bytes that go out before a payload, one by one |
| WireVerdicts.ReadStopsAt | dev/monitoring/protocol/monitor_wire_format.h:64-84 | every read ends with IO exactly when the event it stopped at was an error, with EOF exactly when it was the peer's close, and met neither before |
| WireVerdicts.WriteStopsAt | dev/monitoring/protocol/monitor_wire_format.h:38-50 | every write ends with IO exactly when the event it stopped at was an error |
| WireDelivery.HeaderAccounting | dev/monitoring/protocol/monitor_wire_format.h:123-132 | a header is filled in exactly when 16 bytes were consumed; AGAIN only after none |
| WireDelivery.MessageAccounting | dev/monitoring/protocol/monitor_wire_format.h:143-159 | OK after exactly a frame, AGAIN after nothing or exactly a header, SIZE after exactly a header; the length read is the payload's on OK and 0 otherwise |
| WireDiscard.DiscardAccounting | dev/monitoring/protocol/monitor_wire_format.h:165-176 | a discard succeeds exactly when it skipped the whole length |
| WireDiscard.DiscardStallsBetweenChunks | dev/monitoring/protocol/monitor_wire_format.h:165-176 | a discard that reports AGAIN has skipped a whole number of 256-byte chunks |
| WireDiscard.DiscardStallsIff | dev/monitoring/protocol/monitor_wire_format.h:161-176 | over every connection, a discard of bytes that are all there reports AGAIN, which is not among its documented codes, if and only if a read blocks right before the first byte of one of its 256-byte chunks, told from the script alone |
| WireDiscard.DiscardSucceedsIff | dev/monitoring/protocol/monitor_wire_format.h:161-176 | over a connection that does not fail and brings enough, it reports OK, behind exactly the length, if and only if no chunk stalls so, and AGAIN otherwise |
| WireDiscard.DiscardMayEnd | dev/monitoring/protocol/monitor_wire_format.h:161-176 | a peer that closes before anything is skipped makes it report EOF, not documented either |
| WireDiscard.DiscardRetryIsSafeIff | dev/monitoring/protocol/monitor_wire_format.h:161-176 | whatever the connection does, AGAIN from a discard means that nothing was skipped, so that the same call can be repeated, if and only if the length is at most 256 |
| WireDelivery.MessageArrives | dev/monitoring/protocol/monitor_wire_format.h:143-159 | at the boundary of a frame that fits, the message comes unchanged and the stream moves to the next boundary, or the call reports AGAIN or the connection's failure; never FRAME or SIZE |
| WireDelivery.StallsAtPayloadIff | dev/monitoring/protocol/monitor_wire_format.h:143-159 | a call at a frame's boundary reports AGAIN past the header if and only if there is a payload and the script of reads does not block before the header but does right behind it |
| WireDelivery.RetryIsUnsafeIff | dev/monitoring/protocol/monitor_wire_format.h:143-159 | exactly then does a call that says AGAIN leave the stream off the frame's boundary |
| WireDelivery.RetryIsSafeIff | dev/monitoring/protocol/monitor_wire_format.h:143-159 | retrying after AGAIN is safe whatever the connection does if and only if the message has no payload |
| WireDelivery.PayloadStallDerails | dev/monitoring/protocol/monitor_wire_format.h:149-156 | a concrete message and script where a stall at a payload's first byte makes the retry read payload bytes as a header |
| WireDiscard.OversizeCanBeSkipped | dev/monitoring/protocol/monitor_wire_format.h:150-176 | after SIZE for a message at a boundary, a successful discard of the announced length leaves the stream at the next frame |
| WireDiscard.OversizeIsSkippedIff | dev/monitoring/protocol/monitor_wire_format.h:119-176 | over a connection that does not fail and brings enough, a message too large for the buffer or the protocol, whose header is not stalled, is announced by SIZE, and the discard that follows reaches the next frame if and only if no read blocks right before the first byte of a chunk |
| WireDelivery.FramesArriveInOrder | dev/monitoring/protocol/monitor_wire_format.h:64-159 | under every fragmentation and every pattern of interrupts, stalls and failures, as long as no stall comes right before a payload's first byte, what a session has received are the first of the messages framed, unchanged and in order; if it reports success they are all, and it stands behind the last frame |
| WireDelivery.UnstalledDelivers | dev/monitoring/protocol/monitor_wire_format.h:64-159 | if moreover the connection does not fail and brings enough, the session succeeds |
| WireDelivery.DeliveredIffUnstalled | dev/monitoring/protocol/monitor_wire_format.h:64-159 | over a connection that does not fail and brings enough, a session receives exactly the messages framed if and only if no read blocks right before a payload's first byte, told from the script alone |
| WireDelivery.SendPutsFrame | dev/monitoring/protocol/monitor_wire_format.h:97-114 | sending puts a prefix of the frame on the wire, the whole of it exactly when it succeeds |
| WireDelivery.AbsentPayloadIsShort | dev/monitoring/protocol/monitor_wire_format.h:107-112 | with an absent payload what goes out is a whole frame if and only if the announced length is 0 |
| WireDelivery.SendManyCompletes | dev/monitoring/protocol/monitor_wire_format.h:38-50 | sending messages succeeds when no write fails and enough of them take something |
| WireDelivery.SentIsReceived | dev/monitoring/protocol/monitor_wire_format.h:38-159 | end to end: over a connection that splits and interrupts writes, and splits, interrupts and stalls reads, but does not fail, messages that fit are all sent, and received unchanged and in order if and only if no read blocks right before a payload's first byte; nothing is then left over |
| WireSocket.Socket.ReadAll | dev/monitoring/protocol/monitor_wire_format.h:64-84 | the loop fills the buffer with exactly the bytes taken off the stream and returns the specified code |
| WireSocket.Socket.RecvMsg | dev/monitoring/protocol/monitor_wire_format.h:143-159 | header, payload, length and remaining stream as specified |
| WireSocket.Socket.DiscardPayload | dev/monitoring/protocol/monitor_wire_format.h:165-176 | the loop over chunks skips what the specification skips |
| WireSocket.Socket.WriteAll | dev/monitoring/protocol/monitor_wire_format.h:38-50 | the loop puts on the wire what the specification puts there |
| WireSocket.Socket.SendMsg | dev/monitoring/protocol/monitor_wire_format.h:97-114 | the wire and the code as specified |
| AlertModel.RunAccounts | dev/monitoring/alerts/alert_engine.c:43-92 | over every run the calls since the last clear equal the occurrences stored plus those evicted, while a 32-bit counter can hold their number |
| AlertModel.RunKeepsOrder | dev/monitoring/alerts/alert_engine.c:43-92 | with timestamps that do not go back, records stay ordered by first_ts_ms |
| AlertModel.EvictsLeastRecent | dev/monitoring/alerts/alert_engine.c:62-78 | a call that repeats nothing at 1000 records drops the first of the least recently fired, keeps the others in order, and comes last |
| AlertPairs.RunKeepsChain | dev/monitoring/alerts/alert_engine.c:43-92 | with names that fit and settled cooldowns (all calls of a pair after its first have one cooldown, no shorter than the first one's), of two records for one pair the earlier had left that cooldown when the later was created |
| AlertModel.ListsTheFirstActive | dev/monitoring/alerts/alert_engine.c:94-111 | a listing is the records at the places chosen, in stored order |
| AlertModel.NoActiveIsSkipped | dev/monitoring/alerts/alert_engine.c:94-111 | an active record is left out of a listing only when earlier ones used up its room |
| AlertPairs.ListingNamesPairsOnce | dev/monitoring/alerts/alert_engine.c:32-111 | after any such run a listing never names a component and condition twice, is ordered by first_ts_ms and stays within its room |
| AlertPairs.ListedOnceIffSettled | dev/monitoring/alerts/alert_engine.c:32-111 | calls for one pair are listed at most once, whenever they and the listings are made, if and only if their cooldowns are settled |
| AlertPairs.TwoCallsListedTwiceIff | dev/monitoring/alerts/alert_engine.c:43-60 | two calls for one pair are both listed if and only if the second came after its own cooldown and the listing is within both |
| AlertModel.BurstStaysOneRecord | dev/monitoring/alerts/alert_engine.c:43-60 | a condition repeated any number of times, each within the cooldown of the last, stays one record: only its last time and its occurrences move |
| AlertModel.FiredIsListed | dev/monitoring/alerts/alert_engine.c:62-111 | a call that repeats nothing is listed at once with its severity, its time and its own texts as far as their fields reach |
| AlertPairs.MixedSeveritiesAreListedTwice | dev/monitoring/alerts/alert_engine.c:43-60 | a warning, then 40 s later the same pair as critical, are listed twice |
| AlertPairs.LengtheningCooldownsAreListedTwice | dev/monitoring/alerts/alert_engine.c:43-60 | a critical alert at 0 s and at 40 s and the same pair as information at 50 s are listed twice, though no cooldown gets shorter |
| AlertModel.RepetitionIsRecognisedIff | dev/monitoring/alerts/alert_engine.c:46-56 | after any run, a call repeated within its cooldown is recognised if and only if both names fit their fields |
| AlertCooldowns.NewRecordIff | dev/monitoring/alerts/alert_engine.c:8-60 | after any run, a call repeated d ms later makes a new record if and only if d is at least 30000 for critical, 60000 for a warning, 300000 for information and 60000 for any other severity |
| AlertCooldowns.IsListedIff | dev/monitoring/alerts/alert_engine.c:94-111 | a listing with room holds exactly the records last fired less than that long ago, by their own severity |
| AlertCooldowns.FireReturnsPlace | dev/monitoring/alerts/alert_engine.c:43-92 | the index returned is that of the first record the call repeats, whose time and occurrences alone change, or else of the new record at the end |
| Words.ElapsedLeadsTo | dev/monitoring/alerts/alert_engine.c:51 | the elapsed time is the difference of the timestamps modulo 2^64 |
| AlertEngine.AlertState.FindMatch | dev/monitoring/alerts/alert_engine.c:43-60 | the loop finds the first record the call repeats |
| AlertEngine.AlertState.FindOldest | dev/monitoring/alerts/alert_engine.c:64-72 | the loop finds the first of the least recently fired records |
| AlertEngine.AlertState.Fire | dev/monitoring/alerts/alert_engine.c:32-92 | the records and the index returned, as the specification has them |
| AlertEngine.AlertState.GetActive | dev/monitoring/alerts/alert_engine.c:94-111 | the listing specified, in the buffer, and the rest of the buffer unchanged |
| AlertEngine.AlertState.ClearAll | dev/monitoring/alerts/alert_engine.c:113-118 | no record is left |
| HistogramModel.CumulativeIsMonotone | dev/monitoring/metrics/metrics_types.h:106-116 | cumulative counts never fall from a bucket to a later one |
| HistogramModel.PercentileIsLeastCover | dev/monitoring/metrics/metrics_types.h:145-155 | for the t with t <= p * count < t + 1, the percentile is the least bound that at least t observations do not exceed, the last bound when there is none, and 0 of nothing |
| HistogramModel.PercentileRoundsUp | dev/monitoring/metrics/metrics_types.h:145-155 | the percentile is the observation of that rank rounded up to a bound |
| HistogramModel.SomeValueIsRanked | dev/monitoring/metrics/metrics_types.h:145-155 | every rank from 1 to the count is held by some observation |
| HistogramModel.PercentileIsMonotone | dev/monitoring/metrics/metrics_types.h:145-155 | a higher p never gives a lower percentile |
| HistogramModel.PercentileIsInterpolatedIff | dev/monitoring/metrics/metrics_types.h:139-155 | the percentile is what linear interpolation would give if and only if its rank is the last of its bucket or the bucket has no width |
| HistogramModel.MedianIsNotInterpolated | dev/monitoring/metrics/metrics_types.h:139-155 | for instance not for the median of 1 and 2 in one bucket up to 10 |
| Histogram.Histogram.constructor | dev/monitoring/metrics/metrics_types.h:124-137 | at most 32 buckets with the given bounds, and nothing observed |
| Histogram.Histogram.Observe | dev/monitoring/metrics/metrics_types.h:106-116 | each bucket's count becomes the number of values observed that are at most its bound, and sum and count follow |
| Histogram.Histogram.Search | dev/monitoring/metrics/metrics_types.h:149-154 | the first bucket that counts enough, or the last |
| Histogram.Histogram.Percentile | dev/monitoring/metrics/metrics_types.h:145-155 | the percentile of the values observed |
| CircularBuffer.PushKeeps | dev/monitoring/metrics/metrics_history.h:89-93 | writing at the head and stepping it round keeps the buffer the last entries, across any number of turns |
| CircularBuffer.RecentIsLast | dev/monitoring/tracing/trace_store.c:39-43 | counting back from the head gives the last n entries kept, oldest first |
| CircularBuffer.RecentU32IsLast | dev/monitoring/metrics/metrics_history.h:108-117 | so do the 32-bit indices, for capacities up to 2^31 |
| CircularBuffer.SlotsRightIff | dev/monitoring/metrics/metrics_history.h:108-117 | the 32-bit index is right for every head and count if and only if the capacity is at most 2^31 |
| MetricsHistory.AcceptsIff | dev/monitoring/metrics/metrics_history.h:83-88 | a push is accepted if and only if it is the first, comes a resolution or more after the last accepted one, or has a clock that went back |
| MetricsHistory.RunKeepsSpacing | dev/monitoring/metrics/metrics_history.h:83-93 | with timestamps that do not go back, accepted samples lie at least one resolution apart |
| MetricsHistory.RunRepresents | dev/monitoring/metrics/metrics_history.h:83-93 | and every refused push came less than one resolution after an accepted sample |
| MetricsHistory.SpanOfWindow | dev/monitoring/metrics/metrics_history.h:83-93 | samples i places apart are at least i resolutions apart |
| MetricsHistory.CapacityFor | dev/monitoring/metrics/metrics_history.h:44-53 | the capacity is the whole resolutions of the window, and at least one |
| MetricsHistory.History.Push | dev/monitoring/metrics/metrics_history.h:83-93 | the buffer holds the accepted samples after the push |
| MetricsHistory.History.GetLast | dev/monitoring/metrics/metrics_history.h:103-119 | the last min(n, stored) accepted samples, oldest first, with their timestamps, for capacities up to 2^31; beyond it whatever the 32-bit indices reach |
| MetricsHistory.History.Last | dev/monitoring/metrics/metrics_history.h:124-129 | the newest accepted value, or 0, for capacities up to 2^31; beyond it whatever the 32-bit index reaches |
| TraceStore.Store.AddTrace | dev/monitoring/tracing/trace_store.c:20-32 | the store holds the traces added, the last 1000 of them |
| TraceStore.Store.GetRecent | dev/monitoring/tracing/trace_store.c:35-47 | the last min(max, stored) traces, oldest first |
| TraceStore.Store.Find | dev/monitoring/tracing/trace_store.c:49-63 | a trace with the id exactly when one is among the last 1000 added |
| CollectorModel.RunsAreCounted | dev/monitoring/collectors/collector_base.c:59-149 | at every moment of every run: collect_count and error_count are the good and the failed ticks and consecutive_errors the failed ones since the last good one, each up to the width of its counter, and until the thread stops it went offline exactly once for each failed tick with that count at 3 or more and called disconnect once going and once returning; SYNCING is never entered |
| CollectorModel.TrailingIsLongest | dev/monitoring/collectors/collector_base.c:106-113 | the count meant is the longest run of failed ticks at the end of the history |
| CollectorModel.OfflineIff | dev/monitoring/collectors/collector_base.c:113-121 | within the loop OFFLINE is entered if and only if a tick failed and made at least three in a row |
| CollectorModel.LiveIff | dev/monitoring/collectors/collector_base.c:81-112 | LIVE is entered if and only if a connect succeeded or is absent, or a good tick was made by a stale collector |
| CollectorModel.StaleIff | dev/monitoring/collectors/collector_base.c:95-121 | STALE is entered if and only if a live collector's pass finds the last good tick more than three intervals back; a failed tick does not enter it |
| CollectorModel.ConnectingAndWaitingIff | dev/monitoring/collectors/collector_base.c:72-140 | CONNECTING is entered if and only if a wait passed uncut, WAITING if and only if a time offline did |
| CollectorModel.PassTicks | dev/monitoring/collectors/collector_base.c:94-112 | a pass calls tick exactly when it finds the collector LIVE or STALE, once, and keeps the time of a good one |
| CollectorModel.QuietIffPunctual | dev/monitoring/collectors/collector_base.c:94-112 | a live collector whose ticks succeed changes state if and only if some pass finds the last good tick more than three intervals back |
| CollectorModel.ReconnectDoesNotForgive | dev/monitoring/collectors/collector_base.c:109-140 | a collector that went offline and came back goes offline again on its next failed tick |
| CollectorModel.Recovers | dev/monitoring/collectors/collector_base.c:72-145 | from any state, three passes in which everything works make a collector live, and it stays so while everything works |
| CollectorRuns.RunFollowsDiagram | dev/monitoring/collectors/collector_base.c:59-149 | over every run the states set begin with CONNECTING and follow the arrows WAITING to CONNECTING to LIVE, LIVE to STALE and back, LIVE or STALE to OFFLINE, OFFLINE to WAITING, until the thread returns |
| CollectorRuns.ThreadReturnsIff | dev/monitoring/collectors/collector_base.c:59-149 | the thread returns if and only if its staggered start is cut short or some pass finds the stop flag or has a sleep cut short, at the first such pass |
| CollectorRuns.ReturnedIsOffline | dev/monitoring/collectors/collector_base.c:143-149 | a thread that has returned is OFFLINE, set last; it went OFFLINE once for each outage and once at its return, and called disconnect once for each of these and for each time it came back, even if that wait was cut short |
| CollectorRuns.StoppedAtOnce | dev/monitoring/collectors/collector_base.c:59-67 | a thread stopped in its staggered start only calls disconnect once and sets OFFLINE |
| CollectorModel.SleepEndsAtFirstFlag | dev/monitoring/collectors/collector_base.c:35-49 | a sleep is cut short exactly by the first look that finds the flag set, and otherwise lasts its whole time in naps of at most 50 ms |
| Collector.Collector.Pass | dev/monitoring/collectors/collector_base.c:72-145 | one pass of the switch, as the transition function has it |
| Collector.Collector.Thread | dev/monitoring/collectors/collector_base.c:59-149 | the whole thread, from its staggered start to its exit |
| Collector.Sleep | dev/monitoring/collectors/collector_base.c:35-49 | the loop of naps as specified |

## Left out

- Memory orderings weaker than interleaved atomic steps, and more than one writer or reader on the ring: the steps are sequentially consistent.
- Kernel and library calls (mmap, shm_open, eventfd, pthread, io_uring itself, sockets): only their outcomes are modelled, as parameters.
- Failing creation, attachment and destruction of rings, pools and loops, and null arguments: plumbing around the states that are modelled.
- Names, logging, formatted output, version queries and hal_device_iterate: they add no state.
- Pools whose block size times block count wraps past 2^64: all that is proved of them is that not all their blocks fit (MemoryPool.BlocksFitIff); the class MemoryPool.Pool and the interleaved model have their whole region.
- memory_pool_reset in the interleaved model: a reset frees blocks that threads still hold, so ownership ends there.
- Changes of the op table other than those modelled: registering an op during a run, from a callback or not, unregistering one from outside the loop's thread, clearing the table, a second run on the same loop; and failing allocations or submissions.
- The eventfd wakeups of the ring and the wakeup counter's value: only that a wakeup read is in flight is modelled.
- Wrap-around of the 64-bit tickets of the callback queue, the overflow handler's call, and exceptions thrown by callbacks: the code swallows the latter.
- The callback dispatcher as a class: its producers and its consumer are modelled as steps on values, because they run concurrently.
- Partial bytes in the caller's header structure when receiving a header fails: the model gives no header then.
- The sleep between two tries of a stalled read, and write stalls: mon_write_all treats the latter as an error, which is modelled.
- mon_send_goodbye and the connection set-up: they use the modelled functions and add no framing.
- The active flag of an alert record, which the code always sets to 1, and the locks of the alert and trace stores, under which every call runs whole.
- Rounding and not-a-number values of the histogram and the history, and the narrowing to float when copying out: values are real numbers.
- Histogram.Histogram.Percentile: requires a bucket when something was observed, because without one the code reads outside its array.
- MetricsHistory.History.GetLast: promises the last samples only for a capacity of at most 2^31, which is exactly when the code's 32-bit indices are right (CircularBuffer.SlotsRightIff).
- MetricsHistory.History.Last: the same, for the same reason.
- metrics_history_avg, counters, gauges and sparklines: simple arithmetic on what is modelled.
- Collector start, join with a timeout, cancellation and the snapshot of all collectors, and the times of state changes: plumbing.
- User interface, configuration, service discovery, proxies, HTTP and Prometheus output, sandboxing and authentication code: lists of calls without invariants of their own.
