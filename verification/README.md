# Cyber RT kernel: model and proofs

This project models the runtime kernel of Cyber RT in Dafny and proves that each of its fast structures
and protocols agrees with something simple:

* `BoundedQueue`, `ObjectPool`, `AtomicHashMap`, `RwLock`: the lock-free structures of `cyber/base` as step
  machines. One step is one atomic access (or one access to a slot, a link or a value), a schedule is any
  sequence of (thread, action) pairs, and every theorem holds for any number of threads and any schedule.
  Weak exchanges may fail spuriously. The states carry history variables (what was enqueued, which entries
  are linked, which map is meant) that no step reads.
* `TimingWheel`, `Timer`: the two-level wheel as a class over arrays, refining a table of absolute
  deadlines; the periodic timer's drift correction in 64-bit arithmetic.
* `ChannelData`, `FusionCallback`, `Wakeup`: overwrite ring, reader cursor and latest-value fusion as classes
  against their full history; the fusion callback load by load and the notify/wake protocol as step machines.
* `RecordReader`, `RecordFile`, `RecordViewer`, `RecordWriter`, `RecordOrder`, `RecordReplay`: reading, writing,
  segmenting, sorting and merging record files, up to two round trips: a file written is read back as it was written, and a stream
  recorded in segments, stored in chunks and viewed is the stream.
* `Rpc`, `Registry`: request/response correlation over a network that loses, reorders and duplicates;
  registration of names by hashing and linear probing.

`dafny verify dfyconfig.toml` checks everything. `Arith` holds the remainder and bit-mask
facts the others need, `Common` the types they share.

Properties that turned out not to hold of the code are kept as such, with the input that shows it and the
exact condition under which they do hold:

* A false `Enqueue` does not mean a full queue: `StaleTailRejectsOnEmptyQueue` reaches a rejection by an empty
  queue; `FullExactlyWhenTailFresh` says when the answer is right.
* A record file does not always keep the order of the messages: a chunk that fills up while the previous one
  is still waiting to be flushed is swapped in front of it (`OverlapReorders`); `FileWriter.Close` proves
  order kept exactly when that never happened, and that no message is lost or repeated either way.
* A chunk header does not always bracket its chunk, since 0 stands for "not set": `ZeroTimeIsLost` stores a
  message that a read of its own window does not find; `BracketsExactly` says when the header is right. In the
  same way messages of time 0 hide the span of a segment (`ZeroTimeThenAnyTime`, `ZeroTimeHidesSpan`).
* A message on a registered channel is not always preceded by its declaration in its own file: a writer opened
  again keeps its channel tables (`ReopenLosesDeclaration`); `Writer.DeclarationLacksExactly` says for every
  message of every run when.
* A waiting routine with an unfetched message may be found without a pending flag and without a notifying
  dispatcher: `FlagConsumedBeforeReady` reaches it; `NoLostWakeup` says that this is only while a processor
  that has consumed the flag is about to make the routine READY.
* A routine in DATA_WAIT is woken for an unfetched message only if it waits after a failed fetch: a callback that
  yields can park it until some further message is filled (`CallbackYieldLosesWakeup`). Without one it can be
  resumed exactly when a notification is pending or on its way (`ResumedExactlyWhenNotified`).
* The partner of a fused message need not be earlier than it (`PartnerMayArriveLater`); `PartnerIsEarlierExactly`
  says when it is. A message may even be fused that no channel had sent anything before (`UneligibleMayBeFused`);
  `FusedBeyondEligible` says when.
* A recording viewed is not always in the order written: two files that hold one and the same time may be swapped
  by the sort (`TiedFilesMaySwap`); `WrittenOrderExactly` says when the order is kept.
* A wheel that is asked to arm a task that is still pending stands for no deadline table any more
  (`ArmedTwiceIsNoTable`); `Wheel.AddTask` covers all other tasks.
* The wheel's deadline is exact precisely within the reach of both wheels (`DueExactlyInRange`). A periodic timer
  can arm itself beyond it and then fires at the next tick (`LateBaseOverreaches`); `RearmedExactlyInReach` gives
  the condition on period, execution time, error and work index.

## Model
| member | source | states |
|---|---|---|
| `BoundedQueue.GetIndex` | cyber/base/bounded_queue.h:224-227 | the division form is the remainder |
| `BoundedQueue.StepInv` | cyber/base/bounded_queue.h:108-164 | every atomic step of every thread keeps the invariant: counters ordered, claimed positions and producers in flight one to one, committed and written slots hold their values, stale locals still safe |
| `BoundedQueue.SlotSafety` | cyber/base/bounded_queue.h:93-227 | in every reachable state head < commit <= tail <= head + pool size - 1, so Size is at most the requested size; no two producers in flight own one slot; none writes a committed unread slot |
| `BoundedQueue.GateKeepsRoom` | cyber/base/bounded_queue.h:113-118 | a tail exchange that succeeds leaves room although head was loaded earlier |
| `BoundedQueue.StepLinearizes` | cyber/base/bounded_queue.h:108-164 | each step is no operation, or exactly one legal operation of a plain FIFO queue on the committed unread elements, with the value in the thread's own locals |
| `BoundedQueue.Linearizable` | cyber/base/bounded_queue.h:108-164 | over any schedule, all effects replayed on a plain FIFO queue are legal (oldest value taken, false only when empty) and leave exactly the committed unread elements |
| `BoundedQueue.DequeuedIsPrefix` | cyber/base/bounded_queue.h:151-164 | values dequeued in head-exchange order are always a prefix of values enqueued in tail-exchange order |
| `BoundedQueue.EffectExactlyAtReturn` | cyber/base/bounded_queue.h:108-164 | a call returns in exactly the step in which it takes effect, once and with its own argument, or in which Enqueue is rejected; until then it stays the same call |
| `BoundedQueue.StartBegins` | cyber/base/bounded_queue.h:108-164 | an idle thread begins exactly the call it is asked for, with its own argument, and touches nothing else |
| `BoundedQueue.FullExactlyWhenTailFresh` | cyber/base/bounded_queue.h:113-117 | when the index test rejects, the queue is full if and only if the loaded tail is congruent to the current one |
| `BoundedQueue.StaleTailRejectsOnEmptyQueue` | cyber/base/bounded_queue.h:112-117 | a reachable state in which the index test rejects although the queue is empty |
| `BoundedQueue.SequentialEnqueue` | cyber/base/bounded_queue.h:108-128 | undisturbed, Enqueue is rejected exactly when full and changes nothing then; otherwise it appends, commits and writes one slot |
| `BoundedQueue.SequentialDequeue` | cyber/base/bounded_queue.h:151-164 | undisturbed, Dequeue takes the oldest committed value, or changes nothing when there is none |
| `ObjectPool.BuildArena` | cyber/base/concurrent_object_pool.h:73-78 | the linking loop builds the chain over the whole arena |
| `ObjectPool.PopInstallsTrueSuccessor` | cyber/base/concurrent_object_pool.h:94-108 | ABA freedom: a pop whose exchange succeeds takes the true first node and installs the true current second one, although it read the link earlier |
| `ObjectPool.StepInv` | cyber/base/concurrent_object_pool.h:94-148 | every atomic step keeps chain, partition and the meaning of stale heads |
| `ObjectPool.PoolSafety` | cyber/base/concurrent_object_pool.h:72-148 | in every interleaving the list is acyclic, free, held and in-release nodes partition the arena, no node has two releasers |
| `ObjectPool.StepLinearizes` | cyber/base/concurrent_object_pool.h:94-148 | successful exchanges are exactly pop and push of a plain stack, a popped node had no holder, a pop answers false only on an empty list, other steps change nothing |
| `ObjectPool.Linearizable` | cyber/base/concurrent_object_pool.h:72-148 | over any schedule, all effects replayed on a plain stack of the whole arena are legal (the top popped, no node pushed twice, false only when empty) and leave exactly the free list |
| `ObjectPool.EffectExactlyAtReturn` | cyber/base/concurrent_object_pool.h:94-148 | a call returns in exactly the step in which it takes effect, once and with its own node |
| `ObjectPool.StartBegins` | cyber/base/concurrent_object_pool.h:110-148 | a release takes exactly its own node from its holder and begins to push that node; a pop begins as one; all else unchanged |
| `ObjectPool.SequentialRelease` | cyber/base/concurrent_object_pool.h:136-148 | undisturbed, a release ends with exactly its node on top of the free list and no longer held |
| `ObjectPool.SequentialPop` | cyber/base/concurrent_object_pool.h:93-108 | undisturbed, a pop hands out the top of the free list to a new holder, or changes nothing when there is none |
| `AtomicHashMap.Route` | cyber/base/atomic_hash_map.h:46-79 | key and mask selects an existing bucket |
| `AtomicHashMap.AbsentAtLoad` | cyber/base/atomic_hash_map.h:125-145 | a traversal in front of the key that loads nothing or a larger key proves the key absent from the whole map at that load |
| `AtomicHashMap.LinkInTables` | cyber/base/atomic_hash_map.h:174-184 | the successful next exchange keeps every bucket a strictly sorted duplicate-free list and adds exactly the key |
| `AtomicHashMap.OverwriteTables` | cyber/base/atomic_hash_map.h:153-168 | the successful value exchange changes exactly the value of the key |
| `AtomicHashMap.StepInv` | cyber/base/atomic_hash_map.h:112-188 | every atomic step keeps the tables, private entries exclusive to their thread, and positions of traversals valid |
| `AtomicHashMap.StepLinearizes` | cyber/base/atomic_hash_map.h:112-188 | each step is no operation or one legal operation of a plain map: a store at its exchange, a negative answer at its last next load, Get at its value load |
| `AtomicHashMap.Linearizable` | cyber/base/atomic_hash_map.h:46-188 | over any schedule all answers are right for the plain map and the final map is the one represented |
| `AtomicHashMap.EffectExactlyAtReturn` | cyber/base/atomic_hash_map.h:112-188 | a call returns in exactly the step in which it takes effect, once and with its own key and value |
| `AtomicHashMap.StartBegins` | cyber/base/atomic_hash_map.h:46-79 | an idle thread begins exactly the call it is asked for, with its own key and value, and touches nothing else |
| `AtomicHashMap.SequentialCall` | cyber/base/atomic_hash_map.h:46-188 | undisturbed, from any state of a run, every call returns: Set has stored exactly its value under its key, Get and Has have answered as the plain map does and changed nothing |
| `AtomicHashMap.BucketsFormOneMap` | cyber/base/atomic_hash_map.h:46-188 | in every reachable state all buckets are linked, strictly sorted, hold only keys of their remainder, agree with one map and together hold all its keys |
| `AtomicHashMap.KeysOnlyGrow` | cyber/base/atomic_hash_map.h:147-188 | no step loses a key |
| `RwLock.StepInv` | cyber/base/atomic_rw_lock.h:62-114 | every atomic step keeps lock and waiting counts equal to the threads that justify them |
| `RwLock.UnlockReleases` | cyber/base/atomic_rw_lock.h:112-114 | unlocking leaves one reader fewer, or a free lock, the thread idle and all others as they were |
| `RwLock.ReadLockExactly` | cyber/base/atomic_rw_lock.h:62-92 | undisturbed, ReadLock acquires if and only if no writer holds the lock and, on a write-first lock, none waits; then there is one reader more |
| `RwLock.WriteLockExactly` | cyber/base/atomic_rw_lock.h:94-110 | undisturbed, WriteLock acquires if and only if nobody holds the lock; then lock_num is -1 and the waiting count as before |
| `RwLock.Exclusion` | cyber/base/atomic_rw_lock.h:62-114 | in every interleaving lock_num is -1 with one writer and no reader, or the number of readers with no writer |
| `RwLock.ClosedGateStep` | cyber/base/atomic_rw_lock.h:65-77 | with a writer waiting nobody passes the gate, and acquiring uses up having passed it |
| `RwLock.BoundedOvertaking` | cyber/base/atomic_rw_lock.h:62-110 | while a registered writer waits on a write-first lock, a reader acquires at most once, and only if it was past the gate when the wait began |
| `TimingWheel.GetWorkWheelIndex` | cyber/timer/timing_wheel.h:68-70 | the mask is the remainder modulo 512 |
| `TimingWheel.GetAssistantWheelIndex` | cyber/timer/timing_wheel.h:71-73 | the mask is the remainder modulo 64 |
| `TimingWheel.DueExactlyInRange` | cyber/timer/timing_wheel.cc:76-98 | arming for k ticks fires after exactly k ticks if and only if (T mod 512) + k < 65 * 512 and k >= 1 (or the current slot has not been ticked) |
| `TimingWheel.AcceptedPeriodInRange` | cyber/timer/timer.cc:51-64 | every period the timer accepts is in range for a fresh task at any moment |
| `TimingWheel.FiresExactlyOnceOnTime` | cyber/timer/timing_wheel.cc:46-135 | in every run of arming, ticking, advancing and expiring, a task armed in range at T for k fires exactly once, at T + k: not before, not lost, not twice |
| `TimingWheel.ArmedTaskHistory` | cyber/timer/timing_wheel.cc:46-135 | for any armed distance: pending and not fired, or fired once, at the deadline of arming |
| `TimingWheel.RunTimely` | cyber/timer/timing_wheel.cc:46-135 | no deadline ever lies in the past |
| `TimingWheel.CurrentSlotIsDue` | cyber/timer/timing_wheel.cc:46-66 | the live entries of the current work slot are exactly the tasks due now |
| `TimingWheel.CascadeOneStores` | cyber/timer/timing_wheel.cc:101-112 | moving one entry of the slot whose lap begins keeps the wheels an exact image of the deadlines |
| `TimingWheel.AdvanceStores` | cyber/timer/timing_wheel.cc:121-133 | advancing the index moves no deadline; on a wrap exactly the new lap is left to cascade |
| `TimingWheel.DueInAssistant` | cyber/timer/timing_wheel.cc:86-94 | the assistant slot and remainder computed from the index sum are those of the deadline |
| `TimingWheel.Wheel.constructor` | cyber/timer/timing_wheel.h:75-84 | a new wheel stands for the empty table at tick 0 |
| `TimingWheel.Wheel.AddTask` | cyber/timer/timing_wheel.cc:68-99 | refines arming in the deadline table |
| `TimingWheel.ArmedTwiceIsNoTable` | cyber/timer/timing_wheel.cc:68-99 | arming a task that is still pending leaves the wheels an image of no deadline table, wherever the second entry goes |
| `TimingWheel.Wheel.Tick` | cyber/timer/timing_wheel.cc:46-66 | refines Tick: hands out exactly the tasks due now, each once, expired ones not at all |
| `TimingWheel.Wheel.EraseSlot` | cyber/timer/timing_wheel.cc:49-65 | empties the slot and yields its live entries in order |
| `TimingWheel.LiveInOrder` | cyber/timer/timing_wheel.cc:49-65 | the live entries of a slot are exactly those whose task is alive, in the order in which they stand |
| `TimingWheel.Wheel.Cascade` | cyber/timer/timing_wheel.cc:101-112 | empties the slot of the lap that begins into the work wheel, keeping every deadline |
| `TimingWheel.Wheel.Advance` | cyber/timer/timing_wheel.cc:121-133 | refines Advance, cascading on a wrap |
| `TimingWheel.Wheel.Expire` | cyber/timer/timing_wheel.cc:52-53 | a task whose last owner is gone is no longer pending |
| `TimingWheel.Wheel.TickFunc` | cyber/timer/timing_wheel.cc:114-135 | n turns of the tick thread hand out, turn by turn, exactly the tasks due at each tick, and keep the others armed |
| `Timer.NextFireAtLeastOneTick` | cyber/timer/timer.cc:102-117 | the armed distance is at least 2 ms whatever the error, the signed reading of the unsigned difference decides correctly, and unclamped it is the true difference |
| `Timer.ErrorTelescopes` | cyber/timer/timer.cc:92-101 | over any run of firings the accumulated error is last start - first start - n intervals, in 64 bits |
| `Timer.RoundWithinHalf` | cyber/timer/timer.cc:86-110 | rounding to milliseconds errs by at most half a millisecond |
| `Timer.RoundHalvesAway` | cyber/timer/timer.cc:86-110 | halves are rounded away from zero |
| `Timer.NextFireOnSchedule` | cyber/timer/timer.cc:82-117 | unclamped, callback end plus armed distance is within 1 ms of first start + (n + 1) intervals if and only if the lateness fits 64 bits |
| `Timer.DriftBounded` | cyber/timer/timer.cc:82-124 | if the firing comes at most early before and jitter after the armed instant, it starts within 1 ms plus that of its ideal instant, however long the run |
| `Timer.WheelDelivers` | cyber/timer/timing_wheel.cc:68-135 | a distance armed within reach, at any instant of the current tick, is kept to less than one tick early and 1 ms late, plus dispatch delay and how late the tick thread is between arming and firing |
| `Timer.PeriodicFiringOnTime` | cyber/timer/timer.cc:82-124 | timer and wheel together: a periodic firing starts less than 3 ms before and at most 2 ms behind its ideal instant, plus dispatch delay and tick lateness since it was armed, whatever stalls came before |
| `Timer.RearmedExactlyInReach` | cyber/timer/timer.cc:102-123 | a corrected distance fires exactly if and only if execution fills the period or period - execution - error is at most 2 ms times the ticks left in reach at the work index |
| `Timer.InReachAtAnyMoment` | cyber/timer/timer.cc:102-123 | that holds at every work index if and only if the corrected distance is at most the largest interval |
| `Timer.LateBaseOverreaches` | cyber/timer/timer.cc:92-123 | a run of the largest period on a wheel without late ticks, tick by tick, whose third firing arms 65537 ms at work index 511 and is due at the very next tick |
| `Timer.InitTimerTask` | cyber/timer/timer.cc:51-64 | accepts exactly the periods above 0 and below the maximum |
| `Timer.Start` | cyber/timer/timer.cc:129-140 | a started timer is due exactly one period from now |
| `Timer.UpdateFeedback` | cyber/timer/timer.cc:82-117 | the in-place update of the task is one step of the feedback law |
| `Timer.OnFire` | cyber/timer/timer.cc:82-124 | the periodic callback updates the feedback and arms the task again at least one tick ahead, for exactly its distance if and only if that is within reach |
| `ChannelData.CacheBuffer.constructor` | cyber/data/cache_buffer.h:36-39 | an empty ring of one slot more than the size |
| `ChannelData.CacheBuffer.Fill` | cyber/data/cache_buffer.h:68-81 | appends to the history and keeps the ring holding exactly its last min(n, size) values |
| `ChannelData.CacheBuffer.At` | cyber/data/cache_buffer.h:50-51 | position i is the i-th value ever filled, for all held positions; any other reads its slot |
| `ChannelData.CacheBuffer.Back` | cyber/data/cache_buffer.h:58-58 | the last value ever filled, for size 0 too |
| `ChannelData.ChannelBuffer.Fetch` | cyber/data/channel_buffer.h:56-77 | a first fetch delivers the newest message; a message still held is delivered at its cursor; after an overrun the newest is delivered and the others counted as dropped; nothing exactly when there is none or all were passed; beyond Tail + 1 a stale slot |
| `ChannelData.ChannelBuffer.Latest` | cyber/data/channel_buffer.h:79-88 | the last message of the history, or nothing if there is none |
| `ChannelData.ChannelBuffer.FetchMulti` | cyber/data/channel_buffer.h:90-105 | the newest min(Size, fetch_size) messages of the history, in order |
| `ChannelData.CursorAccounting` | cyber/data/channel_buffer.h:56-77 | over every interleaving of fills and fetches delivered positions strictly increase, the cursor is at most Tail + 1, and deliveries plus reported drops add up to its advance |
| `ChannelData.FetchLands` | cyber/data/channel_buffer.h:56-77 | in every run, where the next fetch lands, what it reports dropped and when it finds nothing, in terms of what was filled and delivered |
| `ChannelData.SkipExactlyOnOverrun` | cyber/data/channel_buffer.h:63-73 | the next unread message is delivered and nothing reported dropped if and only if the lag fits the ring or only the newest is unread |
| `ChannelData.DataVisitor.TryFetch` | cyber/data/data_visitor.h:181-187 | refines one fetch of the cursor; which message of the history it delivers, the new cursor and the drops, case by case |
| `ChannelData.DataVisitor.OnFill` | cyber/data/data_dispatcher.h:80-85 | refines one fill under an unmoved cursor |
| `ChannelData.FusedMeetsHistory` | cyber/data/fusion/all_latest.h:55-68 | one tuple per primary message that arrives after every other channel sent something, in primary order, paired with the latest earlier message of each |
| `ChannelData.FusedLength` | cyber/data/fusion/all_latest.h:55-68 | when the partners are taken in one step, there are no other tuples |
| `ChannelData.LatestIsLast` | cyber/data/fusion/all_latest.h:60-61 | the partner from a channel is its last message so far, with none behind it |
| `ChannelData.AllLatest.constructor` | cyber/data/fusion/all_latest.h:44-54 | the fused ring starts empty with the primary ring's capacity |
| `ChannelData.AllLatest.FillOther` | cyber/data/cache_buffer.h:68-81 | a fill of another channel fuses nothing |
| `ChannelData.AllLatest.FillPrimary` | cyber/data/fusion/all_latest.h:55-68 | the fusion callback keeps the fused ring equal to the fused stream of the arrival history |
| `ChannelData.AllLatest.CollectLatest` | cyber/data/fusion/all_latest.h:60-63 | succeeds exactly when every other channel has sent, with their latest messages |
| `ChannelData.AllLatest.Fusion` | cyber/data/fusion/all_latest.h:71-82 | delivers from the fused stream by the cursor rule |
| `FusionCallback.StepInv` | cyber/data/fusion/all_latest.h:55-68 | every fill, every load of a partner and every end of a callback keeps the outcomes justified, ordered and complete |
| `FusionCallback.ArrivalsAreLogged` | cyber/data/fusion/all_latest.h:55-68 | an arrival is logged as it is; a primary message starts its own callback, unless one is running |
| `FusionCallback.CallbackEnds` | cyber/data/fusion/all_latest.h:55-68 | a callback that nobody disturbs ends, with the newest message of every channel not yet loaded if and only if these have all sent |
| `FusionCallback.FusedUnderInterleaving` | cyber/data/fusion/all_latest.h:55-68 | in every interleaving every primary message has one ended callback, in primary order, or the running one; it is fused if and only if every channel loaded had sent something by its own load, with what that channel had sent last then; the fused ring holds exactly these tuples |
| `FusionCallback.FusedBeyondEligible` | cyber/data/fusion/all_latest.h:55-68 | a message is fused although some channel had sent nothing before it if and only if all had by their own loads and some channel its very first message only meanwhile; one behind a first message of every channel is always fused |
| `FusionCallback.UneligibleMayBeFused` | cyber/data/fusion/all_latest.h:55-68 | an interleaving that fuses a message no channel had sent anything before |
| `FusionCallback.QuietRunIsFused` | cyber/data/fusion/all_latest.h:55-68 | in every run whose callbacks were not disturbed by an arrival on a channel between fill and load, the fused stream is that of fusion in one step |
| `FusionCallback.PartnerIsEarlierExactly` | cyber/data/fusion/all_latest.h:60-61 | a partner is the last message of its channel before its load, and arrived before the primary message if and only if its channel sent nothing between the start of the fill and the load |
| `FusionCallback.QuietOutcomeIsFused` | cyber/data/fusion/all_latest.h:60-67 | a callback whose channels were quiet meanwhile does exactly what fusion in one step does |
| `FusionCallback.PartnerMayArriveLater` | cyber/data/fusion/all_latest.h:60-67 | an interleaving whose fused partner arrived behind the primary message |
| `Wakeup.StepInv` | cyber/croutine/croutine.h:173-204 | every access of routine, processors and dispatchers, callbacks that suspend or yield included, keeps the no-lost-wakeup invariant |
| `Wakeup.DispatchInv` | cyber/data/data_dispatcher.h:73-90 | filling first and notifying afterwards keeps it, for any number of dispatchers |
| `Wakeup.NoLostWakeup` | cyber/croutine/routine_factory.h:54-67 | in every run, a routine in DATA_WAIT after a failed fetch with an unfetched message has a pending flag or a dispatcher on its way to set it, except while a processor is about to make it READY |
| `Wakeup.FlagConsumedBeforeReady` | cyber/croutine/croutine.h:181-186 | the exception is reachable |
| `Wakeup.CallbackYieldLosesWakeup` | cyber/task/task.h:36-42 | a reachable routine parked in DATA_WAIT by a callback that yielded, with an unfetched message, no flag and quiet dispatchers |
| `Wakeup.ResumedExactlyWhenNotified` | cyber/scheduler/policy/classic_context.cc:52-73 | without a further message a routine parked in DATA_WAIT can be resumed if and only if a notification is pending or a dispatcher that has already filled is on its way to set one |
| `Wakeup.StuckUntilFill` | cyber/scheduler/policy/classic_context.cc:52-73 | otherwise nothing that dispatchers and processors do resumes it until another message is filled |
| `Wakeup.ParkedRoutineFetches` | cyber/scheduler/policy/classic_context.cc:52-73 | once the dispatchers are quiet, the next processor that looks at such a parked routine resumes it and it fetches that message |
| `Wakeup.SuspendParks` | cyber/croutine/croutine.h:122-163 | a callback that suspends leaves its processor in exactly the state it asked for |
| `Wakeup.SleeperResumedExactly` | cyber/croutine/croutine.h:173-179 | the next processor that looks at a sleeper resumes it if and only if its time is up |
| `Wakeup.SleeperSleeps` | cyber/croutine/croutine.h:173-188 | neither messages nor notifications resume it before |
| `Wakeup.DispatchResumesIoWait` | cyber/scheduler/policy/scheduler_classic.cc:160-178 | a message dispatched while a routine waits for I/O gets it resumed |
| `Wakeup.IoWaiterResumedExactly` | cyber/scheduler/policy/scheduler_classic.cc:160-178 | without a further message a routine that waits for I/O can be resumed if and only if a notification is pending or a dispatcher has yet to finish |
| `RecordReader.Reader.Reset` | cyber/record/record_reader.cc:59-64 | the whole file lies ahead again |
| `RecordReader.Reader.ReadNextChunk` | cyber/record/record_reader.cc:110-170 | in a well-formed ordered file chunks skipped lie before the window; giving up early means everything ahead lies behind it; otherwise the next chunk body is read |
| `RecordReader.Reader.ReadMessage` | cyber/record/record_reader.cc:74-108 | from a good file delivers the next message of the window having passed over only earlier ones, or none of the window is ahead; from any file only messages of the window and none the header rules out; terminates on the remaining sections |
| `RecordReader.Reader.Drain` | cyber/record/record_reader.cc:74-170 | reading a window to its end gives exactly the plain filter of the whole file |
| `RecordReader.Reader.DrainWindows` | cyber/record/record_reader.cc:74-170 | any increasing disjoint windows each yield exactly their own messages |
| `RecordFile.BracketsExactly` | cyber/record/file/record_file_writer.h:54-69 | a chunk header brackets its messages if and only if no message has time 0 or the last one has |
| `RecordFile.FullExactly` | cyber/record/file/record_file_writer.cc:216-224 | a chunk is found full exactly when its last message is further than the interval from another, with none of time 0 between, or the contents exceed the size |
| `RecordFile.SwapHistory` | cyber/record/file/record_file_writer.cc:229-233 | a swap that finds the flush chunk occupied puts the newest message in front of older ones for good |
| `RecordFile.FileWriter.WriteChannel` | cyber/record/file/record_file_writer.cc:150-168 | a channel section disturbs neither messages nor chunk structure |
| `RecordFile.FileWriter.WriteMessage` | cyber/record/file/record_file_writer.cc:208-234 | the message joins the active chunk, which is swapped exactly when full; conservation and order invariants kept |
| `RecordFile.FileWriter.WriteChunk` | cyber/record/file/record_file_writer.cc:170-206 | appends header and body, and keeps the file header's times bracketing |
| `RecordFile.FileWriter.Flush` | cyber/record/file/record_file_writer.cc:236-251 | at any moment, moves the flush chunk to the file and clears it |
| `RecordFile.FileWriter.Close` | cyber/record/file/record_file_writer.cc:65-117 | the closed file holds every message exactly once; for distinct messages, in the order written if and only if no swap overlapped a flush; then, with ordered positive times, it is well-formed and bracketed |
| `RecordFile.PlayBack` | cyber/record/file/record_file_writer.cc:65-251 | round trip: what was written in order is read back, for any window, as the plain filter of the written messages |
| `RecordFile.OverlapReorders` | cyber/record/file/record_file_writer.cc:208-234 | two messages that each fill a chunk before the flushing thread gets a turn are stored newest first |
| `RecordFile.ZeroTimeIsLost` | cyber/record/file/record_file_writer.h:54-69 | a stored message of time 0 that a read of its own window does not find |
| `RecordViewer.MergeUnique` | cyber/record/record_viewer.cc:140-176 | order by time, reader and file position leaves one possible merge |
| `RecordViewer.EmplaceAt` | cyber/record/record_viewer.cc:167-167 | multimap insertion puts a message behind all with its timestamp |
| `RecordViewer.KeepsExactly` | cyber/record/record_viewer.cc:66-71 | the filter keeps exactly the messages on allowed channels, in their order; no channels given allows all |
| `RecordViewer.Viewer.UpdateTime` | cyber/record/record_viewer.cc:112-138 | narrows the interval to exactly the earliest begin and latest end among the valid files' headers |
| `RecordViewer.NarrowingIsInvisible` | cyber/record/record_viewer.cc:112-138 | narrowing loses no message |
| `RecordViewer.Viewer.FillFrom` | cyber/record/record_viewer.cc:160-168 | one reader's messages of the window are merged into those of the readers before it |
| `RecordViewer.Viewer.RetireReaders` | cyber/record/record_viewer.cc:148-154 | only readers with nothing at or behind the window are retired |
| `RecordViewer.Viewer.FillBuffer` | cyber/record/record_viewer.cc:140-176 | extends the merge window by window; false means the interval is exhausted |
| `RecordViewer.Viewer.Update` | cyber/record/record_viewer.cc:60-75 | delivers the next merged message on an allowed channel; false means the whole merge was delivered |
| `RecordViewer.Viewer.Reset` | cyber/record/record_viewer.cc:103-110 | nothing delivered, every reader at its start |
| `RecordViewer.Viewer.Iterate` | cyber/record/record_viewer.cc:178-206 | the whole iteration yields the merge of the viewer's interval, filtered by channel |
| `RecordViewer.View` | cyber/record/record_viewer.cc:40-206 | a new viewer yields exactly the messages of all files in [begin, end] on allowed channels, once each, by time, reader and file position; windows and batches leave no trace |
| `RecordWriter.SegmentDivides` | cyber/record/record_writer.cc:124-152 | the reference segmentation loses nothing, and every closed segment exceeds a limit and does not without its last message |
| `RecordWriter.SegmentUnique` | cyber/record/record_writer.cc:124-152 | it is the only division with that property |
| `RecordWriter.TestIsExceeds` | cyber/record/record_writer.cc:132-144 | for all message times, the counters' test fires exactly when the segment now exceeds the interval or the size |
| `RecordWriter.PositiveOverTime` | cyber/record/record_writer.cc:132-144 | with positive times exceeding the interval means spanning more than it |
| `RecordWriter.ZeroTimeHidesSpan` | cyber/record/record_writer.cc:133-138 | a segment does not exceed the interval if and only if between any two messages further apart there is one of time 0 |
| `RecordWriter.ZeroTimeThenAnyTime` | cyber/record/record_writer.cc:133-138 | a message of time 0 and one at any later time are within every interval |
| `RecordWriter.GroupedBySplits` | cyber/record/record_writer.cc:69-101 | a writer opened once makes one file per segment |
| `RecordWriter.Writer.Open` | cyber/record/record_writer.cc:37-60 | starts an empty file; the channels missing from it are exactly those registered so far, and segment counters and the open segment go on |
| `RecordWriter.Writer.DeclarationLacksExactly` | cyber/record/record_writer.cc:37-152 | in every run and every file, a message on a channel registered before it lacks its declaration in its own file if and only if the file was begun by opening the writer again and the channel registered before that |
| `RecordWriter.SelfContainedExactly` | cyber/record/record_writer.cc:37-152 | a file is self-contained if and only if nothing was written to it on a channel missing from it |
| `RecordWriter.ReopenLosesDeclaration` | cyber/record/record_writer.cc:37-152 | open, declare, open, write: a file whose message lacks its declaration |
| `RecordWriter.Writer.StreamIsSegmented` | cyber/record/record_writer.cc:37-152 | in every run the files in sequence hold the written stream; cut at the splits it is divided as the reference divides it, reopened or not; each finished file without its last message is within the size limit |
| `RecordWriter.Writer.WriteChannel` | cyber/record/record_writer.cc:103-122 | a new channel is registered and declared, a known one left alone |
| `RecordWriter.Writer.SplitOutfile` | cyber/record/record_writer.cc:69-101 | the next file opens with exactly the declarations of all registered channels, as registered |
| `RecordWriter.Writer.WriteMessage` | cyber/record/record_writer.cc:124-152 | stores the message and splits if and only if the open segment exceeds a limit with it, then beginning the next file with all declarations; keeps stream, segmentation, size limit and declarations for every run |
| `RecordReplay.SegmentsMergeBack` | cyber/record/record_viewer.cc:140-176 | merging the segments of an ordered stream is cutting the interval out of the stream |
| `RecordReplay.Replay` | cyber/record/record_viewer.cc:40-206 | viewing files that in sequence hold an ordered stream yields exactly its messages of the interval on allowed channels, in order |
| `RecordOrder.FilesInTimeOrder` | cyber/record/record_viewer.cc:91-100 | files of an ordered stream follow each other in time |
| `RecordOrder.SortReaders` | cyber/record/record_viewer.cc:91-100 | arranges the readers by begin and end time of their headers, each once |
| `RecordOrder.SameAt` | cyber/record/record_viewer.cc:91-100 | without ties, any order the sort may leave merges as the order of the files |
| `RecordOrder.WrittenOrderExactly` | cyber/record/record_viewer.cc:91-100 | every order the sort may leave keeps the written order if and only if no two files with messages have the same header times |
| `RecordOrder.TiedFilesMaySwap` | cyber/record/record_viewer.cc:91-100 | two files of one time each that the sort may swap, and the merge with them |
| `RecordReplay.ReplaySorted` | cyber/record/record_viewer.cc:40-206 | viewing the files of a stream in the order the sort left merges them in an order it may leave, and yields the stream whenever that merges as the files' own order |
| `RecordReplay.SaveFile` | cyber/record/file/record_file_writer.cc:150-251 | a file writer whose flushing thread keeps up holds exactly the messages of its file, in order |
| `RecordReplay.OpenFiles` | cyber/record/record_reader.cc:32-57 | closed files opened by readers are good files holding exactly their parts, with their first and last times as header times |
| `RecordReplay.ReplayRecording` | cyber/record/record_writer.cc:37-152 | from any writer of ordered positive times, its files stored by any file writers without overlap, to the sorted view: the written messages of the interval on allowed channels merged in an admissible order, and in the order written when no two files tie |
| `RecordReplay.RecordAndReplay` | cyber/record/record_writer.cc:37-152 | recording a stream and viewing the recording is filtering the stream, unless two of its segments tie |
| `Rpc.SendInv` | cyber/service/client.h:266-288 | sending under a new sequence number keeps every correlation |
| `Rpc.SendTransmits` | cyber/service/client.h:266-288 | a client's call puts exactly its own request on the wire, once, under its next number, and makes one open promise it then waits for; an uninitialized client does nothing |
| `Rpc.HandleAnswers` | cyber/service/service.h:209-237 | a task that runs puts exactly one response on the wire: the callback's, under writer and number of its request |
| `Rpc.ServesInOrder` | cyber/service/service.h:136-158 | over every run the tasks served are the requests enqueued, first in, first out |
| `Rpc.DestroyStops` | cyber/service/service.h:123-134 | once destroyed the service begins no further task, and drops those that wait |
| `Rpc.ExchangeSettles` | cyber/service/client.h:266-310 | one undisturbed exchange: the callback answers exactly the request sent and the caller's promise is settled with that answer |
| `Rpc.HandleInv` | cyber/service/service.h:209-237 | an answered request sends its own writer and sequence number back |
| `Rpc.ResponseInv` | cyber/service/client.h:290-310 | a response settles exactly the promise of its own request, and no table entry points to it any more |
| `Rpc.StepInv` | cyber/service/service.h:123-158 | every step of clients, network and service keeps the correlation invariant |
| `Rpc.Correlation` | cyber/service/client.h:266-310 | in every run of a network that loses, reorders and duplicates, each promise is set at most once and only with the callback's output for the request sent under its own writer and sequence number |
| `Rpc.OpenExactlyWhilePending` | cyber/service/client.h:266-310 | a promise is unset if and only if its client still holds it under its sequence number |
| `Rpc.ResponseSettles` | cyber/service/client.h:290-310 | the first response for an open promise that reaches its client sets it |
| `Rpc.HistoryStable` | cyber/service/client.h:266-310 | no step changes a sent request, an answer given or a promise set |
| `Registry.StopUnique` | cyber/common/global_data.cc:168-181 | probing for a name can stop at one id only |
| `Registry.Injective` | cyber/common/global_data.cc:168-181 | distinct ids carry distinct names, for every hash function |
| `Registry.ProbingStops` | cyber/common/global_data.cc:168-181 | probing stops if and only if the name is known or an id is free |
| `Registry.RegisterKeeps` | cyber/common/global_data.cc:168-181 | a registration moves no other name and leaves every id reachable by its own name's probing |
| `Registry.Table.Register` | cyber/common/global_data.cc:168-181 | gives a known name its id and a new one the first id of its probe sequence not held by another name; all else unchanged |
| `Registry.Table.LookupInverts` | cyber/common/global_data.cc:183-189 | of all ids exactly the one where probing for a registered name stops looks that name up |
| `Registry.Table.RegisterAll` | cyber/common/global_data.cc:168-258 | over any run of registrations ids are equal if and only if names are, and lookup inverts registration |

## Left out
- C++ memory orderings, pointer lifetimes, `delete` and address reuse: steps are sequentially consistent, and an entry, node or value keeps its identity, so the reuse of a freed value's address under the value exchange of the hash map is not modelled.
- Counter overflow: ring positions, free-list version counts, reader counts, sequence numbers and tick counts are unbounded.
- BoundedQueue: the wait strategies and blocking variants of Enqueue and Dequeue, which only add waiting around the modelled operations.
- AtomicHashMap: keys are natural numbers; the value-less Set stores a default value and would only repeat Set.
- Other structures of `cyber/base`: unbounded queue, reentrant lock, thread pool and signals.
- TimingWheel: arming and advancing are each one atomic step, though the code takes separate locks; Shutdown and the running test inside the callback; the buckets' mutexes.
- TimingWheel.Wheel.AddTask: a task that is still pending is not armed again, since the wheels then stand for no deadline table (`ArmedTwiceIsNoTable`); the timer arms a task only when it starts and after it has fired.
- Timer: `llround` over a double is exact rational rounding here; one-shot timers, which stop after the first firing; Stop, which the wheel sees as an expiry; the simulated-clock mode; the tick thread's sleeping, of which only a bound on its lateness is assumed.
- ChannelData.AllLatest.FillPrimary: the latest messages of the other channels are taken in one step with the primary fill; `FusionCallback` has the loads one by one and says when that makes a difference. The number of other channels is arbitrary instead of one to three.
- ChannelData.FusedLength: is about fusion in one step; `FusionCallback.FusedBeyondEligible` has what else the separate loads may fuse.
- Wakeup: the scheduler's run queues, priorities and condition variables; NotifyProcessor follows cyber/scheduler/policy/scheduler_classic.cc lines 160 to 178; runs start after the notifier is registered.
- RecordReader: unreadable sections, unknown section types and I/O failures; the file's header and index are read when it is opened.
- RecordViewer: the channel list; end time plus one step is not near the 64-bit limit; the sort of the readers is in `RecordOrder`, and the merge itself is proved for any order.
- RecordFile: I/O failures; the index section's contents and the message counts in the header; WriteMessage is one step, as adding to the active chunk commutes with flushing.
- RecordWriter: failing writes, file names and their index; writing before Open or after Close.
- RecordReplay.Replay: takes the readers in the order of the files; `ReplaySorted` has them sorted.
- Rpc: the objects are values in a state machine, so update in place under the mutex is one step; the callback passed to AsyncSendRequest; waiting with a timeout; the transport.
- Registry: concurrent registration, which the code does not guard beyond the hash map's own steps.
- Registry.Table.Register: a full table that does not know the name, on which the code probes forever, as `ProbingStops` shows.
- Scheduler policies, transport, topology, components, parameters, class loading, I/O, logging and message serialization.
