# Verified model of the face recognition server

A Dafny model of the concurrent and byte-level core of a face recognition service: a compare server that
matches camera pictures against known users and guests on a pool of ten recognition engines, a guest server
that keeps pictures of registered guests for half an hour, and the parts of the muduo network library that
both rely on. `dafny verify dfyconfig.toml` checks everything.

The model has four parts.

**Engine pool and requests** (`EngineSpec`, `EngineProtocol`, `EngineInvariant`, `EngineProperties`,
`EngineLinearizability`, `EngineSteps`, `Engines`, `Pixels`, `Planes`). `EngineSpec.Execute` says what one
request does when it runs alone. `EngineProtocol` is a step system with any number of compare, add-user and
add-guest requests, in which every semaphore, mutex and read-write lock operation and every comparison of a
scan is a step of its own. The step system is proved to keep the engines, to be free of deadlock, to end, and
to be linearizable with respect to `Execute`. The classes of `Engines` are the same request code as imperative
methods; each request method is proved against `Execute` and proved to take exactly the steps that the step
system gives to its thread. The recognition library's score for a pair of features is an arbitrary function; a
pair matches above 0.95.

**Blocking queues** (`Monitor`, `MonitorLiveness`, `BlockingQueues`). `Monitor` is a step system for any number
of putters and takers over a mutex with its `holder_` field and two condition variables, with spurious wakeups
and with barging. The classes of `BlockingQueues` are the imperative code, cut where a thread blocks; each
method is proved to take exactly steps of the system. One class serves for both queues: the unbounded queue is
the one without a capacity, whose `take` notifies nobody. Both step systems use `Sums` to count threads
and `Histories` to order them.

**Buffer and framing** (`Bytes`, `Endian`, `BufferShape`, `NetBuffer`, `IntFields`, `Framing`, `Codecs`,
`Connections`, `WireFormat`). `NetBuffer.Buffer` is the array with its two indices, compaction in place and growth, proved to
be a byte sequence. `Framing.Parse` says what one call of `onMessage` does to any buffer content, malformed
content included; the codec classes are proved against it, and `WireFormat` says what it means byte by byte.
The host is little-endian.

**Guest pictures** (`GuestClock`, `GuestStore`, `GuestSweep`, `GuestRetention`, `QueryReply`,
`ReadWriteLocks`, `GuestServerClasses`). The picture list, the heap blocks it owns, the sweep and the query replies, as values
over whole runs of any number of days and as the imperative code proved against them. When the sweep finds no
entry later than its cutoff, the code reads the add time of an entry behind the last one, which C++ leaves
undefined. The model lets that read give anything, records it (`inBounds`), and goes on: the loop ends there
whatever was read. What is proved about runs "whatever the clock does" treats that read as harmless.

## What the proofs show about the code

- The pixel loop runs over the size of its output, not of its input, and leaves the last quarter of the output
  as malloc returned it (`Pixels.StripPixels`). The image comes out whole only if those bytes happened to be
  right (`Pixels.WholeImageIsLuck`); it does so whatever malloc returned exactly when it has fewer than eight
  bytes (`Pixels.WholeImageExactlyWhen`).
- The guest sweep tests an entry before it tests for the end of the list, so it leaves the list exactly when
  every entry is at or before the cutoff (`GuestStore.SweepDropsExpired`). That is also exactly when it frees
  young pictures (`GuestRetention.LosesYoungExactlyWhen`). The first picture of a server without pictures is
  freed at once whenever it arrives before 00:30 (`GuestRetention.MidnightOverrun`).
- A sweep leaves an old picture in the list exactly when an old one shows a time of day after the cutoff
  (`GuestRetention.LeavesOldExactlyWhen`). A picture from noon is still there after a sweep at 01:00 of the
  next day (`GuestRetention.NoonPictureStays`). Such a picture at the front blocks the sweeps from 00:30 to
  half an hour past its own time of day, and all sweeps from 00:30 on if it came at 23:30 or later
  (`GuestRetention.StaleEntryBlocks`).
- Over any number of days, every sweep keeps exactly the young pictures and stays in the list if and only if a
  condition on the instants holds that one can check beforehand (`GuestRetention.RetentionOverDays`); on one
  day, from 00:30 on, it does (`GuestRetention.RetentionOnOneDay`).
- A call of `onMessage` delivers at most one frame. The number of callbacks after any reads has a closed form
  (`Framing.DeliveredCount`), and everything that has arrived has been delivered exactly when, looking back
  over any number of reads, no more frames were completed than there were reads (`Framing.CaughtUpExactlyWhen`).
- `send` writes a big-endian length that does not count itself, while `onMessage` reads a host-order length
  that does. `onMessage` never takes what `send` wrote for one frame (`Codecs.SendIsNeverOneFrame`). When it
  waits for more is said by `Codecs.SendIsWaitedOnExactlyWhen`. When it makes a callback is said by
  `Codecs.SendIsDeliveredExactlyWhen`; then it delivers a part and leaves the rest in the buffer, as for the
  message of `Codecs.SendIsDeliveredInPart`. Framing is therefore proved for the frames that `onMessage`
  accepts.
- `shrink` passes the content through an int length, so it keeps the content exactly when that is shorter than
  2 GB (`NetBuffer.Buffer.Shrink`).
- A bounded queue of capacity 0 never serves anybody (`MonitorLiveness.NoCapacityNoService`); every other
  capacity does (`MonitorLiveness.EveryCallerIsServed`).
- The comment at `src/CompareServer/comparecodec.h:57` and the log line at 63 call the `addf` frame `addu`; the
  model uses the flag value that the code compares with.

## Model

| member | source | states |
|---|---|---|
| EngineInvariant.StepInv | arcfaceengines.cpp:54-191 | every step of every request keeps the lock, engine and scan invariants, whatever the other requests do |
| EngineInvariant.TopExists | arcfaceengines.cpp:175-183 | a thread that is about to take the top of the engine stack finds one |
| EngineInvariant.StepStack | arcfaceengines.cpp:175-191 | no engine index is ever on the stack twice, with two requests, or both on the stack and in use |
| EngineInvariant.StepCountsOk | arcfaceengines.cpp:175-191 | semaphore and permits, and stack and indices in hand, each keep adding up to ten |
| EngineInvariant.StepGuestLock | arcfacefeaturedb.cpp:32-104 | the guest list is locked by exactly the threads inside its sections, never for reading and writing at once |
| EngineInvariant.StepUserLock | arcfacefeaturedb.cpp:84-104 | the user list is locked for reading by exactly the threads that scan it |
| EngineInvariant.StepMutex | arcfaceengines.cpp:175-191 | the pool mutex is owned by exactly the thread inside a pop or push |
| EngineInvariant.StepScans | arcfaceengines.cpp:77-106 | what a scan has learnt about the lists stays true under every step of every other request |
| EngineInvariant.RunInv | arcfaceengines.cpp:54-191 | all invariants hold after any run |
| EngineProperties.StackSize | arcfaceengines.cpp:175-191 | stack size = semaphore count + acquired but not popped + pushed but not released, in every reachable state |
| EngineProperties.TopIsNeverEmpty | arcfaceengines.cpp:179-180 | the stack is never empty when a request takes its top, in any run |
| EngineProperties.EnginesAreConserved | arcfaceengines.cpp:17-25 | the stack and the requests together always hold engines 0 to 9, each exactly once, and no two requests share one |
| EngineProperties.QuietPoolIsFull | arcfaceengines.cpp:185-191 | when no request holds a permit, the semaphore is ten, the stack is a permutation of 0 to 9 and every lock is free: all exit paths give everything back |
| EngineProperties.DeadlockFree | arcfaceengines.cpp:54-191 | while any request is unfinished some request can take a step, whether or not readers yield to waiting writers |
| EngineProperties.EveryRunEnds | arcfaceengines.cpp:54-173 | every run is finite, with an explicit bound in the number of requests, users and guests |
| EngineProperties.EveryRequestIsAnswered | arcfaceengines.cpp:54-173 | a run that cannot go on has answered every request |
| EngineProperties.EffectsAreGuarded | arcfaceengines.cpp:77-173 | in every run the log changes only under a list's read lock and with an engine in hand, the guests only under the write lock and with an engine, the user updates only after the engine was given back and as the last step |
| EngineSpec.CompareVerdict | arcfaceengines.cpp:77-106 | alone, a comparison returns 0 exactly when somebody's score exceeds 0.95, and then logs one record: the first such user's with type 1, else the first such guest's with type 2 |
| EngineSpec.AddVerdict | arcfaceengines.cpp:109-173 | alone, an add request returns 0 exactly when its image loads and one face was extracted; it then appends exactly its entry to its own list, and otherwise changes nothing |
| EngineSpec.MatchedIsAbove | arcfaceengine.cpp:172-181 | a list has a match exactly when some entry's score exceeds 0.95 |
| EngineSpec.FirstIs | arcfaceengines.cpp:82-88 | a scan that stops at its first hit has found the first match of the list |
| EngineLinearizability.EffectStep | arcfaceengines.cpp:77-106 | the step at which a request takes effect has, in the database of that instant, the whole effect and the return value of the request executed alone |
| EngineLinearizability.QuietStep | arcfaceengines.cpp:54-191 | every other step changes neither the database nor the outcome |
| EngineLinearizability.Linearizable | arcfaceengines.cpp:54-173 | every run is explained by executing its requests one at a time: same guests, log and updates, same answers |
| EngineLinearizability.OrderRespectsRealTime | arcfaceengines.cpp:54-173 | a request answered, or only having taken effect, before another began comes before it in that order as soon as that one takes effect, answered or not |
| EngineLinearizability.ComparisonVerdict | arcfaceengines.cpp:77-106 | a finished comparison returned 0 exactly when a user's score exceeds 0.95, or that of a guest in the list as it was when the read lock was taken |
| EngineLinearizability.GuestsStandStill | arcfacefeaturedb.cpp:32-43 | while a comparison scans the guests, no step of any request changes the list |
| EngineLinearizability.LogIsTheVerdicts | arcfaceengines.cpp:84-101 | the import log is, in order, exactly the records due to the comparisons that took effect, none lost, invented or repeated |
| EngineLinearizability.SuccessIsRecorded | arcfaceengines.cpp:84-106 | a finished comparison returned 0 exactly when it is due one record, and 1 exactly when it is due none |
| EngineLinearizability.ListsAreTheAdditions | arcfaceengines.cpp:129-172 | in every reachable state the user updates, and the guests after the initial ones, are in order exactly the entries of the add requests that took effect, loaded and were extracted |
| EngineLinearizability.SuccessIsAdded | arcfaceengines.cpp:109-173 | a finished add request returned 0 exactly when it loaded and was extracted, which is when it is due an entry |
| Engines.FeatureDb.AddFeatureGuest | arcfacefeaturedb.cpp:32-43 | appends one guest with its add time and leaves the guest lock free |
| Engines.FeatureDb.GetCache | arcfacefeaturedb.cpp:84-88 | returns the user list with one more reader on its lock |
| Engines.FeatureDb.GetCacheGuest | arcfacefeaturedb.cpp:90-94 | returns the guest list with one more reader on its lock |
| Engines.FaceEngines.StartEngines | arcfaceengines.cpp:17-25 | stacks the indices 0 to 9 in order, and returns 0 exactly when every engine was initialised |
| Engines.FaceEngines.PopEngineIndex | arcfaceengines.cpp:175-183 | takes a permit, and under the pool mutex the top index, by exactly the steps of the step system |
| Engines.FaceEngines.PushEngineIndex | arcfaceengines.cpp:185-191 | under the pool mutex puts the index on top, then returns the permit, by exactly the steps of the step system |
| Engines.FaceEngines.CompareFace | arcfaceengines.cpp:54-107 | returns 0 exactly when the image loads and some score exceeds 0.95, with the effect of the specification; restores semaphore and stack exactly; is a run of the step system by its thread alone |
| Engines.FaceEngines.Match | arcfaceengines.cpp:77-106 | the two scans, guests only if no user matches, have the effect and result of a comparison executed alone and release both locks |
| Engines.FaceEngines.ScanUsers | arcfaceengines.cpp:77-89 | stops at the first matching user and logs it with type 1, or logs nothing; releases the lock |
| Engines.FaceEngines.ScanGuests | arcfaceengines.cpp:93-104 | stops at the first matching guest and logs it with type 2, or logs nothing; releases the lock |
| Engines.FaceEngines.AddFeature | arcfaceengines.cpp:109-139 | stores the feature and returns 0 exactly when the image loads and one face was extracted, changes nothing else, gives the engine back first; is a run of the step system by its thread alone |
| Engines.FaceEngines.AddFeatureG | arcfaceengines.cpp:141-173 | adds the guest and returns 0 exactly when the image loads and one face was extracted, changes nothing else, gives the engine back last; is a run of the step system by its thread alone |
| Pixels.StripPixels | arcfaceengines.cpp:66-73 | writes the first three quarters of the block, byte j from input byte j + j/3, every access in bounds, and leaves the rest of the block as it was |
| Pixels.SourcesAreTheKeptBytes | arcfaceengines.cpp:70-73 | those sources are exactly the input bytes that are not the fourth of a pixel, each used once and in order |
| Pixels.WholeImageIsLuck | arcfaceengines.cpp:66-73 | the block then holds the whole image exactly when the bytes that were not written were right before |
| Pixels.WholeImageExactlyWhen | arcfaceengines.cpp:66-73 | it does so for every block malloc may return exactly when the image has fewer than eight bytes |
| Pixels.TwoPixels | arcfaceengines.cpp:66-73 | for an image of eight bytes and a cleared block the last component is missing |
| Planes.LayoutIsSound | arcfaceengine.cpp:100-131 | for every format and size, odd ones included, the planes are disjoint, in order, and end inside the image |
| Planes.LayoutIs | arcfaceengine.cpp:100-131 | the offset, pitch and rows of every plane of every format, with the format codes |
| Planes.EvenLayoutIsExact | arcfaceengine.cpp:100-131 | for even sizes the planes follow one another without a gap and end exactly at the end of the image |
| Planes.Rgb24FillsStrippedImage | arcfaceengine.cpp:126-127 | the RGB24 plane fits the stripped buffer exactly when the image has at least four bytes for each pixel, and fills it when it has exactly four |
| Planes.GetFaceInputImg | arcfaceengine.cpp:91-133 | fills in plane offsets and pitches as the format's layout, or returns -1 for an unknown format; and every int product on the way fits an int exactly under the stated condition on the size |
| Monitor.StepLocks | muduo/base/Mutex.h:67-125 | mutex owner and `holder_` stay exactly what the threads' positions say, through lock, unlock and wait |
| Monitor.StepTests | muduo/base/BoundedBlockingQueue.h:34-52 | what a thread's last test said about the queue still holds when it acts or goes to sleep |
| Monitor.StepFifo | muduo/base/BoundedBlockingQueue.h:31-55 | every step keeps taken ++ queue = put, one push or pop for each operation that acted, and size within capacity |
| Monitor.StepWakeups | muduo/base/BoundedBlockingQueue.h:31-55 | every step, spurious wakeups included, keeps each element matched with a waking taker or a putter about to notify while takers sleep, and each free slot likewise |
| Monitor.NotifyWakeups | muduo/base/BoundedBlockingQueue.h:40-53 | one single notify is enough to keep that |
| Monitor.RunInv | muduo/base/BoundedBlockingQueue.h:31-55 | all of this after any run |
| MonitorLiveness.HolderIsSound | muduo/base/Mutex.h:67-125 | `isLockedByThisThread()` is true only for the owner, and is true again at the test that follows a wait |
| MonitorLiveness.MutualExclusion | muduo/base/Mutex.h:79-88 | no two threads are between lock and unlock |
| MonitorLiveness.QueueIsGuarded | muduo/base/BoundedBlockingQueue.h:31-55 | in every run the queue changes, and a thread is signalled, only by the owner and holder of the mutex |
| MonitorLiveness.QueueIsFifo | muduo/base/BoundedBlockingQueue.h:31-55 | over every run values come out in the order put in; no push into a full buffer, no pop of an empty one |
| MonitorLiveness.LogsAreTheCalls | muduo/base/BoundedBlockingQueue.h:31-55 | each put that was performed is logged exactly once with its own value, each take exactly once, and the k-th take got the value of the k-th put |
| MonitorLiveness.LogsRespectRealTime | muduo/base/BoundedBlockingQueue.h:31-55 | a put (take) performed before another began comes before it in that order |
| MonitorLiveness.NoLostWakeup | muduo/base/BoundedBlockingQueue.h:43-55 | with the mutex free, sleeping takers imply at least as many waking takers as elements, and symmetrically for putters and slots |
| MonitorLiveness.StuckMeansWaitingForGoodReason | muduo/base/BoundedBlockingQueue.h:31-55 | when nobody can move, sleeping takers face an empty queue, sleeping putters a full one, never both at once |
| MonitorLiveness.StuckMeansServed | muduo/base/BlockingQueue.h:30-64 | when nobody can move and there are enough puts every take has returned; and conversely for puts |
| MonitorLiveness.RunsAreShort | muduo/base/BoundedBlockingQueue.h:31-55 | the length of a run is bounded by the callers and the number of spurious wakeups |
| MonitorLiveness.EveryCallerIsServed | muduo/base/BoundedBlockingQueue.h:31-55 | from the initial state, any schedule ends and then leaves no caller waiting whose counterpart exists |
| MonitorLiveness.NotStuckCanGo | muduo/base/Condition.h:31-48 | progress never depends on a spurious wakeup |
| MonitorLiveness.NoCapacityNoService | muduo/base/BoundedBlockingQueue.h:23-55 | with capacity 0 no call ever gets past its wait |
| BlockingQueues.MutexLock.Lock | muduo/base/Mutex.h:79-83 | takes the mutex and records the holder |
| BlockingQueues.MutexLock.Unlock | muduo/base/Mutex.h:85-89 | clears the holder and releases the mutex |
| BlockingQueues.Condition.BeginWait | muduo/base/Condition.h:31-35 | clears the holder, releases the mutex, and joins the sleepers |
| BlockingQueues.Condition.EndWait | muduo/base/Mutex.h:99-115 | once woken, owns the mutex and is its holder again |
| BlockingQueues.Condition.Notify | muduo/base/Condition.h:40-43 | wakes one sleeper, any one, if there is one |
| BlockingQueues.BroadcastIsWakeups | muduo/base/Condition.h:45-48 | notifyAll is a run of single wakeups that empties its condition and no other, so it keeps every invariant of the queue |
| BlockingQueues.BlockingQueue.Put | muduo/base/BoundedBlockingQueue.h:31-41 | is a run of the step system by its thread alone; it appends and logs the value exactly when there is room, and otherwise sleeps |
| BlockingQueues.BlockingQueue.Take | muduo/base/BoundedBlockingQueue.h:43-55 | is a run of the step system by its thread alone; it removes, logs and returns the front exactly when there is one, and otherwise sleeps |
| BlockingQueues.BlockingQueue.Finish | muduo/base/BlockingQueue.h:30-64 | the notification and return of either queue are steps of the system; the unbounded take notifies nobody |
| Endian.HostToNetworkMemory | muduo/net/Endian.h:31-44 | a converted integer lies in memory most significant byte first |
| Endian.NetworkRoundTrip | muduo/net/Endian.h:31-59 | converting to network order and back is the identity on every 8, 16, 32 and 64 bit value |
| Endian.NetworkToHostReads | muduo/net/Endian.h:46-59 | copying a network-order field and converting it gives its value |
| Endian.SwapOf32 | muduo/net/Endian.h:36-39 | the 32-bit conversion exchanges the first byte with the last and the second with the third |
| Endian.SwapOf16 | muduo/net/Endian.h:41-44 | the 16-bit conversion exchanges the two bytes |
| Endian.SwapOf64 | muduo/net/Endian.h:31-34 | the 64-bit conversion reverses the eight bytes: it converts both halves and exchanges them |
| Endian.FieldIsInjective | muduo/net/Buffer.h:224-248 | different signed integers have different fields |
| Bytes.FromLeToLe | muduo/net/Endian.h:31-59 | decoding undoes encoding of host integers |
| Bytes.ToLeFromLe | muduo/net/Endian.h:31-59 | encoding undoes decoding of host integers |
| Bytes.BigEndianIsReversed | muduo/net/Endian.h:31-59 | network order is the reverse of the host's memory image |
| NetBuffer.Buffer.constructor | muduo/net/Buffer.h:48-56 | an empty buffer with 8 bytes in front and room for the initial size |
| NetBuffer.Buffer.Swap | muduo/net/Buffer.h:61-66 | exchanges two contents, storage and indices included |
| NetBuffer.Buffer.FindCrlf | muduo/net/Buffer.h:80-94 | the first CR LF at or after the start, or none exactly when there is none |
| NetBuffer.Buffer.FindEol | muduo/net/Buffer.h:96-108 | the first LF at or after the start, or none exactly when there is none |
| NetBuffer.Buffer.Retrieve | muduo/net/Buffer.h:113-124 | drops a prefix of the content by moving the reader index; both indices go back to 8 when nothing is left |
| NetBuffer.Buffer.RetrieveUntil | muduo/net/Buffer.h:126-131 | drops the content before a position |
| NetBuffer.Buffer.RetrieveAll | muduo/net/Buffer.h:153-157 | empties the buffer and puts both indices back to 8 |
| NetBuffer.Buffer.RetrieveAsString | muduo/net/Buffer.h:164-170 | splits the content into the returned string and what stays |
| NetBuffer.Buffer.Append | muduo/net/Buffer.h:182-187 | content = old content + data, whether or not the storage had to move or grow |
| NetBuffer.Buffer.EnsureWritableBytes | muduo/net/Buffer.h:194-201 | room for the request, same content; nothing moves if there was room, the storage grows if there was not enough in all, and else the content moves down to 8 |
| NetBuffer.Buffer.HasWritten | muduo/net/Buffer.h:209-213 | the bytes written behind the content become its end |
| NetBuffer.Buffer.Unwrite | muduo/net/Buffer.h:215-219 | drops a suffix of the content |
| NetBuffer.Buffer.Prepend | muduo/net/Buffer.h:354-360 | content = data + old content, in place |
| NetBuffer.Buffer.AppendInt | muduo/net/Buffer.h:224-248 | appends the integer's field in network byte order |
| NetBuffer.Buffer.PeekInt | muduo/net/Buffer.h:290-323 | the signed integer whose field the content starts with; nothing moves |
| NetBuffer.Buffer.ReadInt | muduo/net/Buffer.h:254-284 | the same, and exactly its bytes are consumed |
| NetBuffer.Buffer.PrependInt | muduo/net/Buffer.h:328-352 | puts the integer's field in front of the content |
| NetBuffer.Buffer.Shrink | muduo/net/Buffer.h:362-369 | keeps the content exactly when it is shorter than 2 GB, in a storage of exactly max(1032, 8 + content + reserve); longer content is cut or the call fails |
| NetBuffer.Buffer.MakeSpace | muduo/net/Buffer.h:390-409 | growth and overlapping compaction keep the content; `kCheapPrepend < readerIndex_` holds before compaction |
| NetBuffer.CopyDown | muduo/net/Buffer.h:402-404 | a forward copy to an overlapping earlier range moves the range intact and touches nothing else |
| BufferShape.GrowthIsBounded | muduo/net/Buffer.h:390-409 | one operation leaves the storage as it was or at most twice its demand plus 7 |
| BufferShape.SpaceBound | muduo/net/Buffer.h:390-409 | over any run without shrink the storage is at most max(8 + initial size, 2M + 7), M the peak of content plus requested length |
| BufferShape.NeverShrinks | muduo/net/Buffer.h:113-219 | no operation but shrink gives storage back |
| IntFields.IntegersComeBackInOrder | muduo/net/Buffer.h:224-284 | for any interleaving of typed appends and reads, the values read are a prefix of those appended and the content encodes the rest |
| IntFields.Perform | muduo/net/Buffer.h:224-284 | a buffer object does so: after any list of typed appends and matching reads it has returned the first values appended and its content encodes exactly the others |
| IntFields.PrependThenRead | muduo/net/Buffer.h:254-352 | prepending an integer and reading it back is the identity on value and content |
| Framing.NegativeLengthWaits | src/CompareServer/comparecodec.h:36-37 | a negative length never dispatches, because the comparison is unsigned |
| Framing.ParseWhole | src/CompareServer/comparecodec.h:33-95 | a complete frame is delivered with its id and payload, and exactly its bytes are consumed |
| Framing.ParsePartial | src/CompareServer/comparecodec.h:33-37 | an incomplete frame makes the codec wait and consumes nothing |
| Framing.DeliverStep | src/CompareServer/comparecodec.h:29-98 | one call keeps callbacks and buffer in step with the stream, and delivers a frame exactly when one is complete |
| Framing.FramingIsCutIndependent | src/CompareServer/comparecodec.h:29-98 | for any frames and any cut into reads: callbacks are a prefix of the frames, encoding(callbacks) ++ buffer = received, one more callback for each read as long as complete frames are left |
| Framing.DrainDeliversAll | src/CompareServer/comparecodec.h:29-98 | repeated calls end with exactly the complete frames delivered |
| Framing.CutsAgreeWhenDrained | src/CompareServer/comparecodec.h:29-98 | two cuts of the same bytes lead to the same callbacks and buffer |
| Framing.StreamIsInjective | src/CompareServer/comparecodec.h:33-95 | a byte stream encodes at most one sequence of frames |
| WireFormat.CompFrame | src/CompareServer/comparecodec.h:43-55 | the bytes of a `comp` frame, written out, are delivered as its payload, for every payload |
| WireFormat.AddfFrame | src/CompareServer/comparecodec.h:56-77 | the same for `addf` with its id |
| WireFormat.AddgFrame | src/CompareServer/comparecodec.h:78-94 | the same for `addg` with its id |
| WireFormat.ApplFrame | src/GuestServer/guestcodec.h:40-60 | the same for `appl` with its id |
| WireFormat.QuryFrame | src/GuestServer/guestcodec.h:61-74 | the same for `qury`: twelve bytes, whatever the length field says |
| WireFormat.TooFewBytesWait | src/CompareServer/comparecodec.h:33-37 | four bytes or fewer, or fewer than the length says, are left alone |
| WireFormat.UnknownFlagIsDiscarded | src/CompareServer/comparecodec.h:38-95 | a frame with any other flag loses exactly its first eight bytes |
| WireFormat.ReadsBeyondExactlyWhen | src/CompareServer/comparecodec.h:43-95 | exactly which frames make the codec read beyond the bytes received |
| WireFormat.FieldOf16 | muduo/net/Buffer.h:239-243 | a negative 16-bit field, byte by byte |
| WireFormat.FieldOf32 | muduo/net/Buffer.h:233-237 | a negative 32-bit field, byte by byte |
| WireFormat.FieldOf64 | muduo/net/Buffer.h:224-228 | a 64-bit field, byte by byte |
| WireFormat.OnePictureReply | src/GuestServer/arcguestserver.cpp:69-76 | a reply frame is the inclusive length, least significant byte first, and the picture |
| WireFormat.ReplyTexts | src/GuestServer/arcguestserver.cpp:57-80 | the two texts sent are "ok" and "empty" |
| WireFormat.SentBytes | src/CompareServer/comparecodec.h:99-108 | send writes the exclusive length, most significant byte first, and the message |
| Framing.DeliveredCount | src/CompareServer/comparecodec.h:29-98 | the number of callbacks is the least, over all earlier moments, of the frames that had arrived by then plus the reads since |
| Framing.ArrivalsAre | src/CompareServer/comparecodec.h:33-37 | the counts used there are the frames complete within the bytes of the first j reads |
| Framing.CaughtUpExactlyWhen | src/CompareServer/comparecodec.h:29-98 | every complete frame has been delivered exactly when no look back over reads finds more frames completed than reads |
| Framing.OneReadDeliversOneFrame | src/CompareServer/comparecodec.h:33-95 | the simplest case: frames that all arrive in one read stay buffered after the first |
| Codecs.CompareCodec.OnMessage | src/CompareServer/comparecodec.h:29-98 | consumes and delivers what the parse of the content says, for every content that does not make it read beyond the content |
| Codecs.GuestCodec.OnMessage | src/GuestServer/guestcodec.h:26-78 | the same for `appl` and `qury`, with the effect on the server and the reply, whatever the clock shows |
| Codecs.GuestCodec.OnAppl | src/GuestServer/guestcodec.h:48-59 | the payload goes to a fresh block and the server's state becomes the model's after that push and its sweep; exactly the frame is consumed |
| Codecs.GuestCodec.OnQury | src/GuestServer/guestcodec.h:69-72 | answers for the id and consumes twelve bytes, whatever the length says |
| Codecs.Send | src/CompareServer/comparecodec.h:99-108 | writes the message behind its big-endian length, not counting itself |
| Codecs.SendIsReadable | src/GuestServer/guestcodec.h:79-88 | a reader of big-endian, exclusive lengths recovers the message |
| Codecs.SendIsNeverOneFrame | src/CompareServer/comparecodec.h:99-108 | for every message: if onMessage delivers anything of what send wrote, it leaves some of it in the buffer |
| Codecs.SendIsDeliveredExactlyWhen | src/CompareServer/comparecodec.h:29-108 | for every message: onMessage makes a callback exactly when the byte-swapped length is at most what was sent and the message starts with the flag of a frame that has room in it |
| Codecs.SendIsDeliveredInPart | src/CompareServer/comparecodec.h:43-55 | such a message: 65792 bytes that start with `comp` are delivered without their last four |
| Codecs.SendIsNotAccepted | src/CompareServer/comparecodec.h:99-108 | the reply "ok" as send frames it makes onMessage wait |
| Codecs.SendIsWaitedOnExactlyWhen | src/CompareServer/comparecodec.h:29-108 | for every message: onMessage waits on what send writes exactly when the message is empty or its byte-swapped length exceeds what was sent |
| Connections.NextRead | src/CompareServer/comparecodec.h:29-98 | on a stream of well-formed frames no call reads beyond the content or discards bytes |
| Connections.ReadCompare | src/CompareServer/comparecodec.h:29-98 | buffer and codec objects stay in step with the stream over every read |
| Connections.NextPushIsSwept | src/GuestServer/arcguestserver.cpp:44-60 | on one day the sweep after a push never leaves the list |
| Connections.ReadGuest | src/GuestServer/guestcodec.h:26-78 | over every read on every connection and for any clock, the objects' state is that of the model's run over all frames handled so far, and the reply is the one due; within one day no sweep leaves the list |
| GuestClock.CutoffOnOneDay | src/GuestServer/arcguestserver.cpp:91-94 | on one day from 00:30 on, the cutoff test holds exactly for pictures of 1,800,000 milliseconds and more |
| GuestClock.CutoffAgreesExactlyWhen | src/GuestServer/arcguestserver.cpp:91-94 | within 24 hours the wrapped test equals the age test exactly when both fall on one day and it is at least 00:30, or it is before 00:30 and the entry is from the day before |
| GuestStore.SweepDropsExpired | src/GuestServer/arcguestserver.cpp:85-101 | the sweep frees the longest expired prefix, keeps the rest in order, and leaves the list exactly when everything is expired |
| GuestStore.OwnershipIsConserved | src/GuestServer/arcguestserver.cpp:44-101 | over any run, whatever the clock does, every payload is either freed once, oldest first, or owned by exactly one entry that still has the frame's bytes |
| GuestStore.FreedOnceAndNeverUsed | src/GuestServer/arcguestserver.cpp:94-99 | no block is freed twice, none is freed and still in the list, none is in two entries |
| GuestRetention.RetentionOverDays | src/GuestServer/arcguestserver.cpp:44-101 | over any number of days: every sweep keeps exactly the young pictures and stays in the list if and only if each meets a condition on the instants |
| GuestRetention.SweepIsRightExactlyWhen | src/GuestServer/arcguestserver.cpp:85-101 | whatever earlier sweeps did: exactly when all is right after the next one |
| GuestRetention.LosesYoungExactlyWhen | src/GuestServer/arcguestserver.cpp:85-101 | whatever earlier sweeps did: a sweep frees a young picture exactly when it leaves the list and the newest picture is young, and then it frees them all |
| GuestRetention.LeavesOldExactlyWhen | src/GuestServer/arcguestserver.cpp:85-101 | whatever earlier sweeps did: a sweep leaves an old picture exactly when an old one in the list shows a time after the cutoff |
| GuestRetention.YoungAreKeptExactlyWhen | src/GuestServer/arcguestserver.cpp:44-101 | over any number of days, with prompt sweeps: no picture was ever freed young exactly when no sweep ever left the list |
| GuestRetention.OutlivesTheDay | src/GuestServer/arcguestserver.cpp:91-99 | pictures do stay too long: one from 00:30 or later, and a second the next day less than half an hour past that time of day |
| GuestRetention.NoonPictureStays | src/GuestServer/arcguestserver.cpp:91-99 | one such run: a picture at noon is still there after a sweep at 01:00 of the next day |
| GuestRetention.NextSweep | src/GuestServer/arcguestserver.cpp:85-101 | after right sweeps, the next one is right exactly under that condition |
| GuestSweep.CutExactlyWhen | src/GuestServer/arcguestserver.cpp:94-99 | for any list in order of time: the loop cuts between old and young inside the list exactly when the newest picture is young, no young one is gone, all old ones show a time up to the cutoff, and it is 00:30 or a young one is from another day |
| GuestSweep.YoungIsFreedExactlyWhen | src/GuestServer/arcguestserver.cpp:94-99 | the loop passes a young entry exactly when it leaves the list and the newest entry is young |
| GuestSweep.OldIsLeftExactlyWhen | src/GuestServer/arcguestserver.cpp:94-99 | the loop leaves an old entry exactly when an old entry shows a time after the cutoff |
| GuestSweep.YoungStays | src/GuestServer/arcguestserver.cpp:91-94 | a young picture is kept by the test exactly when it is at least 00:30 or the picture is from another day |
| GuestRetention.RightMeansYoung | src/GuestServer/arcguestserver.cpp:85-101 | the list then is the young pictures in order of arrival |
| GuestRetention.StaysInListExactlyWhen | src/GuestServer/arcguestserver.cpp:93-94 | over any run: no sweep has left the list exactly when each found an entry later than its cutoff |
| GuestRetention.StopsExactlyWhen | src/GuestServer/arcguestserver.cpp:91-94 | a sweep right after a push leaves the list exactly when it is before 00:30, the push was today, and no older entry shows a time after the cutoff |
| GuestRetention.FirstSweep | src/GuestServer/arcguestserver.cpp:44-60 | the first picture's sweep leaves the list, and frees the picture, exactly before 00:30 or if the picture is out of date at once |
| GuestRetention.MidnightOverrun | src/GuestServer/arcguestserver.cpp:44-60 | such a run: one picture in the first half hour of the day, which the sweep frees at once |
| GuestRetention.FirstEntryBlocksExactlyWhile | src/GuestServer/arcguestserver.cpp:94-99 | over any further run nothing more is freed exactly as long as the first entry shows a later time than every cutoff |
| GuestRetention.StaleEntryBlocks | src/GuestServer/arcguestserver.cpp:91-99 | from 00:30 on the first entry blocks every sweep exactly until half an hour past its time of day, and every one of them if that is 23:30 or later |
| GuestRetention.FreedAreTheOld | src/GuestServer/arcguestserver.cpp:94-99 | on one day the blocks freed are exactly those of pictures that were too old at the last sweep |
| GuestRetention.RetentionOnOneDay | src/GuestServer/arcguestserver.cpp:44-101 | on one day the list is sorted and holds exactly the pictures younger than the retention time at the last sweep, and no sweep has left it |
| GuestRetention.KeptForHalfAnHour | src/GuestServer/arcguestserver.h:52 | a picture of 12:00 is still there after a push and sweep at any time before 12:30, as at 12:25, and gone after one at 12:30 or later that day |
| GuestSweep.SweepAcrossMidnight | src/GuestServer/arcguestserver.cpp:85-101 | for entries less than a day old, exactly when a sweep removes just the old entries and stops inside the list |
| GuestServerClasses.GuestServer.OnStringMessageAdd | src/GuestServer/arcguestserver.cpp:44-60 | pushes the picture and sweeps: the new state is the model's, the reply is "ok" |
| GuestServerClasses.GuestServer.OnStringMessageQuery | src/GuestServer/arcguestserver.cpp:62-83 | sends an answer that decodes to exactly the pictures of the id, every length within an int32, and changes nothing |
| GuestServerClasses.GuestServer.ClearList | src/GuestServer/arcguestserver.cpp:85-101 | does the model's sweep if it gets the lock and nothing otherwise |
| QueryReply.ParseReply | src/GuestServer/arcguestserver.cpp:66-78 | the reply frames parse back to exactly the pictures sent, in order |
| QueryReply.EmptyIsNotAReply | src/GuestServer/arcguestserver.cpp:79-81 | "empty" is not a sequence of reply frames |
| QueryReply.MatchingInOrder | src/GuestServer/arcguestserver.cpp:66-78 | the pictures of an answer are all those of the id, each in the place that the number of earlier ones gives it |
| QueryReply.AnswersDecode | src/GuestServer/arcguestserver.cpp:62-83 | an answer is "empty" exactly when nothing matches, and decodes to the matching pictures in insertion order |
| QueryReply.QueryAfterRun | src/GuestServer/arcguestserver.cpp:44-101 | after any run a query returns exactly the unswept pictures of that id |

## Left out

- The recognition library: detection, extraction and matching are inputs of a request; a matching call that fails and leaves its score uninitialised is not modelled.
- Image decoding: whether the image loads is an input of a request.
- SQL: the import log and the user updates are the sequences of statements issued; a statement that fails is not modelled, and the user cache is what the constructor loaded.
- Sockets, event loops, `Buffer::readFd`, logging and the Qt classes; `Connections` takes the bytes of each read as given.
- `InitEngine`, `UninitialEngine` and `stopEngines`, which depend on the recognition library alone; their results are inputs.
- Engines.FaceEngines.StartEngines: its contract also covers a second call, which would stack every index twice; the properties of runs start from one call, as the compare server makes.
- Engines.FaceEngines.CompareFace: a request that nobody disturbs runs from start to end; interleavings are the subject of the step system, which is over values.
- BlockingQueues.BlockingQueue.Put: a critical section runs at a time; the interleavings inside and between sections are the subject of the step system.
- Codecs.CompareCodec.OnMessage: content whose lengths make the code read beyond the readable bytes is excluded; the parse names exactly that content `OutOfBounds`.
- Codecs.GuestCodec.OnMessage: excludes the same content; `Connections` shows that it does not arise on well-formed streams.
- GuestServerClasses.GuestServer.ClearList: what a read behind the last entry does beyond giving some value, which C++ leaves undefined, is not modelled.
- NetBuffer.Buffer.Shrink: which way it fails when the int length is negative (an exception or an assertion) is not modelled.
- Planes.GetFaceInputImg: what the code computes when a product does not fit an int; the contract says exactly when that is.
- Planes.LayoutIsSound: is about unbounded offsets, and so about the code's under the condition that `Planes.GetFaceInputImg` states.
- QueryReply.AnswersDecode: pictures whose length plus four does not fit an int32 are excluded.
- `Buffer::internalCapacity`, the `retrieveInt*`, `retrieveAllAsString` and `toStringPiece` shorthands, and the vector's spare capacity.
- `Condition::waitForSeconds`, and the observers `size`, `empty`, `full` and `capacity` of the queues.
- Memory that the compare codec and the request code allocate and never free.
- Connection sets, thread pools, `AtomicIntegerT`, `Singleton`, `Timestamp`, HTTP classes and `StringPiece`: their properties would be easy.
