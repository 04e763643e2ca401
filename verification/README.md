# Verified models of the systems components

This project models six components in Dafny and proves what they promise: the shared-memory
single-producer/single-consumer queue, the skip-list key-value store, the protocol-buffer address book,
the reader-writer latch, the reference-counted pointer and the poll array. `dafny verify dfyconfig.toml`
checks all of it.

Code that updates state in place is modelled by classes with the same fields and the same branches. Where
several threads or processes take part, the component is also a state machine whose steps are the single
accesses to shared state, and the class methods are proved to be runs of that machine.

## The components

**Queue** (`Arith64`, `SpscRing`, `SpscFifo`, `SpscCalls`, `SpscLimits`, `SpscUncached`, `SpscQueue`). `SpscRing`
is the day6 ring as a state machine: flag load, cached test, index load, one step per copied byte, index store,
and a reader that may attach, detach or die at any step, while other processes are refused as readers. A load of
the other side's index may return any value between the last one seen and the current one. `SpscFifo` proves that every run is a legal history of a bounded FIFO
queue, that in-flight copies never share a byte, and that both calls are wait-free. `SpscLimits` says where
it stops being one, with runs (put together from the whole calls of `SpscCalls`) that get there. `SpscUncached`
is the day4 ring (no cached indices, modulo) and proves that the cached, masked ring refines it. `SpscQueue` has
`try_enqueue` and `try_dequeue` as methods over the mapped region; between two accesses the other process
takes any number of steps, unless the parameter `alone` says that it takes none. The parameter `stale` says
whether the loads of an index may be old; when they are not, the answer of a call is the true one.

**Skip list** (`SkipGraph`, `SkipListStore`). Four-way linked nodes, sentinel columns and the loops that
splice, replace, remove and release towers. The links are stated on a snapshot of the live nodes. Every run
of inserts, removals and searches, for every outcome of `rand()`, gives the answers of a sorted map.

**Address book** (`Wire`, `WireForm`, `AddressBook`, `AddressBookLaws`, `AddressBookFields`, `AddressBookGrowth`,
`PhoneMessage`, `PersonMessage`, `BookMessage`). The wire format follows the "Encoding" guide of Protocol Buffers (Base 128
Varints, Signed Integers, Length-Delimited Records, Last One Wins). `AddressBook` says what parsing, writing,
sizing and merging mean. `WireForm` and `AddressBookFields` say the same from outside, without the functions that
read and write: which bytes stand for which fields, what becomes of each field, which inputs are accepted. The
message classes hold the generated code's parser loops, tight repeated-field
loops, cached sizes and serializers, proved against it.

**Latch** (`RwLatch`, `RwLatchProgress`, `RwLatchCalls`, `RwLatchObject`). Any number of threads, one mutex, two
condition variables, spurious wakeups. Exclusion, lost wakeups, deadlock and draining are proved over all runs;
`RwLatchCalls` says what a thread has after WLock, RLock and an unlock.

**Shared pointer** (`SharedPointer`, `SharedPointerRuns`). Handles, counters and objects with their books;
whole programs are compared with a plain table that says which object each handle points to.

**Poll array** (`PollArrays`). Growing, shrinking, removal by swapping; contents, space bound and amortised
cost over every run.

## Where the code does not do what is said of it

* `Shared-memory-queue/day5/spsc_queue.h:22-23` warns that the queue is not for more than 2^64 - 1 elements.
  It can stop earlier. The full test adds the capacity to the reader index without regard to overflow:
  `SpscFifo.FullTestExact` gives the exact condition under which its answer is right. By
  `SpscLimits.JamIsReached` there is, for every queue, a run that accepts and delivers 2^64 - capacity elements
  and after which the empty queue refuses everything for ever.
* `round_up_power_of_2` does not end for arguments above 2^63: `Arith64.RoundUpTerminatesIff`.
* The day5 reader resets `reader_idx` when it attaches. `SpscLimits.ResetHarmlessIff`: everything that follows
  is the history of a queue exactly when nothing has been consumed. That holds at the first attach; at a later
  one, by `SpscLimits.DeliveredTwice`, an element that was accepted once can be delivered a second time.
* A reader that day6 refuses because its capacity or element size does not match has been constructed by then
  (`spsc_queue.cpp:74`), and its destructor clears `client_connected` (lines 124-132). The reader that is there
  is cut off. `SpscLimits.ReaderStaysConnectedIff`: it is connected exactly when nobody has been refused since it
  was attached. By `SpscLimits.ReaderIsCutOff` that happens, and no element is accepted until a reader attaches.
* `KV-store-skiplist/README.md:94` says that an entry gets a random height. The code draws a random number
  only to grow the list (`skiplist.h:229-256`): a new key gets a node in every row. The last clause of
  `SkipListStore.SkipList.SkipInsert` states it; `SkipListStore.EveryHeightIsReached` says what the draw decides.
* `ExpectedHeight` is documented as log2(n) + 2 for n keys, but takes the logarithm of the height
  (`skiplist.h:327-333`): `SkipListStore.ExpectedHeightIs`. `SkipListStore.HeightsStayBounded` says what follows.
* With more than MAX_READERS + 1 threads the latch can lose a wakeup, because `RUnlock` notifies one sleeper
  at the moment the count leaves MAX_READERS and nobody afterwards. `RwLatchProgress.NoLostWakeupIff` is exact,
  and so is `RwLatchProgress.EverybodyIsServedIff`: the forgotten reader can be the only thread left.
* Assigning a null `shared_ptr` to one that shares its object leaves the target pointing to an object it no
  longer counts for. `SharedPointer.CopyAssign` and `SharedPointer.MoveAssign` leave the handles in order if and
  only if that is not the case; otherwise the counter is one less than the number of handles on the object, which
  by `SharedPointer.NoBooksFit` cannot be put right by any books. `SharedPointer.ForgottenReset` goes on from
  there: the object is deleted while the target still points to it.
* Copying a sole owner to itself deletes the object (`SharedPointer.CopyAssignSelf`).
* A handle constructed from a null one keeps whatever its members happen to be. All is in order exactly when that
  is null (`SharedPointer.CopyConstruct`, `SharedPointer.MoveConstruct`); if it is what another handle has, that
  one's counter is short, and when the new handle goes the object is deleted under the other
  (`SharedPointer.UnsetHandle`, `SharedPointer.UnsetHandleDeletes`).
* An object that is wrapped a second time gets a second counter. `SharedPointer.FromRaw` is exact; by
  `SharedPointer.WrappedTwice` the object can be deleted twice.

## Model

| member | source | states |
|---|---|---|
| `Arith64.SingleBitIffPow2` | Shared-memory-queue/day6/spsc_queue.cpp:27 | the single-bit test of the C++ queue accepts exactly the powers of two |
| `Arith64.MaskIsModulo` | Shared-memory-queue/day6/spsc_queue.cpp:156-157 | masking an index with capacity - 1 is the modulo that the mask replaced, for every power of two |
| `Arith64.RoundUpTerminatesIff` | Shared-memory-queue/day5/spsc_queue.c:21-27 | some round of the doubling, which wraps, reaches the argument if and only if it is at most 2^63 |
| `Arith64.PowAfterIs` | Shared-memory-queue/day5/spsc_queue.c:23-25 | the wrapping doubling gives the powers of two for 63 rounds, and zero from then on |
| `Arith64.RoundUpPowerOf2` | Shared-memory-queue/day5/spsc_queue.c:21-27 | for every argument and number of rounds: whether the loop has ended by then; if so the result is the least power of two not below the argument; from 63 rounds on, whether it ever ends |
| `Arith64.CapacityAccepted` | Shared-memory-queue/day5/spsc_queue.c:33-35 | for every capacity: where the argument test of the C queue comes to an answer, it accepts exactly the powers of two; it does for capacities up to 2^63 |
| `SpscRing.StepKeepsInv` | Shared-memory-queue/day6/spsc_queue.cpp:136-188 | every step of either side keeps the index chain, the published slots byte for byte, and what each side has copied so far |
| `SpscRing.RunKeepsInv` | Shared-memory-queue/day6/spsc_queue.cpp:136-188 | so does every interleaved run, old loads, detaches and crashes included |
| `SpscRing.StoreInBounds` | Shared-memory-queue/day6/spsc_queue.cpp:156-161 | each byte of the copy in lands inside the region, at the place the modulo ring would use |
| `SpscRing.FetchInBounds` | Shared-memory-queue/day6/spsc_queue.cpp:180-185 | each byte of the copy out comes from inside the region, from the place the modulo ring would use |
| `SpscFifo.FullTestExact` | Shared-memory-queue/day6/spsc_queue.cpp:144-153 | the wrapping full test is right if and only if reader index plus capacity stays below 2^64; above, it always says full |
| `SpscLimits.JamsForever` | Shared-memory-queue/day6/spsc_queue.cpp:144-153 | once the producer has loaded a reader index in the wrapping range no run accepts another element, however empty the queue is |
| `SpscLimits.JamIsReached` | Shared-memory-queue/day6/spsc_queue.cpp:136-188 | every queue has a run from creation that accepts and delivers 2^64 - capacity elements, with a client connected and both sides idle, after which no run accepts anything |
| `SpscFifo.StepRefinesFifo` | Shared-memory-queue/day6/spsc_queue.cpp:136-188 | each step is one event of a bounded FIFO: acceptance at the index store, refusals only when allowed by the loaded index |
| `SpscFifo.RunRefinesFifo` | Shared-memory-queue/day6/spsc_queue.cpp:136-188 | every interleaved run is a legal FIFO history; with fresh loads full and empty are said only when true |
| `SpscFifo.FifoConserves` | Shared-memory-queue/day6/spsc_queue.cpp:136-188 | in any legal history what was queued and accepted is what was delivered, in order, then what is still queued |
| `SpscFifo.Linearizable` | Shared-memory-queue/day6/spsc_queue.cpp:136-188 | from creation on, delivered elements are byte for byte a prefix of the accepted ones and at most capacity are queued, across detaches, crashes, refused and new readers |
| `SpscFifo.CopiesDoNotOverlap` | Shared-memory-queue/day6/spsc_queue.cpp:156-162 | in every reachable state a copy in and a copy out in flight lie in the region and share no byte |
| `SpscFifo.CrashRedeliversCurrent` | Shared-memory-queue/day6/spsc_queue.cpp:183-186 | a reader that dies after copying but before publishing causes at most the same element to be delivered next |
| `SpscLimits.ResetHarmlessIff` | Shared-memory-queue/day5/spsc_queue.c:154-156 | after the index reset on attach every run is a legal history of the queue as it was, if and only if nothing has been consumed |
| `SpscLimits.DeliveredTwice` | Shared-memory-queue/day5/spsc_queue.c:154-156 | from creation on, for every element: it is accepted once and delivered, the reader goes away, and after the reset of the next reader it is delivered again |
| `SpscLimits.NothingBeforeFirstAttach` | Shared-memory-queue/day5/spsc_queue.c:201-204 | no run before the first attach accepts anything, so the first reset changes nothing |
| `SpscCalls.HistoryIsEvents` | Shared-memory-queue/day6/spsc_queue.cpp:136-188 | what the two histories gain in a run is exactly what the callers were told, in order |
| `SpscFifo.EnqueueIsWaitFree` | Shared-memory-queue/day6/spsc_queue.cpp:136-164 | a call returns within element size + 4 own steps whatever the reader does, and can always step until then |
| `SpscFifo.DequeueIsWaitFree` | Shared-memory-queue/day6/spsc_queue.cpp:166-188 | the same for the consumer, within element size + 3 own steps |
| `SpscUncached.CachedPassIsPass` | Shared-memory-queue/day5/spsc_queue.c:206-212 | where the cached full test passes, the test on any newer reader index passes as well |
| `SpscUncached.StepIsSimulated` | Shared-memory-queue/day5/spsc_queue.c:201-266 | each step of the cached ring is one step of the uncached ring, or none, with the same answer |
| `SpscUncached.CachedRunIsUncachedRun` | Shared-memory-queue/day4/spmc_queue.c:126-153 | every run of the cached ring is a run of the uncached ring under the simulation relation, with the same answers; fresh loads stay fresh |
| `SpscUncached.CachedRingRefinesUncached` | Shared-memory-queue/day4/spmc_queue.c:126-153 | from creation on both accept and deliver the same elements and leave the same data |
| `SpscQueue.SpscShared.constructor` | Shared-memory-queue/day6/spsc_queue.cpp:76-89 | a new region satisfies the invariant, whatever its data bytes are |
| `SpscQueue.SpscShared.Create` | Shared-memory-queue/day6/spsc_queue.cpp:24-31 | a queue comes into being if and only if the element size is not zero and the capacity is a power of two |
| `SpscQueue.SpscShared.AttachReader` | Shared-memory-queue/day6/spsc_queue.cpp:91-133 | which mismatch gives which error, in the order of the tests; invalid arguments change nothing, a mismatch disconnects the queue on the way out, otherwise the reader is attached and the indices are as before |
| `SpscLimits.ReaderStaysConnectedIff` | Shared-memory-queue/day6/spsc_queue.cpp:110-133 | in every reachable state with a reader there it is connected, and an enqueue gets past the flag, if and only if nobody has been refused as a reader since it was attached |
| `SpscLimits.NothingWithoutFlag` | Shared-memory-queue/day6/spsc_queue.cpp:137-139 | with the flag cleared no run accepts anything before the next attach |
| `SpscLimits.ReaderIsCutOff` | Shared-memory-queue/day6/spsc_queue.cpp:110-139 | every queue has a run from creation after which a reader is there and the queue is empty, an enqueue has been told that there is no client, and nothing is accepted before the next attach |
| `SpscQueue.SpscShared.DestroyReader` | Shared-memory-queue/day6/spsc_queue.cpp:124-133 | a reader that leaves clears the flag and keeps everything queued |
| `SpscQueue.SpscShared.TryEnqueue` | Shared-memory-queue/day6/spsc_queue.cpp:136-164 | with the reader interfering between any two accesses the whole call is a run of the ring with exactly one answer to the producer: true if and only if its element was accepted, once, and then its bytes are in its slot and the index is one further; with loads that are not old, full is said only of an index the reader had at the call or later; alone, true if and only if a client is connected and there is room |
| `SpscQueue.SpscShared.TryDequeue` | Shared-memory-queue/day6/spsc_queue.cpp:166-188 | likewise with the writer interfering: true means the returned bytes are the delivered element, those of its slot, and the index is one further; false leaves the destination as it was; with loads that are not old an element that was there at the call is returned, and empty is said only of an index the writer had at the call or later |
| `SpscQueue.SpscShared.LoadReaderIdx` | Shared-memory-queue/day6/spsc_queue.cpp:146-153 | the second full test: its load is remembered, is not older than the last one, is the current index unless it may be old, and decides between refusal and copying |
| `SpscQueue.SpscShared.LoadWriterIdx` | Shared-memory-queue/day6/spsc_queue.cpp:172-177 | the same for the second empty test |
| `SpscQueue.QueuedBytes` | Shared-memory-queue/day6/spsc_queue.cpp:156-185 | every byte of every element that is queued stands in the region at the place the modulo gives |
| `SkipGraph.SkipNode.SkipSearch` | KV-store-skiplist/src/skiplist.h:119-134 | the path has one node for each row, each its row's predecessor of the key, and the last of them is returned |
| `SkipGraph.BottomPredecessorIsFloor` | KV-store-skiplist/src/skiplist.h:119-147 | the bottom predecessor holds the largest key not above the argument, or is the left sentinel and all keys are above |
| `SkipGraph.SpliceKeepsShape` | KV-store-skiplist/src/skiplist.h:243-256 | splicing a node in keeps every row strictly sorted between sentinels and all neighbour links mutual |
| `SkipGraph.UnlinkKeepsShape` | KV-store-skiplist/src/skiplist.h:278-286 | taking the lowest remaining node of a tower out keeps all that, and leaves one hole, directly above it |
| `SkipGraph.LayerKeepsShape` | KV-store-skiplist/src/skiplist.h:307-325 | a new top row of sentinels keeps all that for one more row |
| `SkipGraph.TowerReachesDown` | KV-store-skiplist/src/skiplist.h:251-254 | a node in some row has nodes of the same key in all rows below |
| `SkipGraph.InsertAfter` | KV-store-skiplist/src/skiplist.h:244-255 | one round of the building loop is the splice, links and value of the new node included |
| `SkipGraph.RemoveNode` | KV-store-skiplist/src/skiplist.h:279-285 | one round of the removal loop is the unlinking of that node and of no other |
| `SkipGraph.SetValueMovesHole` | KV-store-skiplist/src/skiplist.h:221-225 | while a column takes a new value the one node whose value differs from the one below moves up by a row |
| `SkipListStore.HeightsStayBounded` | KV-store-skiplist/src/skiplist.h:229-259 | growth and self-adjustment keep the height and the size of the maximum within what they were, or three, for a maximum of either sign, and the height within the maximum where it was |
| `SkipListStore.ExpectedHeightIs` | KV-store-skiplist/src/skiplist.h:327-333 | the expected height is k + 2 for every height from 2^k up to 2^(k+1) |
| `SkipListStore.EveryHeightIsReached` | KV-store-skiplist/src/skiplist.h:229-236 | every height from the current one up to a positive maximum comes out of some draw |
| `SkipListStore.SkipList.constructor` | KV-store-skiplist/src/skiplist.h:177-184 | a new list is well formed and holds nothing, whatever its maximum height |
| `SkipListStore.SkipList.SkipSearch` | KV-store-skiplist/src/skiplist.h:204-206 | returns the node of the floor of the key with the value bound to it, or a sentinel when every key is larger |
| `SkipListStore.SkipList.SkipInsert` | KV-store-skiplist/src/skiplist.h:214-262 | true if and only if the key was absent; the key is bound to the value in both cases, nothing else changes; for a new key the height becomes the draw modulo the old maximum plus one if that is larger, and the maximum and the size follow; a new key has a node in every row |
| `SkipListStore.SkipList.SkipRemove` | KV-store-skiplist/src/skiplist.h:269-289 | true if and only if the key was present; exactly its entry goes, and exactly the nodes of its tower are deleted |
| `SkipListStore.SkipList.SetMaxHeight` | KV-store-skiplist/src/skiplist.h:301 | any value is taken, and no entry changes |
| `SkipListStore.SkipList.BuildExtraLayer` | KV-store-skiplist/src/skiplist.h:307-325 | one more row, same entries |
| `SkipListStore.SkipList.Release` | KV-store-skiplist/src/skiplist.h:189-197 | the destructor deletes every live node, each exactly once |
| `SkipListStore.SkipList.ReleaseLevel` | KV-store-skiplist/src/skiplist.h:339-345 | deletes exactly the nodes of its row |
| `SkipListStore.RowsAreNested` | KV-store-skiplist/src/skiplist.h:241-256 | a key of a row is a key of the row below, and of the map |
| `SkipListStore.PerformAll` | KV-store-skiplist/src/skiplist.h:177-301 | every run of inserts, removals, searches and changes of the maximum height with every outcome of rand() gives the answers of a sorted map; the heights stay within any bound that covers three and the maximum heights asked for; without such changes the height stays within the maximum |
| `SkipListStore.MapAnswersUnique` | KV-store-skiplist/src/skiplist.h:199-289 | the sorted map admits one answer to each call, so those answers are determined |
| `Wire.VarintRoundTrip` | Protocol-buffer/addressbook.pb.cc:332 | a varint reads back, whatever follows it, for every number its length limit covers |
| `WireForm.WrittenForm` | Protocol-buffer/addressbook.pb.cc:696-698 | the bytes written for a number: all but the last have the top bit, and their low seven bits, least significant first, sum up to the number |
| `WireForm.WrittenIsShortest` | Protocol-buffer/addressbook.pb.cc:696-698 | among all byte strings of that form with that sum it is the only one of its length, and none is shorter |
| `WireForm.ReadVarintIff` | Protocol-buffer/addressbook.pb.cc:332 | a number and a length are read if and only if the buffer starts with a string of that form, length and sum, within the limit |
| `WireForm.Int32OnTheWire` | Protocol-buffer/addressbook.pb.cc:618-623 | what is kept of a number read is the one 32-bit number congruent to it modulo 2^32, and what is written of a 32-bit number is congruent to it modulo 2^64 |
| `WireForm.ReadFieldIff` | Protocol-buffer/addressbook.pb.cc:313-353 | a field is read if and only if the buffer starts with its form: a tag of at most five bytes, then what wire types 0, 1, 2 and 5 prescribe |
| `WireForm.ReadFieldsIff` | Protocol-buffer/addressbook.pb.cc:309-353 | fields are read if and only if the whole buffer is their forms one after the other |
| `WireForm.WrittenFields` | Protocol-buffer/addressbook.pb.cc:367-395 | what is written for fields is of that form |
| `Wire.FieldsRoundTrip` | Protocol-buffer/addressbook.pb.cc:309-395 | any sequence of fields of wire types 0, 1, 2 and 5 reads back from its encoding |
| `Wire.FieldsConcat` | Protocol-buffer/addressbook.pb.cc:309-365 | the fields of two byte strings one after the other are the fields of the first, then those of the second; a broken second part breaks the whole |
| `AddressBook.SignExtendToInt32` | Protocol-buffer/addressbook.pb.cc:618-623 | the ten-byte form of a negative id, cut to 32 bits, is that id again |
| `AddressBook.ParseBookWf` | Protocol-buffer/addressbook.pb.cc:885-926 | whatever is parsed has defaults where nothing is set, valid enum values, and only really unknown fields kept as unknown, at every nesting |
| `AddressBookLaws.PhoneRoundTrip` | Protocol-buffer/addressbook.pb.cc:309-395 | parsing undoes serializing for every phone number, unset fields and unknown fields included |
| `AddressBookLaws.PersonRoundTrip` | Protocol-buffer/addressbook.pb.cc:598-723 | the same for every person, negative ids included |
| `AddressBookLaws.BookRoundTrip` | Protocol-buffer/addressbook.pb.cc:885-948 | the same for every address book |
| `AddressBookLaws.RoundTripIff` | Protocol-buffer/addressbook.pb.cc:885-948 | the messages that survive the trip are exactly those that parsing can produce |
| `AddressBookLaws.ReparseIsStable` | Protocol-buffer/addressbook.pb.cc:885-948 | every byte string that parses, written again within the size limit, reads as the same message |
| `AddressBookGrowth.RewritingAtMostDoubles` | Protocol-buffer/addressbook.pb.cc:598-723 | writing what was read takes at most twice the bytes, at every nesting, non-minimal varints and five-byte negative numbers included |
| `AddressBookGrowth.ParseSerializeParse` | Protocol-buffer/addressbook.pb.cc:885-948 | so parse, serialize, parse gives what parse gave, for every input below 1 GiB |
| `AddressBookLaws.ParseIntoIsMerge` | Protocol-buffer/addressbook.pb.cc:975-985 | parsing into a book that holds something is parsing afresh and merging |
| `AddressBookLaws.ConcatIsMerge` | Protocol-buffer/addressbook.pb.cc:975-985 | two encodings one after the other are an encoding of the merged book |
| `AddressBookLaws.ConcatIsMergePerson` | Protocol-buffer/addressbook.pb.cc:771-794 | the same for persons: what is set in the second part wins, phones and unknown fields append |
| `AddressBookLaws.ConcatIsMergePhone` | Protocol-buffer/addressbook.pb.cc:430-449 | the same for phone numbers, enum values out of range included |
| `AddressBookFields.PhoneFieldByField` | Protocol-buffer/addressbook.pb.cc:309-353 | for all fields: number and type come from the last field that holds one, and stay as they were if none does; all others are kept in order |
| `AddressBookFields.PersonFieldByField` | Protocol-buffer/addressbook.pb.cc:598-665 | the same for name, id and email of a person |
| `AddressBookFields.PersonPartsInOrder` | Protocol-buffer/addressbook.pb.cc:642-665 | every phone field is parsed into a new empty phone, in order, after the phones that are there; unknown fields are kept in order |
| `AddressBookFields.BookPartsInOrder` | Protocol-buffer/addressbook.pb.cc:885-914 | the same for the people of a book |
| `AddressBookFields.PhoneParsedIff` | Protocol-buffer/addressbook.pb.cc:309-365 | an input is accepted if and only if it is the form of some fields, and becomes what those make of the message |
| `AddressBookFields.PersonParsedIff` | Protocol-buffer/addressbook.pb.cc:598-677 | the same for a person, where every phone field must hold such a form in turn |
| `AddressBookFields.BookParsedIff` | Protocol-buffer/addressbook.pb.cc:885-926 | the same for a book, at both nestings |
| `AddressBookFields.LastOfIs` | Protocol-buffer/addressbook.pb.cc:316-347 | the field that counts is the one after which there is no other of its kind |
| `AddressBookFields.PhoneBytes` | Protocol-buffer/addressbook.pb.cc:367-395 | the bytes written: 10, length and number if set; 16 and the type if set; the unknown fields |
| `AddressBookFields.PersonBytes` | Protocol-buffer/addressbook.pb.cc:679-723 | the bytes written: name after 10, id after 16, negative ones plus 2^64, email after 26, each phone after 34 and its length, the unknown fields |
| `AddressBookFields.BookBytes` | Protocol-buffer/addressbook.pb.cc:928-948 | the bytes written: each person after 10 and its length, the unknown fields |
| `AddressBookLaws.PhoneSizeIsLength` | Protocol-buffer/addressbook.pb.cc:397-421 | the size pass computes the length of what the serializer writes |
| `AddressBookLaws.PersonSizeIsLength` | Protocol-buffer/addressbook.pb.cc:725-762 | the same for persons with their phones |
| `AddressBookLaws.BookSizeIsLength` | Protocol-buffer/addressbook.pb.cc:950-966 | the same for the book with its people |
| `PhoneMessage.PhoneMsg.Clear` | Protocol-buffer/addressbook.pb.cc:292-307 | resetting only what is set gives the empty message |
| `PhoneMessage.PhoneMsg.SetNumber` | Protocol-buffer/addressbook.pb.h:732-738 | sets field and has-bit, keeps the rest and the well-formedness the round trip needs |
| `PhoneMessage.PhoneMsg.ClearNumber` | Protocol-buffer/addressbook.pb.h:724-727 | unset means the default value again |
| `PhoneMessage.PhoneMsg.SetType` | Protocol-buffer/addressbook.pb.h:797-808 | sets type and has-bit for the values the enum has |
| `PhoneMessage.PhoneMsg.ClearType` | Protocol-buffer/addressbook.pb.h:789-792 | back to HOME |
| `PhoneMessage.PhoneMsg.InternalParse` | Protocol-buffer/addressbook.pb.cc:309-365 | the parser loop accepts exactly what the field-by-field meaning accepts and ends with that message |
| `PhoneMessage.PhoneMsg.ParseField` | Protocol-buffer/addressbook.pb.cc:316-347 | each branch of the tag switch does what its field means; enum values out of range are kept as unknown |
| `PhoneMessage.PhoneMsg.InternalSerialize` | Protocol-buffer/addressbook.pb.cc:367-395 | writes the set fields in order, then the unknown ones |
| `PhoneMessage.PhoneMsg.ByteSizeLong` | Protocol-buffer/addressbook.pb.cc:397-421 | computes the size and leaves it cached |
| `PhoneMessage.PhoneMsg.MergeFrom` | Protocol-buffer/addressbook.pb.cc:430-449 | is the merge of the two values: what the other has set replaces what is there, the rest stays, unknown fields append |
| `PhoneMessage.PhoneMsg.CopyFrom` | Protocol-buffer/addressbook.pb.cc:451-456 | clear and merge make an equal message, also from itself |
| `PersonMessage.PersonMsg.Clear` | Protocol-buffer/addressbook.pb.cc:577-596 | gives the empty message |
| `PersonMessage.PersonMsg.SetName` | Protocol-buffer/addressbook.pb.h:827-833 | sets field and has-bit, keeps the rest and well-formedness |
| `PersonMessage.PersonMsg.ClearName` | Protocol-buffer/addressbook.pb.h:819-822 | unset means the default value again |
| `PersonMessage.PersonMsg.SetId` | Protocol-buffer/addressbook.pb.h:892-902 | sets field and has-bit for every 32-bit id |
| `PersonMessage.PersonMsg.ClearId` | Protocol-buffer/addressbook.pb.h:884-887 | unset means zero again |
| `PersonMessage.PersonMsg.SetEmail` | Protocol-buffer/addressbook.pb.h:917-923 | sets field and has-bit, keeps the rest and well-formedness |
| `PersonMessage.PersonMsg.ClearEmail` | Protocol-buffer/addressbook.pb.h:909-912 | unset means the default value again |
| `PersonMessage.PersonMsg.AddPhones` | Protocol-buffer/addressbook.pb.h:995-1002 | a new empty phone, part of the person, at the end of the list |
| `PersonMessage.PersonMsg.ClearPhones` | Protocol-buffer/addressbook.pb.h:976-978 | no phones, the rest as before |
| `PersonMessage.PersonMsg.InternalParse` | Protocol-buffer/addressbook.pb.cc:598-677 | the parser, with the has-bit of the id kept in a local until the end, accepts exactly what the field-by-field meaning accepts and ends with that person |
| `PersonMessage.PersonMsg.ParsePhones` | Protocol-buffer/addressbook.pb.cc:642-654 | the tight loop over consecutive phones accepts exactly, and does exactly, what going back to the tag switch would |
| `PersonMessage.PersonMsg.ByteSizeLong` | Protocol-buffer/addressbook.pb.cc:725-762 | computes the size and leaves the size of every phone cached in it |
| `PersonMessage.PersonMsg.InternalSerialize` | Protocol-buffer/addressbook.pb.cc:679-723 | with the cached sizes as length prefixes it writes the encoding of the person |
| `PersonMessage.PersonMsg.MergeFrom` | Protocol-buffer/addressbook.pb.cc:771-794 | is the merge of the two values: what the other has set replaces what is there, phones are copied and appended, unknown fields append |
| `PersonMessage.PersonMsg.CopyFrom` | Protocol-buffer/addressbook.pb.cc:796-801 | makes an equal message, also from itself |
| `BookMessage.AddressBookMsg.Clear` | Protocol-buffer/addressbook.pb.cc:875-883 | gives the empty message |
| `BookMessage.AddressBookMsg.AddPeople` | Protocol-buffer/addressbook.pb.h:1047-1054 | a new empty person, part of the book, at the end of the list |
| `BookMessage.AddressBookMsg.InternalParse` | Protocol-buffer/addressbook.pb.cc:885-926 | accepts exactly what the field-by-field meaning accepts and ends with that book |
| `BookMessage.AddressBookMsg.ParsePeople` | Protocol-buffer/addressbook.pb.cc:891-904 | the tight loop over people does what going back to the tag switch would |
| `BookMessage.AddressBookMsg.ByteSizeLong` | Protocol-buffer/addressbook.pb.cc:950-966 | computes the size and leaves every size at every nesting cached |
| `BookMessage.AddressBookMsg.InternalSerialize` | Protocol-buffer/addressbook.pb.cc:928-948 | with the cached sizes as length prefixes at every nesting it writes the encoding of the book |
| `BookMessage.AddressBookMsg.SerializeToString` | Protocol-buffer/addressbook.pb.cc:928-966 | the number of bytes announced is the number written, and the message is not changed |
| `BookMessage.AddressBookMsg.MergeFrom` | Protocol-buffer/addressbook.pb.cc:975-985 | is the merge of the two values, people copied with their phones |
| `BookMessage.AddressBookMsg.CopyFrom` | Protocol-buffer/addressbook.pb.cc:987-992 | makes an equal message, also from itself |
| `BookMessage.ThroughTheWire` | Protocol-buffer/addressbook.pb.cc:885-966 | a book that is sized, written and parsed by another process arrives as the same value |
| `RwLatch.StepKeepsInv` | ReaderWriter-lock/rwlatch.h:38-84 | every step, spurious wakeups included, keeps mutex ownership, both fields equal to what the threads are doing, exclusion, and the causes writers wait for |
| `RwLatch.RunKeepsInv` | ReaderWriter-lock/rwlatch.h:38-84 | so does every run |
| `RwLatchProgress.MutualExclusion` | ReaderWriter-lock/rwlatch.h:38-84 | at most one thread is past writer entry, a writer excludes every reader, the count is the number of readers, never above MAX_READERS and positive when decremented |
| `RwLatchProgress.NoLostWakeup` | ReaderWriter-lock/rwlatch.h:52-84 | with at most MAX_READERS + 1 threads, whenever the mutex is free every sleeper has a cause to sleep |
| `RwLatchProgress.LostWakeup` | ReaderWriter-lock/rwlatch.h:61-84 | for any larger number of threads there is a run after which a reader sleeps though there is room and no writer |
| `RwLatchProgress.NoLostWakeupIff` | ReaderWriter-lock/rwlatch.h:61-84 | no run loses a wakeup if and only if there are at most 2^32 threads, one more than MAX_READERS |
| `RwLatchProgress.NoDeadlock` | ReaderWriter-lock/rwlatch.h:38-84 | while any thread is inside a call or holds the latch, some call can go on or some holder can unlock, without a spurious wakeup |
| `RwLatchProgress.DrainingEnds` | ReaderWriter-lock/rwlatch.h:38-84 | without new calls every schedule is over after a number of steps known beforehand |
| `RwLatchProgress.EverybodyIsServed` | ReaderWriter-lock/rwlatch.h:38-84 | and when it is over every call has returned and every holder has unlocked, with at most MAX_READERS + 1 threads |
| `RwLatchProgress.EverybodyIsServedIff` | ReaderWriter-lock/rwlatch.h:61-84 | it is never over with a thread still waiting if and only if there are at most 2^32 threads; otherwise a reader can be left asleep with every other thread idle |
| `RwLatchProgress.CountOnlyFalls` | ReaderWriter-lock/rwlatch.h:43-46 | once a writer has entered the reader count falls by one for each RUnlock and never rises |
| `RwLatchCalls.WriterIsAlone` | ReaderWriter-lock/rwlatch.h:38-47 | in every run, a thread whose last call was WLock has, once it has returned, entered as writer, with no reader counted and no other thread holding the latch |
| `RwLatchCalls.ReadersShare` | ReaderWriter-lock/rwlatch.h:61-67 | in every run, a thread whose last call was RLock has never entered as writer; once it has returned it is counted, and every other holder came by RLock too |
| `RwLatchCalls.UnlockedHoldsNothing` | ReaderWriter-lock/rwlatch.h:52-84 | a thread whose last call was an unlock holds nothing |
| `RwLatchCalls.WriteAttempt` | ReaderWriter-lock/rwlatch.h:38-47 | WLock with no writer inside: on a free latch it returns as its writer, with readers inside it has entered and sleeps until they leave |
| `RwLatchCalls.EnteredMakesWait` | ReaderWriter-lock/rwlatch.h:40-65 | with a writer inside, WLock and RLock both sleep on reader_ and change nothing |
| `RwLatchProgress.ReadAttempt` | ReaderWriter-lock/rwlatch.h:61-67 | RLock with no writer inside: one reader more, or asleep at MAX_READERS |
| `RwLatchCalls.SecondAttempt` | ReaderWriter-lock/rwlatch.h:40-67 | whoever was woken on reader_ and finds the latch free gets it, readers as readers and writers as writers |
| `RwLatchCalls.WriteExit` | ReaderWriter-lock/rwlatch.h:52-56 | after WUnlock nobody has entered and everybody who slept on reader_ is awake, nobody else |
| `RwLatchProgress.ReadExit` | ReaderWriter-lock/rwlatch.h:72-84 | after RUnlock one reader less, and at most the one sleeper awake that was notified |
| `RwLatchCalls.LastReaderLeaves` | ReaderWriter-lock/rwlatch.h:44-78 | the last reader's RUnlock can wake the writer that drains, which then has the latch |
| `RwLatchCalls.WhoIsWoken` | ReaderWriter-lock/rwlatch.h:75-83 | RUnlock wakes a draining writer when no reader is left, or one sleeper on reader_ when the count leaves 2^32 - 1, and otherwise nobody |
| `RwLatchCalls.OnlyTheWriterIsWoken` | ReaderWriter-lock/rwlatch.h:75-78 | in that state notify_one wakes that writer and nothing else |
| `RwLatchObject.ReaderWriterLatch.constructor` | ReaderWriter-lock/rwlatch.h:30 | a new latch satisfies the invariant, for any number of threads |
| `RwLatchObject.ReaderWriterLatch.WLockEnter` | ReaderWriter-lock/rwlatch.h:40-43 | once around the entry loop is the machine's step |
| `RwLatchObject.ReaderWriterLatch.WLockDrain` | ReaderWriter-lock/rwlatch.h:44-46 | once around the drain loop is the machine's step |
| `RwLatchObject.ReaderWriterLatch.RLockEnter` | ReaderWriter-lock/rwlatch.h:61-67 | once around the reader's loop, with the wrapping increment, is the machine's step |
| `RwLatchObject.ReaderWriterLatch.WUnlockNotify` | ReaderWriter-lock/rwlatch.h:52-56 | waking the sleepers one by one is notify_all |
| `RwLatchObject.ReaderWriterLatch.RUnlockNotify` | ReaderWriter-lock/rwlatch.h:72-84 | wakes somebody the machine allows, and nobody only when there is nobody to wake or nothing to tell |
| `RwLatchObject.ReaderWriterLatch.Execute` | ReaderWriter-lock/rwlatch.h:38-84 | threads taking turns in any order are a run of the machine; each turn is the step its thread has to take, or none while it has to wait |
| `RwLatchObject.ReaderWriterLatch.TakeTurn` | ReaderWriter-lock/rwlatch.h:38-84 | one turn is one step of that thread: a call when idle, the unlock when it holds the latch, the mutex when that is free, the test or notification when it has it |
| `RwLatchObject.TurnIsIdleIff` | ReaderWriter-lock/rwlatch.h:38-84 | a turn passes without a step if and only if the thread sleeps and does not wake by itself, or wants the mutex while another thread has it |
| `SharedPointer.UseCountIsHolders` | Smart_ptr/shared_ptr.cpp:122-125 | what use_count reports is the number of handles on the object |
| `SharedPointer.GiveUpKeepsBalance` | Smart_ptr/shared_ptr.cpp:34-43 | giving a share up keeps every live counter equal to the number of its handles, and deletes an object only with its last handle and never twice |
| `SharedPointer.FromRaw` | Smart_ptr/shared_ptr.cpp:28-32 | the object gets one handle and a counter at one; all stays in order if and only if it has not been wrapped before; if it is wrapped, all its counters are then short of the handles on it |
| `SharedPointer.CopyConstruct` | Smart_ptr/shared_ptr.cpp:45-55 | the new handle shares the object of the old one; all stays in order if and only if the old one is not null or the memory of the new one held null |
| `SharedPointer.MoveConstruct` | Smart_ptr/shared_ptr.cpp:57-67 | the share changes hands and no counter changes; all stays in order under the same exact condition |
| `SharedPointer.Destruct` | Smart_ptr/shared_ptr.cpp:34-43 | in any state of the handles: the count falls by one, and at zero, and only then, object and counter are deleted |
| `SharedPointer.Destroy` | Smart_ptr/shared_ptr.cpp:34-43 | for a handle that is in order this is giving its share up: the deletion comes with the last share |
| `SharedPointer.CopyAssign` | Smart_ptr/shared_ptr.cpp:69-88 | the handles stay in order if and only if the source is not null or the target does not share; then the target points where the source does, otherwise it still points to its object, whose counter is one short |
| `SharedPointer.MoveAssign` | Smart_ptr/shared_ptr.cpp:90-110 | under the same exact condition the target takes the share and the source is null |
| `SharedPointer.NoBooksFit` | Smart_ptr/shared_ptr.cpp:69-110 | handles of which one has a counter that is not the number of handles on its object are described by no books at all |
| `SharedPointer.ForgottenReset` | Smart_ptr/shared_ptr.cpp:69-88 | two handles, null assigned to the first, the second destroyed: object and counter are deleted and the first handle still points to the object |
| `SharedPointer.UnsetHandle` | Smart_ptr/shared_ptr.cpp:45-67 | a handle copied or moved from null where the memory held another handle's members: that one's counter is short and no books describe the handles |
| `SharedPointer.UnsetHandleDeletes` | Smart_ptr/shared_ptr.cpp:34-67 | when that handle is destroyed object and counter are deleted and the other handle still points to the object |
| `SharedPointer.WrappedTwice` | Smart_ptr/shared_ptr.cpp:28-43 | an object wrapped twice, and both handles destroyed: it is deleted twice |
| `SharedPointer.CopyAssignSelf` | Smart_ptr/shared_ptr.cpp:69-88 | a sole owner copied to itself loses its object; any other handle keeps everything |
| `SharedPointer.MoveAssignSelf` | Smart_ptr/shared_ptr.cpp:90-110 | a handle moved to itself gives its share up, the others keep theirs |
| `SharedPointerRuns.Perform` | Smart_ptr/shared_ptr.cpp:28-110 | each supported operation does to the handles what it does to a plain table of pointers |
| `SharedPointerRuns.CountIsSharers` | Smart_ptr/shared_ptr.cpp:122-125 | a counter is the number of table entries with that object |
| `SharedPointerRuns.DeletedIffUnheld` | Smart_ptr/shared_ptr.cpp:34-43 | an object has been deleted if and only if no table entry has it |
| `SharedPointerRuns.PerformAll` | Smart_ptr/shared_ptr.cpp:28-110 | over every program of supported operations: handles as in the table, counters as in the table, exactly the unreferenced objects deleted, each once |
| `SharedPointerRuns.DestroyAll` | Smart_ptr/shared_ptr.cpp:34-43 | when the last handle goes no counter is left and every object ever wrapped has been deleted exactly once |
| `PollArrays.SwapRemoveMultiset` | Socket-Programming/sample_src/socket_utils.h:329-334 | removal by swapping loses the removed entry and nothing else |
| `PollArrays.PotentialRises` | Socket-Programming/sample_src/socket_utils.h:334-341 | a removal saves up enough for the shrinking it may cause, which keeps the space bound |
| `PollArrays.PollArray.constructor` | Socket-Programming/sample_src/socket_utils.h:285-292 | a new array is empty, with capacity eight |
| `PollArrays.PollArray.Add` | Socket-Programming/sample_src/socket_utils.h:302-315 | appends the entry with its flag and no events, keeps both bounds, and doubles the capacity exactly when it is used up, moving the entries |
| `PollArrays.PollArray.Remove` | Socket-Programming/sample_src/socket_utils.h:324-342 | closes exactly the descriptor at the index and lets the last entry take its place, halves the capacity exactly when less than a quarter is left in use, or reports the index and changes nothing |
| `PollArrays.PollArray.Release` | Socket-Programming/sample_src/socket_utils.h:348-354 | every descriptor that is left is closed exactly once |
| `PollArrays.PerformAll` | Socket-Programming/sample_src/socket_utils.h:285-342 | over every run: the expected entries, a power-of-two capacity of at least two and at most max(8, 4 * count), and at most 2 * operations + 4 entries moved |

## Left out

Queue

- SpscRing.StepKeepsInv: weak memory is modelled as index loads that may be old; that a slot's bytes are visible once the index that publishes them is seen is what release and acquire ordering guarantee, and is taken from there. The client flag is loaded fresh.
- SpscQueue.SpscShared.Create: `shm_open`, `mmap`, `ftruncate`, `shm_unlink`, the wait for initialisation and the version test are left out (a reader that fails them is refused like any other); `element_size * element_capacity` is taken not to overflow, and a writer that crashes and creates the region anew is not modelled.
- SpscQueue.SpscShared.AttachReader: a second reader that attaches while one is there is not modelled, because the queue is for one consumer; the code does not refuse it. A reader may pass a smaller element size than the queue's; the destination of a dequeue must still hold a whole element of the queue's size.
- SpscUncached.CachedRingRefinesUncached: the day4 indices are signed 64-bit numbers, so the refinement is stated for fewer than 2^63 elements, and without detaching, which day4 and day5 do not have.
- The day3 ring differs from day4 in `fetch_add(1)` for a store of the index plus one; with one producer and one consumer these are the same step. day1 and day2 are earlier sketches.
- Moving of `SpscHeader` members, thread pinning, sleeping and benchmark timing.

Skip list

- SkipListStore.SkipList.SkipInsert: not for a new key while the maximum height is zero, because `rand() % max_height_` has no meaning then.
- SkipListStore.SkipList.SkipRemove: `curr_size_` is not decremented, as in the code, so nothing is claimed of `GetSize` after a removal.
- Keys and values are integers; the template parameters are not modelled.
- The mutex makes inserts and removals atomic and is left out with them; a search that runs beside them without the mutex is not modelled.

Address book

- Groups (wire types 3 and 4), UTF-8 checks, the recursion limit, arenas, descriptors, reflection and `InternalSwap`; a group makes the modelled parse fail.
- PersonMessage.PersonMsg.InternalParse: what a message holds after a failed parse is not stated.
- AddressBookLaws.BookRoundTrip: for encodings up to 2^31 - 1 bytes, above which the library refuses to write; the same for phone numbers and persons.
- The library's varint length is modelled as the number of seven-bit groups; its closed formula is not part of this model.
- `mutable_*` accessors that hand out a string, `release_*` and `set_allocated_*`; nested messages are mutable through the objects that `AddPhones` and `AddPeople` return.

Latch

- The destructor, which only takes the mutex; fairness of the mutex and of `notify_one`. EverybodyIsServed needs none.

Shared pointer

- SharedPointerRuns.PerformAll: programs in which a handle is made from a null one, a raw pointer is wrapped twice, or null is assigned to a handle that shares are not in order afterwards, by the exact conditions above, and are followed only in SharedPointer.ForgottenReset, SharedPointer.UnsetHandleDeletes and SharedPointer.WrappedTwice.
- `unique_ptr`, dereferencing and the conversion to `bool`.

Poll array

- PollArrays.PollArray.Remove: an index out of bounds ends the program there; here it is an outcome that changes nothing.
- Failure of `malloc` and `realloc`, `close` as a system call, and the rest of `socket_utils.h`.

Not modelled at all: the tutorials and notes, the socket samples, the build files, and the small arithmetic, printing and shape examples.
