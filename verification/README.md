# Verified models of a coroutine web server

Machine-checked models of the parts of the server that hold state, run loops or interleave threads, and proofs
of what those parts promise. Each part has the form of its source: classes over linked blocks, nodes, buffers,
timers and slots where the source updates objects, functions and lemmas for what they stand for, and step
machines where threads interleave. `dafny verify dfyconfig.toml` checks everything.

## The parts

**The chunked buffer** (`FlatBuffer`, `ByteArray`). A chain of equal blocks with a read and a write cursor stands
for one flat byte sequence with two positions. `ByteArray.Perform` says that each operation on the chain is a step
of the flat buffer, and `PerformAll` that a list of them is a run of it; `RunIsFifo`, `RunStaysTight` and
`WritesSurviveIff` are about every run.

**The codec** (`Codec`, `TypedBuffer`). Varints, zigzag, fixed big-endian words and prefixed strings.
`RoundTripIff` says exactly which values come back; `ListRoundTripsIff` says when a whole list written to a buffer
and read from it does, wherever block boundaries fall, and `RoundTrip` does so on the chain.

**The log pipeline** (`AsyncLog`, `AsyncAppender`). Producers, callers of stop and one backend over recycled
buffers. `AsyncLog` has the atomic steps and theorems over every interleaving; `AsyncAppender` has the buffers as
objects and shows that each critical section does what its step says and never holds a buffer twice.
`LeftBehindIff` says when the end of the backend leaves lines behind.

**The timers** (`Timer`, `TimerManager`, `TimerCalls`, `TimerThread`, `TimerRaces`). `Timer` has the ordered set, the
operations in 64-bit wrapping time, and expiry, generic in what names a timer, so that the same functions specify the
objects of `TimerManager`. `TimerCalls` takes each call apart into the sections between which other callers come;
`TimerThread` puts the sleeping thread beside them and says over every run what stays true, and exactly which
sections leave the thread asleep too long; `TimerRaces` has runs from the start that do.

**The scheduler** (`LFQueue`, `Processor`, `ProcessorQueues`). The linked queue run by one thread; the processor
as a step machine with queue operations as single steps; and its task selection on the linked queues. Besides
wakeups and conservation: the order of dispatch, and exactly when new tasks are taken up.

**Hazard pointers** (`Reclaimer`, `HazardList`). Many threads marking, unmarking, pushing slots and scanning slot by
slot, as a step machine; and the slot list as objects, with nothing in between.

**The poller** (`Poller`, `EpollPoller`). Channel states, the map of channels and the kernel's interest set.

**Percent-encoding and parameters** (`Url`, `Params`, `HttpRequest`). RFC 3986, sections 2.1 and 2.3, with '=' taken
as unreserved, as the table in the code has it; the parsing macro; and the lazily parsed maps of a request.

`Bytes` holds byte sequences and the arithmetic of equal blocks, `Options` the optional value.

## Where the code and what it is meant to do differ

- Growth follows the write cursor, which is null once all blocks are full, so a write that starts there follows a
  null pointer; the branch meant for that case comes after the link and is never reached (`AddCapacity`,
  `WritesSurviveIff`, `FullBlockThenByteFails`). A growth from a cursor short of the last block, possible after a
  scattering receive that filled less than was asked for, loses the blocks behind it
  (`ShortReceiveThenWriteFails`).
- A read of no bytes at the very end of the last block follows a null pointer, so an empty string written there
  does not come back (`Read`, `ListRoundTripsIff`, `EmptyStringMeetsNull`).
- The signed 32-bit writer computes the swapped word and stores the unswapped one (`FixedRoundTrip`,
  `OneComesBackSwapped`).
- A string longer than its prefix can say is written with the length cut off (`TextRoundTrip`,
  `LongTextComesBackEmpty`).
- The backend of the log may test for its end between the two steps of stop, and then leaves lines behind
  (`LeftBehindIff`, `NothingLeftBehind`, `StopRaceLosesLine`).
- New tasks are taken up only after a wake, at a fetch, or once a round, and then with no runnable task left, so that
  one task that keeps yielding keeps them out (`TakesNewIff`, `NewTasksWaitIff`, `StarvationFromStart`).
- A cancel tests its callback without the lock, and then erases what it finds without a look at whether it found
  anything: the end of the set, when the timer was fired, cancelled or taken out for a refresh in the meantime
  (`EndIsErasedIff`, `CancelInTheGapErasesEnd`, `CancelAfterExpiryErasesEnd`).
- Refreshing a timer does not wake the thread. The thread is left asleep past the refreshed timer exactly when it comes
  to the front, ahead of the end of the wait: when its new deadline wraps alone, or when the wait was fixed while the
  refresh had it out (`NextIsCoveredIff`, `RefreshAtOnceIff`, `RefreshIsLaterIff`, `WrappedRefreshIsMissed`,
  `SleepInTheGapIsMissed`).
- A timer put in tells the thread by a look at the front without the lock, and nobody tells of a timer that only comes
  to the front when the one before it is taken out too soon (`NextIsCoveredIff`, `CancelBeforeTellingIsMissed`).
- A clock that falls within its first hour counts as one that fell by more than an hour (`RolloverIff`).
- A reset to the same period, not from now, says yes of a cancelled timer (`ResetEffect`, `ResetOfCancelled`).
- TrimRight drops the last byte that it should keep (`TrimRightIff`, `TrimRightDropsLetter`).

## Model

| member | source | states |
|---|---|---|
| FlatBuffers.CeilDivUnique | spike/net/ByteArray.cpp:551-552 | The block count of a growth is the only number of blocks that covers the missing bytes with less than a block to spare. |
| FlatBuffers.WriteIs | spike/net/ByteArray.cpp:374-412 | A write goes through if and only if it is empty, fits the room left, or starts inside the last block; it then appends its bytes, and grows by whole blocks and by no more of them than it must. |
| FlatBuffers.ReceiveIs | spike/net/SocketStream.cpp:26-40 | A receive makes the room that a write of all it asks for makes, and appends what arrived. |
| FlatBuffers.ReadIs | spike/net/ByteArray.cpp:414-448 | A read is refused if and only if fewer bytes are left, follows a null pointer if and only if it starts at the very end of the last block, and otherwise hands out the next bytes. |
| FlatBuffers.ClearIs | spike/net/ByteArray.cpp:357-372 | Clearing leaves one empty block and both positions at zero. |
| FlatBuffers.TightStaysTight | spike/net/ByteArray.cpp:536-574 | A buffer of the least number of blocks, at least one, stays so through any write it can take. |
| FlatBuffers.TightWrites | spike/net/ByteArray.cpp:374-412 | Such a buffer refuses a write exactly when the write is not empty and every block is full to the last byte, which is on every positive block boundary. |
| FlatBuffers.StepIsFifo | spike/net/ByteArray.cpp:357-448 | One write, read or receive loses, duplicates and reorders no byte. |
| FlatBuffers.RunIsFifo | spike/net/ByteArray.cpp:357-448 | Over every run: what was unread and is then put in equals what the reads and the clears take out followed by what is left, byte for byte; without clears, what is taken out is what the reads return. |
| FlatBuffers.RunStaysTight | spike/net/ByteArray.cpp:536-574 | Over every run of writes, reads and clears the capacity is base times the larger of one and the ceiling of written over base. |
| FlatBuffers.AvoidsNext | spike/net/ByteArray.cpp:536-574 | The condition on a list of write sizes can be decided one write at a time. |
| FlatBuffers.WritesSurviveIff | spike/net/ByteArray.cpp:374-412 | A list of writes goes through without following a null pointer if and only if no non-empty write starts on a positive block boundary. |
| FlatBuffers.FullBlockThenByteFails | spike/net/ByteArray.cpp:554-573 | A concrete list, four bytes into a block of four and one more, follows the null write cursor. |
| FlatBuffers.ShortReceiveThenWriteFails | spike/net/ByteArray.cpp:536-574 | A concrete run, one byte received where eight were asked for and then a write of eight, loses the blocks behind the cursor and fails. |
| ByteArrays.SameMemory | spike/net/ByteArray.cpp:12-28 | What a chain holds depends on the bytes of its blocks only, not on its cursors or links. |
| ByteArrays.MemoryAround | spike/net/ByteArray.cpp:384-410 | The memory of a chain splits at any block. |
| ByteArrays.Gather | spike/net/ByteArray.cpp:421-447 | The copying loop of a read returns exactly the asked bytes of the chain and leaves the cursor in the block of the next byte, or null at the very end. |
| ByteArrays.WriteBlock | spike/net/ByteArray.cpp:392-403 | One copy into one block overwrites those bytes of the chain and no others. |
| ByteArrays.Scatter | spike/net/ByteArray.cpp:384-411 | The copying loop of a write overwrites exactly the given bytes of the chain, and runs off its end if and only if they do not fit. |
| ByteArrays.ScatterAt | spike/net/ByteArray.cpp:384-411 | The same from any block of a chain on: nothing before it changes. |
| ByteArrays.RegionsInBounds | spike/net/ByteArray.cpp:616-641 | Every region lies inside one block. |
| ByteArrays.RegionsCover | spike/net/ByteArray.cpp:616-641 | The regions of a window, read one after the other, are the bytes of the window, each once and in order. |
| ByteArrays.ListRegions | spike/net/ByteArray.cpp:621-641 | The listing loop yields exactly those regions, and runs off the chain if and only if the window does. |
| ByteArrays.Receive | spike/net/SocketStream.cpp:30-36 | Filling the regions from the front is overwriting the window from the front. |
| ByteArrays.ReceiveAt | spike/net/SocketStream.cpp:30-36 | The same from any block of the chain on. |
| ByteArrays.Walk | spike/net/ByteArray.cpp:726-751 | The cursor loop ends in the block of the byte reached, and runs off the chain if and only if it is too short. |
| ByteArrays.ByteArray.constructor | spike/net/ByteArray.cpp:30-35 | A new buffer is one empty block with both cursors at its start. |
| ByteArrays.ByteArray.Clear | spike/net/ByteArray.cpp:357-372 | Clearing leaves one empty block and both cursors at its start. |
| ByteArrays.ByteArray.AddCapacity | spike/net/ByteArray.cpp:536-574 | Growth keeps everything written and the cursors, and makes the room, when the room was there or the write cursor stands inside the last block; a null cursor is followed; a cursor short of the last block loses the blocks behind it and leaves too short a chain. |
| ByteArrays.ByteArray.Grow | spike/net/ByteArray.cpp:550-567 | The linking loop adds exactly the computed number of empty blocks behind the write cursor. |
| ByteArrays.LinkBlocks | spike/net/ByteArray.cpp:555-567 | A chain of new blocks is linked behind a block, with no block shared or repeated. |
| ByteArrays.LostBlocks | spike/net/ByteArray.cpp:541-567 | The arithmetic of a growth from a cursor short of the last block: what the new blocks give is less than the write needs. |
| ByteArrays.ByteArray.Write | spike/net/ByteArray.cpp:374-412 | A write appends exactly its bytes, if and only if it is empty, fits the room left, or starts inside the last block; otherwise it follows a null pointer. |
| ByteArrays.ByteArray.CopyIn | spike/net/ByteArray.cpp:384-411 | The copying part advances the cursor with the bytes and moves it to the next block when a block is filled exactly. |
| ByteArrays.ByteArray.Read | spike/net/ByteArray.cpp:414-448 | A read returns exactly the next unread bytes and consumes them; more than is unread is refused with nothing changed; at the very end of the last block even an empty read follows a null pointer. |
| ByteArrays.ByteArray.NullAtEnd | spike/net/ByteArray.cpp:393-396 | A cursor is null exactly at the very end of the last block. |
| ByteArrays.ByteArray.UnreadWindow | spike/net/ByteArray.cpp:421-422 | From position modulo base in the read cursor's block on, the chain holds exactly the unread bytes. |
| ByteArrays.ByteArray.ReadSize | spike/net/ByteArray.h:312 | The number of bytes that are still to be read. |
| ByteArrays.ByteArray.ToString | spike/net/ByteArray.cpp:576-586 | The text is the unread bytes, and nothing is consumed. |
| ByteArrays.ByteArray.GetReadBuffers | spike/net/ByteArray.cpp:606-643 | The regions hold the first unread bytes, at most as many as asked, and nothing changes. |
| ByteArrays.ByteArray.AddReadPosition | spike/net/ByteArray.cpp:752-777 | The read cursor moves on by any length, past what is unread too, and a null pointer is followed exactly when the cursor is null or the chain is too short. |
| ByteArrays.ByteArray.GetWriteBuffers | spike/net/ByteArray.cpp:688-724 | Room is made as a write of that many bytes makes it, and the regions are the writable bytes from the write cursor on. |
| ByteArrays.ByteArray.AddWritePosition | spike/net/ByteArray.cpp:726-751 | The write cursor moves on, or follows a null pointer exactly when it is at the end or the chain is too short. |
| ByteArrays.ByteArray.ReceiveInto | spike/net/SocketStream.cpp:26-40 | Listing, filling and advancing has the effect of writing the bytes that arrived. |
| ByteArrays.ByteArray.SendFrom | spike/net/SocketStream.cpp:51-65 | Listing, sending and advancing has the effect of reading the bytes that were taken, and those are what goes out. |
| ByteArrays.ByteArray.Perform | spike/net/ByteArray.cpp:357-448 | Each operation on the chain is the step of the flat buffer. |
| ByteArrays.ByteArray.PerformAll | spike/net/ByteArray.cpp:357-448 | A list of operations on the chain is a run of the flat buffer: it goes through if and only if that run does, with the same bytes read and left; without clears, first in is first out. |
| Codecs.VarintLength | spike/net/ByteArray.cpp:133-162 | A 32-bit varint takes one to five bytes, a 64-bit one one to ten. |
| Codecs.VarintRoundTrip | spike/net/ByteArray.cpp:262-303 | Decoding a varint that anything may follow gives the number back and consumes exactly its bytes. |
| Codecs.VarintNeedsAllBytes | spike/net/ByteArray.cpp:262-303 | A varint cut short is never taken for a whole one: the reading runs out of bytes. |
| Codecs.VarintSpells | spike/net/ByteArray.cpp:133-162 | A varint spells its number in base 128, the least significant group first, every byte but the last marked, and without a needless zero at the end. |
| Codecs.VarintIsOnly | spike/net/ByteArray.cpp:133-162 | It is the only byte string of that form for its number. |
| Codecs.DecodesSpelled | spike/net/ByteArray.cpp:262-303 | Decoding stops at the first unmarked byte or after as many bytes as the loop has turns, and gives the number that those bytes spell; bytes that end before that are too few. |
| Codecs.DecodesWord | spike/net/ByteArray.cpp:262-303 | A 64-bit varint is read from ten bytes at most and a 32-bit one from five, and what overflows the word is cut off. |
| Codecs.LowGroup | spike/net/ByteArray.cpp:265-277 | Adding a group in above the bits so far, in a word that drops what overflows, is adding what the rest of the number adds. |
| Codecs.OrAddsGroup64 | spike/net/ByteArray.cpp:289-301 | In a 64-bit word, or-ing a group in at each of the ten shifts of the loop, above the bits that are there, is adding it. |
| Codecs.OrAddsGroup32 | spike/net/ByteArray.cpp:265-277 | So it is in a 32-bit word at each of its five shifts. |
| Codecs.ZigzagRoundTrip | spike/net/ByteArray.cpp:94-126 | Zigzag decoding undoes encoding for every signed number, the minimum included. |
| Codecs.ZigzagOnto | spike/net/ByteArray.cpp:94-126 | Every unsigned word is the zigzag of the signed number it decodes to. |
| Codecs.ZigzagIs | spike/net/ByteArray.cpp:94-110 | Zigzag takes 0, -1, 1, -2, 2 and so on to 0, 1, 2, 3, 4 and so on. |
| Codecs.SignRoundTrip | spike/net/ByteArray.cpp:226-253 | Reading a word as signed gives back the signed number stored. |
| Codecs.BigEndianRoundTrip | spike/net/ByteArray.cpp:58-92 | A number that fits so many big-endian bytes is read back from them. |
| Codecs.FromBigEndianInjective | spike/net/ByteArray.cpp:221-253 | Different byte strings of one length are different numbers. |
| Codecs.FixedBytes | spike/net/ByteArray.cpp:49-92 | A fixed-width write stores exactly as many bytes as its type has. |
| Codecs.WeightsAre | spike/net/ByteArray.cpp:221-253 | What one, two, four and eight bytes stand for, the most significant first. |
| Codecs.FixedLayout | spike/net/ByteArray.cpp:49-92 | A fixed-width number is written as the bytes of its two's complement word, the most significant first, but a signed one of 32 bits with the least significant first. |
| Codecs.FixedRoundTrip | spike/net/ByteArray.cpp:49-92 | A fixed-width number comes back if and only if it is not a signed 32-bit one, or its four bytes read the same backwards, because that writer stores the unswapped word. |
| Codecs.OneComesBackSwapped | spike/net/ByteArray.cpp:70-74 | The signed 32-bit one comes back as two to the 24th. |
| Codecs.VarintValueRoundTrip | spike/net/ByteArray.cpp:128-162 | Every varint value, signed or not, comes back. |
| Codecs.PrefixRoundTrip | spike/net/ByteArray.cpp:178-200 | A length prefix reads back as the length cut to the width of the prefix. |
| Codecs.TextRoundTrip | spike/net/ByteArray.cpp:321-355 | A string comes back if and only if its length fits its prefix. |
| Codecs.TextLayout | spike/net/ByteArray.cpp:178-200 | A string is written as its length, as a fixed-width number or a varint, and then its bytes. |
| Codecs.LongTextComesBackEmpty | spike/net/ByteArray.cpp:178-182 | A string of 65536 bytes behind a 16-bit prefix comes back empty. |
| Codecs.RoundTripIff | spike/net/ByteArray.cpp:49-355 | Every typed value that anything may follow comes back, with exactly its own bytes consumed, if and only if its format keeps it. |
| Codecs.StreamRoundTrip | spike/net/ByteArray.cpp:49-355 | Any list of such values, encoded one after the other, decodes to the same list. |
| TypedBuffers.ReadItemStep | spike/net/ByteArray.cpp:207-355 | A typed read leaves a well-formed buffer of the same base. |
| TypedBuffers.VarintBytes | spike/net/ByteArray.cpp:133-162 | The loop over the small array spells the varint and never writes past its five or ten bytes. |
| TypedBuffers.WriteVarint | spike/net/ByteArray.cpp:133-162 | Writing a varint appends its encoding. |
| TypedBuffers.WriteItem | spike/net/ByteArray.cpp:49-200 | A typed write has the effect of the buffer writes of its encoding. |
| TypedBuffers.LoopTurn | spike/net/ByteArray.cpp:265-277 | A turn of the decoding loop keeps what the whole decoding will give. |
| TypedBuffers.ReadVarint | spike/net/ByteArray.cpp:262-303 | The byte-by-byte loop over the buffer gives what decoding the unread bytes gives, and consumes as many bytes. |
| TypedBuffers.ReadItem | spike/net/ByteArray.cpp:207-355 | A typed read gives the value that the unread bytes decode to and consumes its bytes, wherever block boundaries fall. |
| TypedBuffers.TextStep | spike/net/ByteArray.cpp:321-355 | Reading a string is reading its length and then that many bytes. |
| TypedBuffers.ReadText | spike/net/ByteArray.cpp:321-355 | The two reads of a string do so. |
| TypedBuffers.ReadAllBack | spike/net/ByteArray.cpp:207-355 | The formats that wrote the unread bytes read the same list of values back and leave nothing, unless the last is an empty string met by a null cursor. |
| TypedBuffers.WriteItems | spike/net/ByteArray.cpp:49-200 | Writing a list of values to the chain is the run of the buffer writes of their encodings. |
| TypedBuffers.ReadItems | spike/net/ByteArray.cpp:207-355 | Reading a list of values from the chain gives what the unread bytes decode to, one after the other. |
| TypedBuffers.ListRoundTripsIff | spike/net/ByteArray.cpp:49-355 | Writing a list of such values goes through if and only if no buffer write starts on a positive block boundary, and then the list reads back and nothing is left, unless its last value is an empty string and its encoding ends on a boundary. |
| TypedBuffers.RoundTrip | spike/net/ByteArray.cpp:49-355 | So it is on the chain: written and read back by its blocks and cursors. |
| TypedBuffers.EmptyStringMeetsNull | spike/net/ByteArray.cpp:321-355 | A concrete list, one empty string whose prefix fills the only block, is written and not read back. |
| LFQueues.LFQueue.constructor | spike/base/LFQueue.h:11 | A new queue is empty. |
| LFQueues.LFQueue.Enqueue | spike/base/LFQueue.h:24-36 | The value joins the end of the queue, in one new node. |
| LFQueues.LFQueue.Dequeue | spike/base/LFQueue.h:38-58 | The front value leaves the queue; an empty queue hands back what the caller had. |
| LFQueues.LFQueue.Concatenate | spike/base/LFQueue.h:60-84 | The first queue becomes its values followed by the second's, the second is empty, and their nodes are the nodes of both in that order. |
| LFQueues.LFQueue.Empty | spike/base/LFQueue.h:86-89 | Whether nothing is queued. |
| LFQueues.AfterNode | spike/base/LFQueue.h:24-36 | So many links from a node lead to the node so many places on, or to null. |
| LFQueues.ChainFromHead | spike/base/LFQueue.h:24-84 | Head and tail are null together; following the links from the head meets every node once, the tail last, then null: there is no cycle. |
| AsyncLogs.FixedAppend | spike/splog/LogStream.h:29-36 | A buffer never overflows. |
| AsyncLogs.SubmitKeeps | spike/splog/LogAppender.cpp:231-241 | Submitting keeps every line in place and the front sound: an empty current buffer, and a full one beside a missing spare. |
| AsyncLogs.AppendKeeps | spike/splog/LogAppender.cpp:210-229 | An append adds exactly its line at the end, whole; only a line longer than a buffer is dropped. |
| AsyncLogs.AppendPlaces | spike/splog/LogAppender.cpp:216-228 | The line goes into the current buffer if and only if that leaves room for one byte more; otherwise the current buffer is handed over as it is, and the line is alone in the next. |
| AsyncLogs.TakeLeaves | spike/splog/LogAppender.cpp:297-318 | A take leaves the front two empty buffers and gives the backend enough to refill its own. |
| AsyncLogs.StepKeeps | spike/splog/LogAppender.cpp:210-340 | Every step of every thread keeps the invariant: no assertion fails, no null buffer is followed and no empty vector is popped. |
| AsyncLogs.RunKeeps | spike/splog/LogAppender.cpp:210-340 | So does every interleaving of producers, stopping callers and the backend. |
| AsyncLogs.SinkFollowsLockOrder | spike/splog/LogAppender.cpp:264-340 | Over every interleaving the accepted lines in lock order are those of all batches taken, then of the full buffers, then of the current one; the sink and what is left of the batch in hand have the lines of every batch but the third and later buffers of one of more than 25. |
| AsyncLogs.NothingLostIff | spike/splog/LogAppender.cpp:323-330 | The written lines are all of those taken if and only if no batch of more than 25 buffers held a line past its second. |
| AsyncLogs.KeptIs | spike/splog/LogAppender.cpp:323-326 | Of more than 25 buffers exactly the first two are kept, of fewer all. |
| AsyncLogs.BuffersAreMoved | spike/splog/LogAppender.cpp:231-241 | Taking neither makes nor drops a buffer, and submitting makes one only where the spare is missing. |
| AsyncLogs.RecycleIff | spike/splog/LogAppender.cpp:332-333 | Recycling fails if and only if the batch has fewer buffers than were given away, and leaves the backend two empty ones. |
| AsyncLogs.OneBufferFills | spike/splog/LogAppender.cpp:210-228 | Over every run between two takes: while no stop submits and the lines committed leave room in one buffer, none is handed over, and all the lines are in the current one, in order. |
| AsyncLogs.OneBufferIsTaken | spike/splog/LogAppender.cpp:297-326 | The batch then taken is that buffer alone, and the overload rule takes nothing from it. |
| AsyncLogs.EachOfferOnce | spike/splog/LogAppender.cpp:210-228 | Over every run, the lines offered while the appender is started are those accepted, those too long for a buffer and those still on their way, each as often. |
| AsyncLogs.StopStep | spike/splog/LogAppender.cpp:264-277 | Each stop that finds the flag set clears it and then submits the current buffer, once; nothing else clears it. |
| AsyncLogs.StartedUntilChecked | spike/splog/LogAppender.cpp:264-275 | Over every run, a started appender with no stop under way stays so until a stop looks at its flag. |
| AsyncLogs.StartsStarted | spike/splog/LogAppender.cpp:264-275 | So it is from the start on. |
| AsyncLogs.FailsIff | spike/splog/LogAppender.cpp:290-332 | In any state, when a step fails an assertion, follows a null pointer or takes more from the vector than it has. |
| AsyncLogs.TestAlone | spike/splog/LogAppender.cpp:290 | With nothing in between, the loop ends if and only if the appender is stopped and no full buffer is there, whichever of the two is read first. |
| AsyncLogs.WriteAlone | spike/splog/LogAppender.cpp:328-333 | With nothing in between, the rest of a batch is written buffer by buffer, in order, and then recycled. |
| AsyncLogs.TurnAlone | spike/splog/LogAppender.cpp:290-337 | A turn of the loop with nothing in between takes and writes all there is at the front, but for what the overload rule drops, and leaves empty buffers. |
| AsyncLogs.LastRead | spike/splog/LogAppender.cpp:290 | A run that ends the loop has a last read of the vector, found empty, after which nothing is taken. |
| AsyncLogs.AcceptedGrows | spike/splog/LogAppender.cpp:210-229 | The accepted lines grow by what the run commits, in lock order. |
| AsyncLogs.NothingLeftBehind | spike/splog/LogAppender.cpp:264-340 | If the test that ends the loop begins after a stop has left its critical section and nothing is appended after that section, every accepted line was taken. |
| AsyncLogs.LeftBehindFrom | spike/splog/LogAppender.cpp:290-340 | From any state: what is left behind is what the current buffer held at that read followed by the lines put in a buffer since. |
| AsyncLogs.LeftBehindIff | spike/splog/LogAppender.cpp:290-340 | Once the backend has ended, every accepted line was taken if and only if the current buffer was empty at the last read of the vector and no line that a buffer can hold was committed after it. |
| AsyncLogs.StopRaceLosesLine | spike/splog/LogAppender.cpp:264-290 | A concrete interleaving, the test between the two steps of stop, in which a line accepted before the stop is never written. |
| AsyncAppenders.FixedBuffer.Append | spike/splog/LogStream.h:29-36 | The array gets the whole line or none of it. |
| AsyncAppenders.FixedBuffer.Reset | spike/splog/LogStream.h:53 | A reset buffer is empty. |
| AsyncAppenders.WrittenSoFar | spike/splog/LogAppender.cpp:329-330 | Each buffer written adds its bytes behind those written before. |
| AsyncAppenders.SoundSwap | spike/splog/LogAppender.cpp:231-318 | Moving references about keeps the buffers distinct. |
| AsyncAppenders.TakeSwaps | spike/splog/LogAppender.cpp:305-311 | So does the swap of the vectors. |
| AsyncAppenders.DoubleBuffer.Reset | spike/splog/LogAppender.h:347-364 | Two empty buffers come back, a missing one from the end of the vector; no buffer is referred to twice. |
| AsyncAppenders.AsyncAppender.constructor | spike/splog/LogAppender.h:334-340 | The front and the backend start with two empty buffers each, all distinct. |
| AsyncAppenders.AsyncAppender.SubmitBuffer | spike/splog/LogAppender.cpp:231-241 | The objects move as the submit step says, and no buffer is held twice. |
| AsyncAppenders.AsyncAppender.AppendLocked | spike/splog/LogAppender.cpp:216-228 | The critical section of a producer does what the append step says, and no other buffer changes. |
| AsyncAppenders.AsyncAppender.TakeLocked | spike/splog/LogAppender.cpp:304-317 | The critical section of the backend does what the take step says: references move and stay distinct. |
| AsyncAppenders.AsyncAppender.CutBatch | spike/splog/LogAppender.cpp:323-326 | The overload rule keeps the first two of more than 25 buffers. |
| AsyncAppenders.AsyncAppender.WriteBatch | spike/splog/LogAppender.cpp:328-330 | What is handed to the output is the bytes of the lines of the batch, in order. |
| AsyncAppenders.AsyncAppender.RecycleBuffers | spike/splog/LogAppender.cpp:332-333 | Recycling does what the recycle step says, and touches no buffer of the front. |
| Timers.BeforeIsTotalOrder | spike/coroutine/Timer.cpp:33-44 | The comparator is a strict total order with null last. |
| Timers.WrapIsModulo | spike/coroutine/Timer.cpp:10 | The wrapping used for times is arithmetic modulo two to the 64th. |
| Timers.LowerBound | spike/coroutine/Timer.cpp:207 | The bound separates the keys before the given one from the rest. |
| Timers.FindIs | spike/coroutine/Timer.cpp:112 | Looking up a key that is in the set finds it where it is. |
| Timers.CutIsDue | spike/coroutine/Timer.cpp:205-211 | Bound and scan together cut off exactly the timers due by now, whatever the address of the probe. |
| Timers.StartIsKept | spike/coroutine/Timer.cpp:132-169 | Through wrap-around, a timer remembers the time it counts from; a reset not from now keeps it. |
| Timers.FindKnown | spike/coroutine/Timer.cpp:112-127 | A timer in the set is found at its own place, the only one it has. |
| Timers.EraseKeeps | spike/coroutine/Timer.cpp:113 | Erasing takes out that timer only and keeps the order. |
| Timers.SetKeeps | spike/coroutine/Timer.cpp:132 | A timer outside the set can change without the set noticing. |
| Timers.InsertKeeps | spike/coroutine/Timer.cpp:242 | Inserting puts the timer before the first later key and keeps the order strict. |
| Timers.ReinsertKeeps | spike/coroutine/Timer.cpp:117-172 | A timer taken out, changed and put back keeps the set ordered and its members the same. |
| Timers.CancelEffect | spike/coroutine/Timer.cpp:104-115 | With no other call in its sections, cancelling says yes exactly to a timer with a callback, takes it out of the set, and does not erase the end. |
| Timers.RefreshEffect | spike/coroutine/Timer.cpp:117-138 | With no other call in between, refreshing says yes exactly to a timer with a callback, and changes its deadline only. |
| Timers.RefreshTimes | spike/coroutine/Timer.cpp:132 | A refreshed timer keeps its period and is due one period from now. |
| Timers.ResetEffect | spike/coroutine/Timer.cpp:140-172 | With no other call in between, resetting says yes to a timer with a callback, and, for the same period not from now, to any; it changes period and deadline only, and is said to be at the front exactly where it was put there. |
| Timers.ResetTimes | spike/coroutine/Timer.cpp:159-169 | A reset timer has the new period and is due at the end of it, counted from now or from where it counted before; all else is as it was. |
| Timers.ResetOfCancelled | spike/coroutine/Timer.cpp:142-145 | A concrete timer without a callback, out of the set, that a reset says yes of. |
| Timers.AddEffect | spike/coroutine/Timer.cpp:59-64 | Adding puts the new timer into the set; the set goes on to have only timers with a callback if and only if the new one has one, and it is said to be at the front exactly where it is. |
| Timers.AddTimes | spike/coroutine/Timer.cpp:7-11 | A new timer has the period, the kind and the callback it was made with, and is due one period from then. |
| Timers.FireOneKeeps | spike/coroutine/Timer.cpp:220-234 | Firing one timer puts a recurring one back and changes no other. |
| Timers.FireEffect | spike/coroutine/Timer.cpp:220-234 | Firing several changes those only, and puts back exactly the recurring ones. |
| Timers.RolloverIff | spike/coroutine/Timer.cpp:264-273 | The check takes the clock to have fallen if and only if it did, by more than an hour or from a time within the first hour. |
| Timers.ExpireEffect | spike/coroutine/Timer.cpp:188-235 | An expiry check returns the callbacks of exactly the timers due, earliest first, or of all after such a fall of the clock; it puts back the recurring ones one period from now, takes the callback of the others, and leaves every other timer alone. |
| Timers.ExpireTimes | spike/coroutine/Timer.cpp:217-234 | A recurring timer that was taken keeps its period and is due again one period from the check; another has lost its callback and is out of the set. |
| TimerCalls.FindsExactly | spike/coroutine/Timer.cpp:110-127 | Whatever other callers do, a timer in a caller's hands is found in the set if and only if it is there. |
| TimerCalls.EndIsErasedIff | spike/coroutine/Timer.cpp:104-115 | A section erases the end of the set if and only if it is that of a cancel whose timer has left the set since the unlocked test of its callback. |
| TimerCalls.NotFoundEnds | spike/coroutine/Timer.cpp:117-157 | A refresh or a reset that does not find its timer in the set ends there and changes nothing. |
| TimerCalls.MakeKeeps | spike/coroutine/Timer.cpp:59-64 | A timer made, and not yet in the set, disturbs nothing; the system goes on to have only timers with a callback if and only if it has one. |
| TimerCalls.ExpireKeeps | spike/coroutine/Timer.cpp:188-235 | An expiry check between the sections of callers keeps the invariant, and the places it erases are gone for the callers that have still to look at them. |
| TimerCalls.StepKeeps | spike/coroutine/Timer.cpp:104-250 | Every section of every call, with any other sections between, keeps the set strictly ordered, loses no timer with a callback, and has each timer out of the set in the hands of one caller. |
| TimerCalls.StartsKept | spike/coroutine/Timer.cpp:132-169 | No section makes a timer count from the future. |
| TimerCalls.RefreshAlone | spike/coroutine/Timer.cpp:117-138 | The sections of a refresh, one after another, do what the refresh does as one step. |
| TimerCalls.ResetAlone | spike/coroutine/Timer.cpp:140-172 | So do those of a reset, and the last one finds its timer at the front if and only if the one step put it there. |
| TimerCalls.CancelAlone | spike/coroutine/Timer.cpp:104-115 | So do those of a cancel. |
| TimerCalls.AddAlone | spike/coroutine/Timer.cpp:59-64 | So do those of making and adding a timer. |
| TimerCalls.EndsAtOnce | spike/coroutine/Timer.cpp:104-172 | A call on a timer without a callback changes nothing, and so does a reset to the same period, not from now. |
| TimerCalls.TellsIff | spike/coroutine/Timer.cpp:237-250 | A caller goes on to wake the thread if and only if its look at the front finds its timer there. |
| TimerThreads.ToInt | spike/coroutine/Timer.cpp:289 | The conversion of a wait to int never makes it longer. |
| TimerThreads.ToIntIs | spike/coroutine/Timer.cpp:289 | A wait below two to the 31st is converted as it is, any other by so many times two to the 32nd. |
| TimerThreads.SleepsUntilFront | spike/coroutine/Timer.cpp:81-102 | The thread sleeps until the front deadline, for a second where there is none, and not at all where it has passed. |
| TimerThreads.RefreshIsLaterIff | spike/coroutine/Timer.cpp:132 | A refresh never brings a deadline forward if and only if the new deadline does not wrap alone. |
| TimerThreads.FrontIsEarliest | spike/coroutine/Timer.cpp:90 | The first timer of the set has the earliest deadline. |
| TimerThreads.NextIsSafe | spike/coroutine/Timer.cpp:237-305 | Every event keeps the invariant of set and callers. |
| TimerThreads.RunIsSafe | spike/coroutine/Timer.cpp:104-305 | So does every run, whatever callers and thread do between each other's sections. |
| TimerThreads.RunIsExact | spike/coroutine/Timer.cpp:104-305 | In every run whose timers are made with callbacks, the timers in the set or on their way into it are exactly those that have one. |
| TimerThreads.NextIsCoveredIff | spike/coroutine/Timer.cpp:237-305 | Of all events, exactly two sections leave the thread asleep past the front deadline with nobody on the way to wake it: a refresh that puts its timer at the front, ahead of the end of the wait; and a call that takes the front out before its own caller has looked, with the next timer ahead of the end of the wait and nobody to look at that. |
| TimerThreads.ThreadIsCoveredIff | spike/coroutine/Timer.cpp:104-305 | Through a run, a thread asleep past the front deadline, but for the time between its own two readings of the clock, always has a caller on the way to wake it if and only if no event of the run is one of those two. |
| TimerThreads.FromTheStart | spike/coroutine/Timer.cpp:46-52 | Both hold of every run from a new manager on. |
| TimerThreads.RefreshAtOnceIff | spike/coroutine/Timer.cpp:117-138 | With nobody on the way, a refresh that nothing comes between leaves the thread covered if and only if its new deadline is not ahead of the end of the wait, and always when it does not wrap alone. |
| TimerRaces.SleepInTheGapIsMissed | spike/coroutine/Timer.cpp:117-138 | A concrete run from the start: the thread fixes its wait while a refresh has the only timer out of the set, and sleeps half a second past its new deadline. |
| TimerRaces.WrappedRefreshIsMissed | spike/coroutine/Timer.cpp:117-138 | A concrete run from the start, on a clock a second old: a refresh whose new deadline wraps is missed. |
| TimerRaces.CancelBeforeTellingIsMissed | spike/coroutine/Timer.cpp:237-250 | A concrete run from the start: the front is cancelled after the caller of the timer behind it has looked and before its own has, and nobody wakes the thread. |
| TimerRaces.CancelInTheGapErasesEnd | spike/coroutine/Timer.cpp:104-127 | A concrete run from the start: a cancel comes while a refresh has the timer out, and erases the end. |
| TimerRaces.CancelAfterExpiryErasesEnd | spike/coroutine/Timer.cpp:104-115 | A concrete run from the start: a cancel that has found the callback comes after the expiry check, and erases the end. |
| TimerManagers.TimerManager.Insert | spike/coroutine/Timer.cpp:237-250 | The insertion and its front test do what the entering step says. |
| TimerManagers.TimerManager.AddTimer | spike/coroutine/Timer.cpp:59-64 | The objects do what the adding step says, with a callback or without. |
| TimerManagers.TimerManager.CancelTimer | spike/coroutine/Timer.cpp:104-115 | With nothing between its sections, the objects do what the cancelling step says. |
| TimerManagers.TimerManager.TakeOut | spike/coroutine/Timer.cpp:124-130 | The first section of a refresh or reset: the timer found is erased, and no other. |
| TimerManagers.TimerManager.Reschedule | spike/coroutine/Timer.cpp:159-169 | The new times of a reset, on a timer that is out of the set. |
| TimerManagers.TimerManager.RefreshTimer | spike/coroutine/Timer.cpp:117-138 | With nothing between its sections, the objects do what the refreshing step says. |
| TimerManagers.TimerManager.ResetTimer | spike/coroutine/Timer.cpp:140-172 | With nothing between its sections, the objects do what the resetting step says. |
| TimerManagers.TimerManager.DetectClockRollover | spike/coroutine/Timer.cpp:264-273 | The check compares with the last time, an hour less with wrap-around, and keeps the new one. |
| TimerManagers.TimerManager.FindDue | spike/coroutine/Timer.cpp:206-211 | The loop finds the cut. |
| TimerManagers.TimerManager.FireAll | spike/coroutine/Timer.cpp:217-234 | The loop over the expired timers fires them one after the other and collects their callbacks. |
| TimerManagers.TimerManager.ListExpiredCallback | spike/coroutine/Timer.cpp:188-235 | The objects do what the expiry step says. |
| TimerManagers.TimerManager.GetNextExpire | spike/coroutine/Timer.cpp:81-102 | The wait is until the front deadline, nothing if that has passed, a second if there is none. |
| Processors.NextTaskControl | spike/coroutine/Processor.cpp:66-86 | Where no task is found none was runnable, and, with the rules waived, none was new. |
| Processors.StepControls | spike/coroutine/Processor.cpp:98-183 | Every step keeps the thread's place and its flags consistent. |
| Processors.RunControls | spike/coroutine/Processor.cpp:98-183 | So does every run. |
| Processors.NoLostWakeup | spike/coroutine/Processor.cpp:98-131 | Whenever the thread is asleep and unsignalled no task is runnable, a waiting new task means that an adder has still to tickle, and a cleared scheduler flag that the stopper has. |
| Processors.DispatchesIff | spike/coroutine/Processor.cpp:156-163 | A step switches to a task if and only if it is the thread's test, a task is taken out and the scheduler is not stopped. |
| Processors.StoppedIsLast | spike/coroutine/Processor.cpp:133-181 | Over every run, once stopped the processor switches to no task any more. |
| Processors.CallersAreCounted | spike/coroutine/Processor.cpp:60-64 | Over every run, each caller that has added a task, or stopped the scheduler, tickles once, and only a stop clears the flag. |
| Processors.CallersFromStart | spike/coroutine/Processor.cpp:60-64 | From the start on, the callers still to tickle are those that have added or stopped and have not tickled. |
| Processors.WakesAnswerArms | spike/coroutine/Processor.cpp:88 | Over every run a task is woken as often as it has handed out a wake, but for one still to come. |
| Processors.GarbageStep | spike/coroutine/Processor.cpp:145-177 | An ended task, and no other, goes to the garbage, which is let go where it has more than sixteen or the thread is idle. |
| Processors.GarbageIsBounded | spike/coroutine/Processor.cpp:171-177 | The garbage holds seventeen tasks at most, all of them ended. |
| Processors.EndedStays | spike/coroutine/Processor.cpp:171-177 | A task that has ended stays so. |
| Processors.AllowanceIs | spike/coroutine/Processor.cpp:66-79 | A fetch without the limit leaves the allowance of the round alone; one with it uses it where nothing is runnable. |
| Processors.RunsFirst | spike/coroutine/Processor.cpp:142-160 | With nothing in between, a thread with tasks there switches to the first of them, in a round that may take new tasks up once. |
| Processors.SleepsIff | spike/coroutine/Processor.cpp:117-131 | With nothing in between, a thread with nothing to do sleeps if and only if it was left no word, which it uses up. |
| Processors.WakesUp | spike/coroutine/Processor.cpp:149-152 | Woken, it takes the new tasks behind the runnable ones and begins again. |
| Processors.StartsAsleep | spike/coroutine/Processor.cpp:139-149 | A new processor with nothing to do goes to sleep. |
| Processors.NextTaskConserves | spike/coroutine/Processor.cpp:66-86 | Taking the next task moves queue entries and loses none. |
| Processors.StepConserves | spike/coroutine/Processor.cpp:60-86 | Every step keeps each task in its one place. |
| Processors.RunConserves | spike/coroutine/Processor.cpp:156-181 | So does every run in which each hold has its one wake, before or after the switch out. |
| Processors.TasksAreConserved | spike/coroutine/Processor.cpp:60-181 | From the start on, a task that has not ended is switched to, or once in the queues, or held with its wake to come; a wake before the hold leaves it one entry. |
| Processors.LineGrows | spike/coroutine/Processor.cpp:66-181 | The tasks switched to, then the one taken out, then the runnable ones form a line that only grows at its end. |
| Processors.RunLineGrows | spike/coroutine/Processor.cpp:66-181 | So it does over every run. |
| Processors.BoundedWaiting | spike/coroutine/Processor.cpp:66-181 | The task with k runnable ones before it is switched to right after those k, in their order, whatever happens meanwhile. |
| Processors.TakesNewIff | spike/coroutine/Processor.cpp:66-86 | A step takes the waiting new tasks up if and only if it is the thread's, after a wake, or with nothing runnable, at a fetch or where the round still allows it; no other step takes one of them away. |
| Processors.NewTasksJoinTheLine | spike/coroutine/Processor.cpp:66-86 | Taken up, the new tasks join the line behind the runnable ones, in the order they came. |
| Processors.NewTasksWaitIff | spike/coroutine/Processor.cpp:66-181 | New tasks wait through a whole run if and only if no step of it finds the thread where it takes them up. |
| Processors.YielderStarvesNewTasks | spike/coroutine/Processor.cpp:156-181 | While one task keeps yielding, none of the thread's steps is such a one: it is switched to any number of times in a row, and the new tasks wait. |
| Processors.StarvationFromStart | spike/coroutine/Processor.cpp:60-181 | A concrete run from the start: of two tasks added, the first is switched to any number of times and the second never. |
| Processors.RoundStep | spike/coroutine/Processor.cpp:66-86 | Within a round the allowance only falls, and taking the new tasks up takes one off it. |
| Processors.RoundAllowance | spike/coroutine/Processor.cpp:66-181 | Within a round the new tasks are taken up at most as often as the round was allowed. |
| Processors.OneTakePerRound | spike/coroutine/Processor.cpp:152-181 | Between one fetch and the next they are taken up once at most. |
| ProcessorQueues.Processor.TakeFirst | spike/coroutine/Processor.cpp:69 | The front runnable task becomes current, if there is one. |
| ProcessorQueues.Processor.Splice | spike/coroutine/Processor.cpp:73 | The new tasks go behind the runnable ones. |
| ProcessorQueues.Processor.GetNextTask | spike/coroutine/Processor.cpp:66-86 | On the linked queues, the next task is chosen as the step machine says. |
| ProcessorQueues.Processor.EnqueueNew | spike/coroutine/Processor.cpp:60-62 | An added task joins the end of the new queue. |
| ProcessorQueues.Processor.PlaceCurrent | spike/coroutine/Processor.cpp:164-178 | A ready task rejoins the end of the runnable queue, a held one nothing, an ended one the garbage. |
| ProcessorQueues.Processor.FinishTurn | spike/coroutine/Processor.cpp:162-180 | The rest of a turn: the task goes its way, is current no longer, and the next one is chosen as the step machine says. |
| ProcessorQueues.Processor.Tickle | spike/coroutine/Processor.cpp:98-115 | A sleeper is signalled, a worker is left word. |
| ProcessorQueues.Processor.TryIdle | spike/coroutine/Processor.cpp:117-128 | Word left before cancels the sleep and is used up. |
| Reclaimers.FreeIndex | spike/base/reclaimer.cpp:37-45 | The slot chosen is the first own one that marks nothing. |
| Reclaimers.StepKeeps | spike/base/reclaimer.cpp:3-136 | Every step of every thread keeps slots exclusive, flagged while owned, and counted. |
| Reclaimers.RunKeeps | spike/base/reclaimer.cpp:3-136 | So does every run. |
| Reclaimers.SlotsAreExclusive | spike/base/reclaimer.cpp:106-136 | In every run a slot has at most one owner, which has it once; and there is at most one slot more than counted. |
| Reclaimers.MarksPersist | spike/base/reclaimer.cpp:32-51 | A mark stays in its slot until its own thread takes it back: no mark overwrites another and no slot leaves the list. |
| Reclaimers.MarkStores | spike/base/reclaimer.cpp:37-45 | Where the thread has a slot that marks nothing, the first such slot has the pointer at once, and nothing else changes. |
| Reclaimers.StoringStores | spike/base/reclaimer.cpp:48-50 | The last step of acquiring a slot stores the pointer in it, and changes no other slot. |
| Reclaimers.FindsIdle | spike/base/reclaimer.cpp:106-121 | With nothing in between, the walk takes the first slot from the head that no thread has. |
| Reclaimers.FindsNoneIdle | spike/base/reclaimer.cpp:106-124 | Where every slot is taken, the walk ends in making a new one. |
| Reclaimers.FirstMark | spike/base/reclaimer.cpp:32-51 | From the start, the first mark goes into the slot that is there from the start. |
| Reclaimers.MarkArrives | spike/base/reclaimer.cpp:32-51 | Over every run: a mark takes its thread at most three steps more than there were slots, whatever others do, and then one of its slots has the pointer. |
| Reclaimers.UnmarkEmpties | spike/base/reclaimer.h:70-77 | Taking a mark back empties its slot and changes nothing else. |
| Reclaimers.EndReleases | spike/base/reclaimer.cpp:3-30 | An ending thread gives back all its slots and no other. |
| Reclaimers.GuardedStep | spike/base/reclaimer.cpp:62-72 | Between two steps of a scan, a marked pointer is still to be visited or has been seen. |
| Reclaimers.MarkedIsNotFreed | spike/base/reclaimer.cpp:53-104 | A pointer in a slot when a scan loads the head, and not unmarked until the scan ends, is not freed by that scan, nor by the last check of an ending thread. |
| Reclaimers.UnmarkedIsFreed | spike/base/reclaimer.cpp:53-88 | A pending pointer that no slot has at any time of a scan is freed at its end. |
| Reclaimers.ReclaimScansIff | spike/base/reclaimer.cpp:53-60 | A reclaim scans if and only if four pointers are pending for each counted slot. |
| Reclaimers.PendingIsConserved | spike/base/reclaimer.cpp:53-88 | What leaves the pending pointers in a step is exactly what is freed, and only putting off adds to them. |
| Reclaimers.NoDoubleFree | spike/base/reclaimer.cpp:53-104 | Over every run a thread frees a pointer at most as often as it was put off, and one put off and not freed is still pending. |
| Reclaimers.ScanAlone | spike/base/reclaimer.cpp:60-87 | With nothing in between, the rest of a scan keeps exactly the pending pointers that are marked or were seen. |
| Reclaimers.ReclaimAlone | spike/base/reclaimer.cpp:53-88 | With nothing in between, a reclaim over the limit frees exactly the unmarked pending pointers. |
| Reclaimers.CheckAlone | spike/base/reclaimer.cpp:17-29 | With nothing in between, the last check of a pointer frees it if and only if no slot has it. |
| Reclaimers.PendingIsBounded | spike/base/reclaimer.cpp:53-88 | After a reclaim fewer than four pointers are pending for each counted slot, or no more than one more than are counted. |
| HazardLists.HazardPointerList.Push | spike/base/reclaimer.cpp:122-134 | A new slot, taken and counted, is linked before all others. |
| HazardLists.Reclaimer.TryAcquireHazardPointer | spike/base/reclaimer.cpp:106-136 | The first slot from the head that no thread has, or else a new one, becomes this thread's; no other slot changes. |
| HazardLists.Reclaimer.FindIdle | spike/base/reclaimer.cpp:109-120 | The walk finds a slot that no thread has, if there is one. |
| HazardLists.Reclaimer.MarkHazard | spike/base/reclaimer.cpp:32-51 | The pointer goes into the first slot of this thread that marked nothing, or into one more, and every other mark stays. |
| HazardLists.Reclaimer.UnMarkHazard | spike/base/reclaimer.h:70-77 | That slot marks nothing, and every other mark stays. |
| HazardLists.Reclaimer.Hazard | spike/base/reclaimer.cpp:90-104 | The walk says whether some slot has the pointer. |
| HazardLists.Reclaimer.Seen | spike/base/reclaimer.cpp:61-72 | The walk collects exactly the marked pointers. |
| HazardLists.Reclaimer.ReclaimNoHazardPointer | spike/base/reclaimer.cpp:53-88 | With nothing in between, exactly the pending pointers that no slot has are freed, each once, and the others stay pending; below the limit nothing happens. |
| Pollers.EventsAreIndependent | spike/net/IoChannel.cpp:44-76 | Adding or cancelling one of the two events leaves the other alone, and cancelling undoes adding. |
| Pollers.AsksForBits | spike/net/Poller.cpp:144-152 | The kernel is asked for reading and for writing exactly where they are wanted. |
| Pollers.UpdatedKeeps | spike/net/Poller.cpp:25-65 | After an update the kernel asks, bit by bit and edge triggered, for what the channel wants now, or, for an existing channel that wants nothing, for nothing; nothing else changes but the channel's state. |
| Pollers.UpdateFailsIff | spike/net/Poller.cpp:25-65 | In any state, when an update fails an assertion, and when the kernel refuses it. |
| Pollers.EventsFollow | spike/net/IoChannel.cpp:44-88 | Adding an event sets its bit, cancelling takes it back, clearing takes all, and nothing else changes. |
| Pollers.OnlyUpdatesTell | spike/net/Poller.cpp:25-65 | What the kernel was told of a channel is what it wanted at its last update. |
| Pollers.AddedIsReported | spike/net/Poller.cpp:25-65 | A channel asked to read or to write and then updated is reported for it, whatever it wanted before. |
| Pollers.RemovedKeeps | spike/net/Poller.cpp:67-85 | Removing a cleared channel leaves it new and takes exactly its descriptor out of the map and the kernel. |
| Pollers.RemoveFailsIff | spike/net/Poller.cpp:67-85 | In any state, when a removal fails an assertion, and when the kernel refuses it. |
| Pollers.ClosedKeeps | spike/coroutine/Hook.cpp:380-391 | Closing clears, removes where registered, and forgets the channel; nothing refers to it and no other is touched. |
| Pollers.StepKeeps | spike/net/Poller.cpp:25-85 | Every operation passes its assertions, is accepted by the kernel, and keeps map and kernel in step with the states. |
| Pollers.RunMirrors | spike/net/Poller.cpp:25-85 | So does every sequence of operations with one live channel for each descriptor. |
| Pollers.KernelIsExactly | spike/net/Poller.cpp:144-162 | The kernel asks exactly for the existing channels, bit by bit for the events each had at its last update. |
| EpollPollers.IoChannel.AddEvent | spike/net/IoChannel.cpp:44-61 | An event not there yet is added, and the answer says so. |
| EpollPollers.IoChannel.CancelEvent | spike/net/IoChannel.cpp:63-76 | An event that is there is taken back, and the answer says so. |
| EpollPollers.IoChannel.ClearEvent | spike/net/IoChannel.cpp:78-88 | All events are taken back. |
| EpollPollers.EpollPoller.HasChannel | spike/net/Poller.cpp:15-19 | Whether the map has this very channel for its descriptor. |
| EpollPollers.EpollPoller.UpdateKernel | spike/net/Poller.cpp:144-162 | The control call asks, bit by bit, for the events of the channel, or drops its descriptor, and touches no other. |
| EpollPollers.EpollPoller.UpdateChannel | spike/net/Poller.cpp:25-65 | The objects do what the update step says, and the kernel then asks, bit by bit, for the events of the channel. |
| EpollPollers.EpollPoller.RemoveChannel | spike/net/Poller.cpp:67-85 | The objects do what the removing step says. |
| Urls.UnreservedIs | spike/base/Util.cpp:38-58 | Left as they are: the letters, the digits and the marks of the table. |
| Urls.MarksAre | spike/base/Util.cpp:63-146 | The bytes with a meaning of their own are the space, the percent sign, the plus and the separators. |
| Urls.DigitsAre | spike/base/Util.cpp:49-56 | The hexadecimal digits read are those of either case, each with its value; those written are of upper case. |
| Urls.DecodesEitherCase | spike/base/Util.cpp:120-130 | A percent sign and two digits, each of either case, is read as the byte they write. |
| Urls.EncodesUpperCase | spike/base/Util.cpp:70-93 | A byte that is not left as it is, is written as a percent sign and two digits of upper case, or a space as a plus. |
| Urls.HexRoundTrip | spike/base/Util.cpp:84-86 | Two hexadecimal digits give their byte back. |
| Urls.DecodeByte | spike/base/Util.cpp:106-146 | Decoding takes one encoded byte off the front and gives it back, but for a space written as a plus and read as it stands. |
| Urls.EncodeKeepsIff | spike/base/Util.cpp:63-104 | Encoding leaves a text as it is if and only if all its bytes are unreserved. |
| Urls.DecodeKeepsIff | spike/base/Util.cpp:106-146 | Decoding leaves a text as it is if and only if nothing in it is encoded: no percent sign with its two digits, and no plus that is to be read as a space. |
| Urls.DecodeEncodeIff | spike/base/Util.cpp:63-146 | Decoding undoes encoding if and only if no space was written as a plus to be read as a plus. |
| Urls.RoundTrip | spike/base/Util.cpp:63-146 | With the same flag for both, decoding undoes encoding for every byte string. |
| Urls.EncodedIsSafe | spike/base/Util.cpp:63-104 | Encoded text has only unreserved characters, percent signs and pluses. |
| Urls.EncodeNext | spike/base/Util.cpp:68-93 | A byte done extends what has been produced by its encoding, whether or not the copy has begun. |
| Urls.UrlEncode | spike/base/Util.cpp:63-104 | The encoding that copies only from the first changed byte on is the eager one. |
| Urls.UrlDecode | spike/base/Util.cpp:106-146 | So is the decoding. |
| Urls.TrimIs | spike/base/Util.cpp:148-157 | Trimming takes the delimiters off both ends, all of them and nothing else. |
| Urls.TrimUndoes | spike/base/Util.cpp:148-157 | Delimiters put around a text that has none at its ends are exactly what trimming takes off. |
| Urls.BlanksAre | spike/base/Util.h:18 | Blanks are the space, the tabulator, the carriage return and the line feed. |
| Urls.TrimRightIff | spike/base/Util.cpp:169-177 | TrimRight takes off the delimiters at the end, and with them the last byte that is none, if and only if there is one. |
| Urls.TrimRightDropsLetter | spike/base/Util.cpp:169-177 | A concrete text loses its only letter. |
| Params.CanonIff | spike/net/http/Http.cpp:62-65 | Keys free of NUL are the same key if and only if they are equal but for case. |
| Params.CanonStops | spike/net/http/Http.cpp:62-65 | What follows a NUL in a key counts for nothing. |
| Params.NoPairIff | spike/net/http/HttpRequest.cpp:199-204 | There is no pair if and only if there is no equals sign. |
| Params.ParseExact | spike/net/http/HttpRequest.cpp:195-214 | Where keys are not trimmed, printed pairs come back with their keys as they stand. |
| Params.ParsePadded | spike/net/http/HttpRequest.cpp:195-214 | Where keys are trimmed, printed pairs come back with the bare keys, whatever blanks are put about them. |
| Params.FirstWins | spike/net/http/HttpRequest.cpp:207-208 | Inserting keeps what was there; of new parameters with one key the first counts. |
| Params.SplitAt | spike/net/http/HttpRequest.cpp:199-208 | A round of the macro finds the same pair in the whole text as in what is left of it. |
| Params.FindPair | spike/net/http/HttpRequest.cpp:199-213 | The search takes the key up to the next equals sign and the value up to the next separator. |
| Params.ParseParam | spike/net/http/HttpRequest.cpp:195-214 | The loop over positions parses the text pair by pair. |
| Params.SplitPrinted | spike/net/http/HttpRequest.cpp:199-208 | The first pair split off a printed list is its first pair. |
| Params.ParsePrint | spike/net/http/HttpRequest.cpp:195-214 | Parsing pairs with encoded values gives all of them back, spaces written either way, for keys without an equals sign. |
| Params.LookupIsFirst | spike/net/http/HttpRequest.cpp:195-214 | A key looked up has the value of its first pair, and no other key is there. |
| HttpRequests.HttpRequest.InitQueryParam | spike/net/http/HttpRequest.cpp:188-218 | The query is parsed once. |
| HttpRequests.HttpRequest.InitBodyParam | spike/net/http/HttpRequest.cpp:220-234 | A form body is parsed once, another not at all. |
| HttpRequests.HttpRequest.InitCookies | spike/net/http/HttpRequest.cpp:236-250 | The cookies are parsed once. |
| HttpRequests.HttpRequest.HasParam | spike/net/http/HttpRequest.cpp:85-99 | A lookup sees the query and then the body, whatever was looked up before. |
| HttpRequests.HttpRequest.HasCookie | spike/net/http/HttpRequest.cpp:101-114 | A lookup sees the cookies, whatever was looked up before. |
| HttpRequests.QueryBeforeBody | spike/net/http/HttpRequest.cpp:85-99 | A key in the query keeps its first value there; one in the body only has its first value there. |
| HttpRequests.CookieIsFound | spike/net/http/HttpRequest.cpp:101-114 | A cookie is found by its bare name, in any case, with the value of the first of that name, whatever blanks come about the names in the header. |

## Left out

- The destructor of the buffer, and the freeing of blocks, nodes, log buffers and reclaim nodes in general: memory is collected.
- The state of a buffer after a null pointer has been followed: such a run ends there.
- Buffer files, and reads at a position of their own: file input and output, or a narrower meaning than the signature suggests; toString uses the positional read at the read cursor only, and is modelled so.
- The pointers a caller passes to write and read: byte sequences stand for them.
- The floating-point block count: the integer ceiling, which it equals for sizes that a double holds exactly.
- Floats and doubles in the codec: bit patterns of the unsigned formats.
- The byte order of the host: little-endian, which is what makes the unswapped 32-bit write differ.
- Memory running out, in a string sized by a decoded length or anywhere else.
- TypedBuffers.ReadItemStep: its contract states only that the buffer stays well-formed, because the value and the bytes used are stated by the lemmas about decoding.
- Concurrent use of the linked queue: its updates take several steps, and two of them interleaved do not make a queue. The scheduler takes its operations as single steps.
- LFQueues.LFQueue.Dequeue: the retry of the exchange of the head is one step, as it is with one thread.
- The sink of the log, its flushes, formatting and the logger above: the bytes handed to the output are the end of the model. Starting the appender comes before the model.
- The wakeups of the log's backend: it waits for a time as well, so that it may go on at any moment.
- A clock that falls while timers run: the runs ask for one that does not, while expiry after a fall of the clock is covered for every state.
- Timers.RefreshEffect: one call with nothing in between; what may come between its sections is in `TimerCalls`.
- Timers.ResetEffect: one call with nothing in between, likewise.
- TimerManagers.TimerManager.RefreshTimer: its sections run one after another, as in `RefreshAlone`.
- TimerManagers.TimerManager.ResetTimer: its sections run one after another, as in `ResetAlone`.
- Reads and writes of one timer by two callers at the very same moment: a section is a step, and a look at a place of the set that has been erased may see anything.
- What happens after the end of the set has been erased: such a run ends there.
- The timer thread's stop, and the running of callbacks.
- Context switches, thread creation, the choice of a processor by the scheduler, and memory orders.
- Tasks woken more or less than once for a hold: the conservation theorem is about runs in which each hold has its one wake, which is handed out while the task runs.
- The first run of a task, which marks it as executing: nothing looks at that state.
- EventLoop, whose idle and tickle read and set their flags without the lock: the wakeup theorem is about the base processor.
- HazardLists.Reclaimer.ReclaimLater: a pointer put off twice is pending once, as in the map; the second node, which the code loses, is not modelled.
- Reclaimers.UnmarkedIsFreed: says nothing of a pointer that some slot has for part of a scan, which the scan may or may not see.
- Poll, triggering of channels, the descriptor that wakes the poller, kernel calls that fail, and channels used with more than one poller.
- Characters above 127 passed to isxdigit, which the language leaves open: taken as no hexadecimal digits.
- The test for the form content type: a given yes or no.
- The generated request and response parsers, sessions, servers, sockets, addresses, system call hooks, and the configuration, formatting and rolling of logs: plumbing, or a transcription of tables.
