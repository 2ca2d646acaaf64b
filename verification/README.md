# Verification of the Wirepas Dual-MCU host library

A Dafny model of the host side of the Dual-MCU protocol, with proofs. Code that
updates state in place is modelled by classes and methods with loops, each proved
against a specification function or predicate; what the protocol is for is then
proved of those specifications, over whole runs. `dafny verify dfyconfig.toml`
checks everything.

| part | files |
|---|---|
| fragmentation and reassembly | `Tiling`, `Fragments`, `Reassembly`, `ReassemblyQueue`, `ReassemblyRuns`, `GarbageCollection`, `TimedDelivery`, `DsapFrames`, `DsapSender`, `DsapReceiver`, `EndToEnd` |
| the hash table under it | `HashLinks`, `HashBuckets`, `HashExpand`, `HashTable` |
| polling and dispatching threads | `IndicationRing`, `Pipeline` |
| serial frames | `ShiftRegister`, `CrcTable`, `Slip`, `SlipLine` (escaping as in the PROTOCOL section of RFC 1055) |
| requests and indications | `RequestEngine`, `Replies`, `PollExchange`, `IndicationPoll` |
| gateway | `Common`, `AppResults`, `ScratchpadNode`, `Scratchpad`, `Otap`, `SinkNode`, `SetConfig`, `ConfigProperties`, `ConfigOutcome`, `ConfigAgreement` |

How the pieces fit:

- **Reassembly.** The receiver decides that a packet is complete by adding up
  sizes. `Tiling.SumMeetsFullSizeIffTiles` shows by counting that, for disjoint
  pieces inside the message, this is the same as tiling it. The classes `Queue`
  and `Receiver` are proved to compute `Reassembly.Receive`; the lemmas of
  `ReassemblyRuns` and `EndToEnd` are about all sequences of arrivals and
  collections, with failing allocations and with duplicates. `TimedDelivery` puts
  such runs on the clock of `GarbageCollection`.
- **Hash table.** Handles are objects linked by `prev`/`next` and
  `hhPrev`/`hhNext` as in the macros. `Hash.Valid()` says what `HASH_FSCK` checks,
  that every item is in the bucket of its hash value, and which map the table
  stands for.
- **Threads.** `Pipeline` is a state machine of atomic steps. The poller's view
  of the read index is any value the index had since the poller last held the
  lock. The ring operations are those the class `IndicationQueue` is proved to
  perform.
- **Requests.** A call of the request engine is recorded with what it sent and
  read; `Legal` says which records are possible, and the method is proved to
  produce only such records. Properties over many calls quantify over all runs.
- **Gateway.** Node models carry a script of what is refused and of which requests
  and confirms are lost, so that a statement for every script is one for every
  pattern of failures.

Results worth knowing:

- A success of `send_request_locked` is the reply to its own request exactly when
  that reply is less than 256 requests old (`OwnReplyIffRecent`). On a FIFO channel
  this needs no assumption on ages, only that no 256 calls in a row fail
  (`OwnReply`); `OutageConfuses` is a run where 256 do and the answer is wrong.
- A download from a running node reports success without having read anything,
  because answer 1 counts as success (`ReadBlocksGiveImage`).
- A message whose new pieces come less than D+1 seconds apart is never collected
  half way, whenever the collector is called, and is delivered exactly once
  (`PromptMessageIsDelivered`). With the limit 0 it is, however long the pauses are
  (`DeliveredHoweverSlow`).
- The answer to a set-config request ignores refusals to set the autostart flag and
  lost stop requests (`OkIffNothingFailed`). An OFF request whose stop is lost is
  answered OK with the stack on (`StopGoesMissing`), and after a success that is
  the only way in which the stack is not as requested (`OverlayIsHeld`).
- Whatever is refused, lost, unread or out of range, each part of a set-config request
  is tried on its own and in its place, and changes exactly when its own write is made
  (`SettingsAfter`, `AskedInOrder`). The stack is as requested, or as before, whenever
  the stop and the start were accepted (`PowerIsAsRequested`).
- The cache of the gateway goes out of date in three ways: a change is made but its
  confirm is lost and nothing else changes (`ChannelGoesStale`), or a key flag or
  the on/off flag cannot be read after a change (`KeyFlagGoesStale`,
  `StoppedFlagGoesStale`). `AgreementSurvivesIff` says exactly when it does. What
  can be seen before the call is enough for `CacheStaysInTouch` and
  `AgreesWhicheverReadsFail`.
- A serial body comes back exactly when its frame has at least four bytes, its
  escaped form at most 255, and it has itself at most 253 (`BodyComesBackIff`):
  shorter segments are dropped, both write counters have 8 bits, and the receiver's
  also counts the CRC. The empty body and a body of 254 zeros can be sent but not
  received (`EmptyBodyIsLost`, `LongBodyIsLost`); the frame after a dropped one is
  still found (`ShortFrameIsSkipped`).
- The sender's buffer is one byte too small for the body DB C0 C0 C0
  (`BufferTooSmall`); it suffices exactly when two bytes of the body and its CRC
  need no escape, or the write counter has wrapped around (`BufferSufficesIff`).
- A reply with a damaged CRC field is an error of the confirm, for which no request is
  sent again, unless the field reads FF FF: then the node is taken to have rejected the
  request (`ReceiveReply`).
- An indication left on the wire by a poll that timed out is dropped by the next
  poll: the request engine reads past it (`PollReadsPast`).
- The offset of a fragment survives its 12-bit field exactly when it is below
  4096 (`OffsetFlagRoundTrip`); 12-bit packet ids collide exactly at multiples of
  4096 (`IdsRepeatAfter4096`).
- `slip_encode_buffer` reports an output that is too small with -6 while its caller
  tests for -1, takes the error for a size and goes on in front of its buffer;
  nothing is said of the callers' results then.

## Model

| member | source | states |
|---|---|---|
| Tiling.PositionsSize | lib/wpc/reassembly/reassembly.c:184-190 | disjoint pieces inside a message occupy exactly as many positions as their sizes add up to |
| Tiling.SumMeetsFullSizeIffTiles | lib/wpc/reassembly/reassembly.c:184-195 | for disjoint pieces inside the message, the sizes add up to the full size if and only if the pieces cover every position exactly once |
| Fragments.PiecesAreDisjoint | lib/wpc/dsap.c:222-233 | pieces of one message at different offsets never overlap and stay inside the message |
| Fragments.SizeSumDecidesCompleteness | lib/wpc/reassembly/reassembly.c:167-205 | for pieces of one message, the size test holds if and only if no piece is missing |
| Fragments.LastPieceExists | lib/wpc/dsap.c:228-232 | every message has a piece that reaches its end, the one flagged last |
| Fragments.OneLastPiece | lib/wpc/dsap.c:228-232 | and only one |
| Fragments.CopyAllRebuilds | lib/wpc/reassembly/reassembly.c:226-236 | copying all pieces into any buffer, in any list order, rebuilds the message byte for byte |
| Reassembly.AddInRange | lib/wpc/reassembly/reassembly.c:256-296 | adding a fragment that fits keeps every stored fragment and full size inside the largest packet |
| Reassembly.AddMeans | lib/wpc/reassembly/reassembly.c:256-296 | a fragment is added exactly when it is new and has memory; a holder that could be created stays filed even when it got no fragment; nothing else changes |
| Reassembly.ReachableUpdate | lib/wpc/reassembly/reassembly.c:89-108 | replacing or adding one packet changes the bytes reachable from the table by that packet only |
| ReassemblyQueue.FullPacket.Search | lib/wpc/reassembly/reassembly.c:119-120 | finds an offset if and only if a fragment is held there |
| ReassemblyQueue.FullPacket.AddFragment | lib/wpc/reassembly/reassembly.c:110-165 | succeeds exactly for a new offset with both allocations; then the fragment is in front, the full size and time updated; bytes allocated change by what the list gained, also when one of the two allocations failed |
| ReassemblyQueue.FullPacket.CheckFull | lib/wpc/reassembly/reassembly.c:167-206 | marks the packet full exactly when the size sum meets a known full size |
| ReassemblyQueue.FullPacket.Drain | lib/wpc/reassembly/reassembly.c:228-233 | empties the list, copies it in order when there is a buffer, and gives back exactly its bytes |
| ReassemblyQueue.Queue.GetOrCreate | lib/wpc/reassembly/reassembly.c:265-277 | finds the holder of the key or files a new empty one; fails exactly when absent and without memory |
| ReassemblyQueue.Queue.AddFragment | lib/wpc/reassembly/reassembly.c:256-296 | new table, flag and results are those of the specification `Add`; bytes allocated stay equal to bytes reachable |
| ReassemblyQueue.Queue.GetFullMessage | lib/wpc/reassembly/reassembly.c:298-311 | all four outcomes: absent, not full, buffer too small, and delivered with the packet removed and its memory freed; after a delivery the flag says empty if and only if no packet is left |
| ReassemblyQueue.Queue.Release | lib/wpc/reassembly/reassembly.c:226-240 | removes one packet and frees exactly its holder and fragments |
| ReassemblyQueue.Queue.Sweep | lib/wpc/reassembly/reassembly.c:321-345 | every packet is tested once, with a clock reading of this collection, and exactly the expired ones are removed |
| ReassemblyQueue.Queue.GarbageCollect | lib/wpc/reassembly/reassembly.c:313-350 | runs if and only if the limit is not 0 and the first clock reading is more than 5 s after the last run; time of the run and removed packets are as specified, and after it the flag says empty if and only if no packet is left; bytes allocated stay equal to bytes reachable |
| ReassemblyRuns.CompleteIffAllPieces | lib/wpc/reassembly/reassembly.c:167-205 | a packet under construction is found complete if and only if it holds every piece, and then its full size is the message length |
| ReassemblyRuns.NewPiece | lib/wpc/dsap.c:337-343 | a new piece delivers the whole message and removes the packet if it was the last one missing, else it is kept; other packets are unaffected |
| ReassemblyRuns.IgnoredPiece | lib/wpc/reassembly/reassembly.c:119-143 | a duplicate or an arrival without memory delivers nothing and changes no packet |
| ReassemblyRuns.FlagAfterStep | lib/wpc/reassembly/reassembly.c:242-349 | at every step of a run: after a delivery or a collection the flag says empty if and only if no packet is left, after any other arrival it does not |
| ReassemblyRuns.RunIsConsistent | lib/wpc/reassembly/reassembly.c:256-350 | on every run every packet in the table holds different pieces of its own message, not all of them, and knows its full size exactly when it holds the last piece |
| ReassemblyRuns.DeliveriesAreOriginals | lib/wpc/dsap.c:337-382 | on every run, with late duplicates, lost memory and collections anywhere, whatever is delivered is the original message of its key |
| ReassemblyRuns.EachDeliveryUsesFreshArrivals | lib/wpc/reassembly/reassembly.c:110-350 | on every run, deliveries for a key plus pieces still held never exceed the arrivals of any single piece |
| ReassemblyRuns.DeliveredWhenComplete | lib/wpc/dsap.c:327-382 | a message with memory, not collected half way and without arrivals after completion is delivered at a step if and only if its last missing piece arrives there |
| ReassemblyRuns.DeliveredExactlyOnce | lib/wpc/dsap.c:327-382 | over the whole run it is delivered exactly once if all its pieces arrived, else never |
| GarbageCollection.RunStaysFresh | lib/wpc/reassembly/reassembly.c:313-349 | on every timed run each packet was heard of less than D+1 s before the last collection |
| GarbageCollection.NoPacketStaysIdle | lib/wpc/reassembly/reassembly.c:313-349 | with the collector called at least every P ms, no packet stays for more than (D+1)*1000 + 5000 + P ms after its last fragment or, without fragments, after its holder was filed |
| GarbageCollection.RemovedWhenIdle | lib/wpc/reassembly/reassembly.c:324-344 | a collection removes a packet if and only if it is idle for (D+1)*1000 ms at the reading it is tested with |
| GarbageCollection.NoActivePacketRemoved | lib/wpc/reassembly/reassembly.c:324-344 | on every run, what a call removes was idle for (D+1)*1000 ms at the clock reading it was tested with |
| GarbageCollection.EmptyHolderGoes | lib/wpc/reassembly/reassembly.c:280-287 | a holder left empty by a failed allocation goes with the next collection |
| GarbageCollection.SwitchedOff | lib/wpc/reassembly/reassembly.c:313-317 | with the limit 0, on every timed run, a call of the collector removes nothing and leaves the time of the last run |
| GarbageCollection.RunsEveryFiveSeconds | lib/wpc/reassembly/reassembly.c:313-349 | with any other limit, on every run, a call changes the time of the last run if and only if its first clock reading is more than 5000 ms after it, and else removes nothing |
| TimedDelivery.TimedRunIsRun | lib/wpc/reassembly/reassembly.c:256-350 | a run on the clock is a run of the queue: its packets are those of the arrivals and collections it stands for |
| TimedDelivery.CollectionSpares | lib/wpc/reassembly/reassembly.c:313-350 | a collection that comes while the pieces of a message keep coming leaves its packet alone |
| TimedDelivery.PromptMessageIsDelivered | lib/wpc/dsap.c:327-382 | a message whose new pieces come less than D+1 s apart is never collected half way, whenever the collector is called, and is delivered exactly once and byte for byte |
| TimedDelivery.DeliveredHoweverSlow | lib/wpc/reassembly/reassembly.c:60-60 | with the default limit 0, a message whose pieces all come is delivered exactly once, byte for byte, however long the pauses are |
| DsapFrames.OffsetFlagRoundTrip | lib/wpc/dsap.c:117-139 | offset and last flag survive the 16-bit field if and only if the offset is below 4096 |
| DsapSender.FragmentCount | lib/wpc/dsap.c:175-183 | the computed number of fragments and last size end exactly at the end of the message |
| DsapSender.FrameIsPiece | lib/wpc/dsap.c:222-247 | every frame of a run is, to the receiver, a piece of the message |
| DsapSender.EveryPieceSentOnce | lib/wpc/dsap.c:222-247 | every piece is carried by exactly one frame |
| DsapSender.CarriesIff | lib/wpc/dsap.c:115-142 | a request carries a piece of the message if and only if it is the request sent for that piece |
| DsapSender.OnlyLastFrameIsTracked | lib/wpc/dsap.c:117-126 | only the last frame of a run may carry the tracking bit, all other option bits are kept |
| DsapSender.OptionsAreSet | lib/wpc/dsap.c:188-200 | bit 0 of the options is set exactly for a tracked request, bit 1 exactly for unacknowledged CSMA-CA, bits 2 to 5 are the low bits of the hop limit, the others 0; clearing the tracking bit changes no other |
| DsapSender.RequestsAre | lib/wpc/dsap.c:146-260 | the apdus of the requests for a message, in order, are exactly its bytes; each has the header of the call and the options asked for, the tracking bit on the last one only; within the MTU it is one unfragmented request |
| DsapSender.CodeOfLastSent | lib/wpc/dsap.c:213-270 | every request but the last one sent was accepted; the code is that of the last one, and 0 only when all were sent |
| DsapSender.FramesCarryId | lib/wpc/dsap.c:217-247 | every frame of a run carries the id of its message |
| DsapSender.IdsRepeatAfter4096 | lib/wpc/dsap.c:217-218 | the ids that two fragmented messages of one sender put in their frames are equal if and only if the messages are a multiple of 4096 apart, across the wrap of the 16-bit counter |
| DsapSender.Sender.FillTxFragRequest | lib/wpc/dsap.c:101-143 | to its receiver the request is exactly the given fragment, with its key, offset, bytes and last flag; the tracking bit is clear unless it is the last one, all other option bits are kept |
| DsapSender.Sender.SendFragments | lib/wpc/dsap.c:222-270 | sends the frames of the specification in order up to the first that is not accepted, and returns its code |
| DsapSender.Sender.DataTxRequest | lib/wpc/dsap.c:146-289 | too long: refused and nothing sent. Otherwise the requests sent have the header, options, offset and 12-bit id of the call and their apdus are, in order, a first part of the buffer: all of it when the result is 0, one request within the MTU. All before the last were accepted and the result is the code of the last. The callback is registered exactly when one was given and everything was accepted |
| DsapReceiver.Receiver.Deliver | lib/wpc/dsap.c:327-343 | new state, delivery and buffer are those of `Receive`; a packet announced as full can always be taken out |
| DsapReceiver.Receiver.OnFragment | lib/wpc/dsap.c:308-388 | delivery to the callback, followed by a collection when one is due; without a callback a complete message is lost and the collector is not called |
| EndToEnd.SentFramesMakeATrace | lib/wpc/dsap.c:146-388 | frames of senders, in any order and number, are arrivals of pieces |
| EndToEnd.AllFramesAreAllPieces | lib/wpc/dsap.c:146-388 | when every frame of a message arrived, all its pieces did |
| EndToEnd.SentMessagesAreDelivered | lib/wpc/dsap.c:146-388 | fragmented messages with different keys, frames in any order, interleaved and repeated before completion: each is delivered exactly once and byte for byte |
| HashLinks.AppAppend | lib/wpc/include/uthash.h:281-288 | appends at the end of the item list |
| HashLinks.AppRemove | lib/wpc/include/uthash.h:464-475 | unlinks an item anywhere in the list, with new head and tail |
| HashLinks.ChainPrepend | lib/wpc/include/uthash.h:772-777 | puts an item in front of a bucket's chain |
| HashLinks.ChainRemove | lib/wpc/include/uthash.h:794-802 | takes an item off a bucket's chain |
| HashBuckets.PutInBucket | lib/wpc/include/uthash.h:768-777 | all chains stay linked, counted and in the right bucket with the item added; only its own bucket changes |
| HashBuckets.TakeFromBucket | lib/wpc/include/uthash.h:790-803 | all chains stay linked, counted and in the right bucket with the item taken off |
| HashExpand.ExcessUpdate | lib/wpc/include/uthash.h:857-858 | changing one bucket changes the excess over all buckets by that bucket's alone |
| HashExpand.MoveHandle | lib/wpc/include/uthash.h:854-869 | moves one item to its new bucket and keeps the nonideal count equal to the excess over all buckets |
| HashExpand.Redistribute | lib/wpc/include/uthash.h:850-871 | every item ends in the bucket its hash value selects among twice as many, all linked and counted right, the nonideal count being the excess |
| HashTable.IdealIsCeiling | lib/wpc/include/uthash.h:847-849 | the ideal chain length is the least with which all items fit |
| HashTable.UtHashTable.ExpandBuckets | lib/wpc/include/uthash.h:834-884 | doubling keeps the table valid; nonideal items are the sum over buckets of what exceeds ceil(items/buckets); expansion is switched off after two ineffective ones |
| HashTable.UtHashTable.AddToTable | lib/wpc/include/uthash.h:340-352 | the item is filed and counted; the table is doubled if and only if its chain has reached the threshold and expansion is not switched off |
| HashTable.UtHashTable.Find | lib/wpc/include/uthash.h:746-765 | finds the item of a key, or proves that no item in the whole table has it |
| HashTable.UtHashTable.DeleteFromTable | lib/wpc/include/uthash.h:476-478 | the item is taken off its bucket and the count |
| HashTable.Hash.Find | lib/wpc/include/uthash.h:168-176 | returns exactly what the map holds for the key |
| HashTable.Hash.Add | lib/wpc/include/uthash.h:399-418 | the map gains the key, the list the item at its end; invariant kept, also for the first item and through a doubling |
| HashTable.Hash.Delete | lib/wpc/include/uthash.h:453-480 | the map loses the key, the list the item; the table goes with the last one |
| HashTable.Hash.Visit | lib/wpc/include/uthash.h:1061-1063 | one turn of the iteration: the item after the next is looked up correctly although the present one may be gone |
| HashTable.Hash.IterateAndDelete | lib/wpc/include/uthash.h:1061-1063 | iteration with deletion visits every item once, in order, and removes exactly the chosen keys |
| IndicationRing.SlotsDiffer | lib/platform/linux/platform.c:169-169 | positions fewer than 60 apart share a slot only when equal |
| IndicationRing.PushAppends | lib/platform/linux/platform.c:157-174 | a push appends to the queue the ring stands for, unless that holds 60, which is exactly the full test |
| IndicationRing.PopTakesOldest | lib/platform/linux/platform.c:137-142 | a pop takes off the oldest |
| IndicationRing.RoomIsExact | lib/platform/linux/platform.c:221-246 | the full test holds exactly with 60 queued; else the room worked out is 60 minus what is queued |
| IndicationRing.IndicationQueue.OnIndicationReceivedLocked | lib/platform/linux/platform.c:152-177 | the ring after a push, and its contents as a queue |
| IndicationRing.IndicationQueue.RemoveOldest | lib/platform/linux/platform.c:137-142 | the ring after a pop, and its contents as a queue |
| IndicationRing.IndicationQueue.DispatchOne | lib/platform/linux/platform.c:123-142 | one turn of the dispatching loop handles the oldest indication and leaves the rest in order |
| IndicationRing.IndicationQueue.Budget | lib/platform/linux/platform.c:221-258 | none exactly when all 60 slots are taken, one when stopping, else the smaller of 30 and the free slots |
| Pipeline.FreeRoomIsFree | lib/platform/linux/platform.c:221-246 | the free room worked out from any view of the read index not older than the poller's last lock is at most what is free, and positive |
| Pipeline.AsksWhenRoom | lib/platform/linux/platform.c:221-228 | on every interleaving the poller holds back only when its view leaves no room, or while the last indication is being taken off |
| Pipeline.BudgetIsExact | lib/platform/linux/platform.c:230-258 | on every interleaving what is asked for is exactly what the view leaves free, at most 30, and one when a stop is requested |
| Pipeline.NextKeepsInv | lib/platform/linux/platform.c:103-270 | every step of either thread keeps the invariant |
| Pipeline.NothingDropped | lib/platform/linux/platform.c:157-174 | on every interleaving nothing is dropped, every push finds room, and the remaining budget never exceeds the free slots |
| Pipeline.RingIsQueue | lib/platform/linux/platform.c:137-174 | on every interleaving the ring holds exactly the indications pushed and not yet taken off, in order |
| Pipeline.DispatchedInPushOrder | lib/platform/linux/platform.c:123-142 | on every interleaving what was dispatched is the first part of what was pushed, and a slot in use without the lock keeps its content |
| Pipeline.EmptyFlagIsTrue | lib/wpc/reassembly/reassembly.c:242-263 | on every interleaving the reassembly flag says empty only when no partial packet exists |
| Pipeline.CleanStop | lib/platform/linux/platform.c:194-213 | when the polling loop stops, all it queued has been dispatched and no partial packet remains |
| ShiftRegister.ShiftNIsLinear | lib/wpc/slip.c:80-81 | shifting the register is linear over exclusive or |
| ShiftRegister.RegisterIsInjective | lib/wpc/slip.c:72-84 | different registers stay different whatever message follows |
| ShiftRegister.BurstChangesCrc | lib/wpc/slip.c:72-84 | two messages of equal length that differ only within 16 consecutive bits, at any bit position, never have equal CRCs |
| ShiftRegister.TwoByteErrorChangesCrc | lib/wpc/slip.c:72-84 | nor do two that differ only inside two adjacent bytes |
| CrcTable.TableIsShift | lib/wpc/slip.c:22-51 | each of the 256 entries is its index shifted eight times through the register with polynomial 0x1021 |
| CrcTable.TableStepIsRegister | lib/wpc/slip.c:78-82 | one turn of the table loop does what eight message bits do to the register |
| CrcTable.CrcFromBuffer | lib/wpc/slip.c:72-84 | the table-driven loop computes the bit-by-bit CRC of messages of every length |
| Slip.EscapeHasNoEnd | lib/wpc/slip.c:124-147 | an escaped frame contains no END octet |
| Slip.UnescapeEscape | lib/wpc/slip.c:94-147 | unescaping undoes escaping |
| Slip.PeekMattersOnlyWhenDangling | lib/wpc/slip.c:101-105 | the byte behind a frame matters only when the frame ends in a lone ESC |
| Slip.SentIsEncodedIff | lib/wpc/slip.c:124-147 | what is sent is the encoded body if and only if its escaped form has at most 255 bytes, the range of the 8-bit write counter |
| Slip.SuffixIsShort | lib/wpc/slip.c:94-109 | what is left of an escaped message from any position on, even inside an escape, unescapes to correspondingly less |
| Slip.ComesBackIff | lib/wpc/slip.c:94-214 | encoding followed by decoding gives a body back, whatever its bytes and length, if and only if its escaped form has at most 255 bytes and it has itself at most 253 |
| Slip.LongBodyIsLost | lib/wpc/slip.c:94-109 | a body of 254 zeros is within the sender's limits and makes the receiver look outside its buffer |
| Slip.BufferSufficesIff | lib/wpc/slip.c:216-229 | the frame leaves room for the closing END in the sender's buffer if and only if two bytes of the body and its CRC need no escape, or the 8-bit counter has wrapped around |
| Slip.BufferTooSmall | lib/wpc/slip.c:216-229 | the body DB C0 C0 C0, with CRC 0xDB33, has a frame of 11 bytes, for which the buffer is one byte too small |
| Slip.DecodeRejectsBurst | lib/wpc/slip.c:149-176 | with the CRC field intact, a burst of at most 16 bits in the body is always rejected |
| Slip.DecodeRejectsTwoByteError | lib/wpc/slip.c:149-176 | and so is a change inside two adjacent bytes |
| Slip.WhatFieldsMean | lib/wpc/slip.c:155-175 | a frame is accepted if and only if its last two bytes are the CRC of the rest, low byte first; otherwise FF FF there means a request the node got damaged, anything else a damaged frame |
| Slip.KnownFrame | lib/wpc/slip.c:124-214 | known answer: the encoded form of DB C0 C0 C0, byte for byte |
| Slip.SlipDecodeBuffer | lib/wpc/slip.c:94-109 | unescapes in place; the write position never overtakes the read position; it wraps at 256, and the result and every cell of the buffer are given for that case too |
| Slip.SlipEncodeBuffer | lib/wpc/slip.c:124-147 | writes exactly the escaped bytes, wrapping at 256, if they fit or there are 256 cells; else reports -6 and has filled the output with the first of them |
| Slip.SlipEncode | lib/wpc/slip.c:178-214 | if there is room, the escaped body, as far as the counter keeps it, followed by its escaped CRC, low byte first |
| Slip.SlipDecode | lib/wpc/slip.c:149-176 | for frames of any length that leave two bytes for the CRC: the size and body if and only if the field is the CRC of the body; WRONG_CRC_FROM_HOST if and only if the field is FF FF and the CRC is not; WRONG_CRC if and only if it is any other wrong field |
| SlipLine.SlipSendBuffer | lib/wpc/slip.c:216-241 | if the frame has at most 2n+2 bytes for a body of n: puts three END octets, the frame and an END on the line, or reports the failed write; it is the encoded body if and only if the escaped body has at most 255 bytes |
| SlipLine.ShortSegmentIsInBounds | lib/wpc/slip.c:283-309 | a segment of four bytes or more always leaves two for the CRC, unless it unescapes to 256 or more |
| SlipLine.SlipGetBuffer | lib/wpc/slip.c:243-328 | result, buffer and what is left on the line for a frame, a timeout and a segment that is too long, whatever arrives; for a frame the result is a rejection, a CRC error or the size exactly as its last two bytes say |
| SlipLine.ReceiveFrame | lib/wpc/slip.c:243-328 | for a body on a noisy line with any CRC field behind it: the rejection, the CRC error or the body, each if and only if the field says so; what follows the frame is left |
| SlipLine.KnownWire | lib/wpc/slip.c:216-241 | known answer: all bytes put on the line for DB C0 C0 C0 |
| SlipLine.TakeTooLong | lib/wpc/slip.c:300-311 | a segment too long for the buffer is given up at the first byte that does not fit |
| SlipLine.TakeFrame | lib/wpc/slip.c:258-309 | after any noise that cannot be a frame (bytes up to an END, runs of END, segments shorter than four bytes) one call takes exactly the next frame of four bytes or more and leaves exactly what follows; a shorter one is passed over |
| SlipLine.TakeFindsFrame | lib/wpc/slip.c:283-309 | of the frames sent, a call takes exactly those of at least four bytes |
| SlipLine.ShortFrameIsSkipped | lib/wpc/slip.c:288-296 | a frame of fewer than four bytes is noise: what follows its last END is searched for the next frame as before |
| SlipLine.BodyComesBackIff | lib/wpc/slip.c:94-328 | sent over a noisy line and received into a buffer that can hold it, a body comes back from the next call if and only if its frame has at least four bytes, its escaped form at most 255, and it has itself at most 253 |
| SlipLine.EmptyBodyIsLost | lib/wpc/slip.c:283-309 | the empty body has the frame FF FF, which is decoded to it but never taken from the line |
| SlipLine.CallsTakeEachFrame | lib/wpc/slip.c:243-309 | repeated calls over a stream take each frame sent, one per call |
| SlipLine.FramesComeBack | lib/wpc/slip.c:216-328 | over a stream of frames of at least four bytes each call takes one, and returns exactly the body sent if and only if that has at most 253 bytes |
| SlipLine.SendAndReceive | lib/wpc/slip.c:216-328 | all bodies, sent with Slip_send_buffer over a noisy line and received with as many calls of Slip_get_buffer, come back in order |
| SlipLine.ReadErrorsAreIgnored | lib/wpc/slip.c:263-266 | failed reads anywhere in between change nothing |
| RequestEngine.Host.SendRequestLocked | lib/wpc/wpc_internal.c:135-232 | the recorded call is a legal one with the next 8-bit frame id, read what the line gave and sent identical copies |
| RequestEngine.Host.Search | lib/wpc/wpc_internal.c:149-231 | the loop ends, by (50 - attempts) + (3 - retries), with a legal record |
| RequestEngine.HowCallsEnd | lib/wpc/wpc_internal.c:158-231 | sync error if and only if 50 replies mismatched; success if and only if some reply matched, and then it is the first; at most 4 copies and 53 replies |
| RequestEngine.CodeMeans | lib/wpc/wpc_internal.c:149-231 | the code returned: -1 when a send failed, the error received last, -3 after the last mismatch, 0 with the confirm |
| Replies.ReceiveReply | lib/wpc/wpc_internal.c:158-200 | a reply on the line is taken for a rejection, and its request sent again, if and only if its CRC field is FF FF and not its CRC; for a confirm if and only if the field is its CRC |
| RequestEngine.OneResendPerRejection | lib/wpc/wpc_internal.c:164-181 | a copy is sent again exactly for each of the first three rejections; the fourth is the error returned |
| RequestEngine.FrameIdsTell | lib/wpc/wpc_internal.c:137-147 | less than 256 requests apart, frame ids are equal if and only if the requests are the same |
| RequestEngine.OwnReplyIffRecent | lib/wpc/wpc_internal.c:202-220 | a success is the reply to its own request if and only if that reply is less than 256 requests old |
| RequestEngine.OwnReply | lib/wpc/wpc_internal.c:135-232 | over any run on a FIFO channel in which no 256 calls in a row fail, every success is the reply to that very request, which the node executed |
| RequestEngine.OutageConfuses | lib/wpc/wpc_internal.c:137-147 | after any run whose last 256 calls failed, the first of them executed but unanswered, the late reply can come and the next call takes it for its own |
| RequestEngine.OutagesHappen | lib/wpc/wpc_internal.c:149-200 | there are such runs |
| RequestEngine.FirstCopiesRejected | lib/wpc/wpc_internal.c:164-178 | after j rejections, each about a different copy already sent, it is exactly the first j copies that were rejected |
| RequestEngine.AtMostOnce | lib/wpc/wpc_internal.c:146-221 | whatever is lost or corrupted, a call executes its request at most once, and not at all when it reports a corrupted request or a failed send |
| RequestEngine.ExactlyOnceOnSuccess | lib/wpc/wpc_internal.c:146-231 | a call that returns 0 executed its request exactly once and sent at most 4 copies |
| PollExchange.EndsAtFirst | lib/wpc/wpc_internal.c:149-200 | a call ends at its confirm or at the first error that is no rejection, if fewer than 50 other frames come before it |
| PollExchange.PollReadsPast | lib/wpc/wpc_internal.c:149-200 | how a poll request ends when it is not sent, does not arrive, or its confirm is lost, corrupted or received; of the indications left on the line, fewer than 50, none stays |
| IndicationPoll.HandleIndication | lib/wpc/wpc_internal.c:280-309 | one indication is read, acknowledged and handed over; else the timeout is reported, a late one stays on the line and a corrupted one is gone |
| IndicationPoll.AnswersName | lib/wpc/wpc_internal.c:300-303 | each acknowledgement has the primitive of its indication plus 0x80 and the same frame id |
| IndicationPoll.FetchingEnds | lib/wpc/wpc_internal.c:355-367 | when the loop ends no indication is left unread on the wire and every one delivered was acknowledged |
| IndicationPoll.TruthfulFetch | lib/wpc/wpc_internal.c:355-367 | from a node whose counts are true the loop goes on exactly while indications remain |
| IndicationPoll.GetIndicationLocked | lib/wpc/wpc_internal.c:323-368 | whatever an earlier poll left on the line and whatever becomes of this one: delivers the first pending indications, never more than the limit; each "more" bit says whether another receive follows; without faults exactly min(p, m), and 1 exactly when some remain; an error loses or leaves on the line at most one |
| Scratchpad.WpcUploadLocalBlockScratchpad | lib/wpc/wpc.c:967-1002 | the block loop computes the specification |
| Scratchpad.WpcUploadLocalScratchpad | lib/wpc/wpc.c:922-934 | start and blocks from address 0 |
| Scratchpad.LoadBlocksAppends | lib/wpc/wpc.c:967-1002 | for any block maximum in 1..112: success means exactly these bytes were appended; on a sound link it succeeds if and only if the node can take them; in every case the node got a first part and nothing else |
| Scratchpad.WpcDownloadLocalScratchpad | lib/wpc/wpc.c:1070-1105 | the block loop computes the specification in the caller's buffer |
| Scratchpad.ReadBlocksGiveImage | lib/wpc/wpc.c:1070-1105 | from a stopped node, success means exactly the stored bytes, and on a sound link it succeeds if and only if they exist; from a running node it reports success and leaves the buffer as it was |
| Scratchpad.DownloadErrors | lib/wpc/wpc.c:1061-1105 | the error of a download from a sound stopped node, for every start and length and however many blocks it takes |
| Scratchpad.DownloadGivesBack | lib/wpc/wpc.c:922-1105 | a scratchpad that was uploaded comes back from a download |
| Otap.Handler.HandleScratchpadChunk | lib/wpc_proto/internal_modules/proto_otap.c:41-112 | new state and result of one chunk |
| Otap.Handler.HandleUploadScratchpad | lib/wpc_proto/internal_modules/proto_otap.c:114-229 | new state and result of one request, of which the rows below state the outcome |
| Otap.StartIsOwedOnlyWhileLoading | lib/wpc_proto/internal_modules/proto_otap.c:201-224 | after every request of every run, whatever fails, a pending restart implies an upload in progress |
| Otap.PriorStateIsRestored | lib/wpc_proto/internal_modules/proto_otap.c:134-224 | if stops and starts succeed, the stack is in its prior on/off state whenever no upload is in progress, on every run and whatever else fails |
| Otap.WholeIsStored | lib/wpc_proto/internal_modules/proto_otap.c:161-183 | for every state of handler and node: when a scratchpad in one piece is answered OK the node stores exactly it; no upload is in progress after it; on a sound node it is answered OK unless it is empty |
| Otap.NoneIsStored | lib/wpc_proto/internal_modules/proto_otap.c:184-197 | when a request without a scratchpad is answered OK the node stores none; no upload is in progress after it; on a sound node it is answered OK |
| Otap.LargeSequenceNumber | lib/wpc_proto/internal_modules/proto_otap.c:120-132 | a sequence number above 255 is an invalid value and changes nothing |
| Otap.OkMeansStarted | lib/wpc_proto/internal_modules/proto_otap.c:134-224 | when a request that owes a start is answered OK, the stack was started, or an upload is in progress and the start still owed |
| Otap.LastChunkEnds | lib/wpc_proto/internal_modules/proto_otap.c:98-109 | an accepted chunk ends the upload if and only if it ends at the total it names |
| Otap.UnreadStatusStopsNothing | lib/wpc_proto/internal_modules/proto_otap.c:134-149 | a running stack whose status is not to be had is neither stopped nor owed a start |
| Otap.RunningNodeRefuses | lib/wpc_proto/internal_modules/proto_otap.c:137-148 | after a stop that failed the node refuses everything: the answer says that the stack is not stopped and what is stored stays |
| Otap.StrayChunk | lib/wpc_proto/internal_modules/proto_otap.c:83-89 | a later chunk with another sequence number is refused as such and does not disturb the upload in progress |
| Otap.MisplacedChunk | lib/wpc_proto/internal_modules/proto_otap.c:91-96 | a chunk out of place or too long is refused with the reason; what the node has got stays |
| Otap.ChunkIsAdded | lib/wpc_proto/internal_modules/proto_otap.c:41-112 | a chunk in its place that is answered OK is in the node as well, and the last one completes the scratchpad |
| Otap.ChunksRebuildScratchpad | lib/wpc_proto/internal_modules/proto_otap.c:41-229 | in-order chunks of any sizes, from any state: if every answer is OK the node holds exactly the scratchpad they make up; if nothing goes wrong every answer is OK |
| SetConfig.SinkConfig.RefreshFullStackState | lib/wpc_proto/internal_modules/proto_config.c:248-297 | reads each modelled attribute in turn, each only when the node answers |
| SetConfig.SinkConfig.SetNetworkAddress | lib/wpc_proto/internal_modules/proto_config.c:731-754 | one part of the request: skipped, out of range, refused, or written and noted |
| SetConfig.SinkConfig.SetKeys | lib/wpc_proto/internal_modules/proto_config.c:812-839 | both keys are tried, and asked for after each success |
| SetConfig.SinkConfig.SetAcRange | lib/wpc_proto/internal_modules/proto_config.c:841-868 | range check first, then comparison with the cache |
| SetConfig.SinkConfig.WriteAttributes | lib/wpc_proto/internal_modules/proto_config.c:693-868 | the parts are done in order, and equal one pass over the list of changes worked out beforehand |
| SetConfig.DoAllInTurn | lib/wpc_proto/internal_modules/proto_config.c:693-868 | writing one part never changes what a later part is compared with |
| SetConfig.SinkConfig.HandleSetConfig | lib/wpc_proto/internal_modules/proto_config.c:611-912 | a wrong sink id changes nothing; else cache, node and answer are those of the specification, of which the rows of ConfigProperties, ConfigOutcome and ConfigAgreement state the outcome |
| ConfigProperties.RefreshRestores | lib/wpc_proto/internal_modules/proto_config.c:248-297 | a refresh that can read everything makes the cache agree, whatever it held |
| ConfigProperties.ChangeRestoresAgreement | lib/wpc_proto/internal_modules/proto_config.c:891-895 | with every read but the first answered, a request that changed something ends with a cache that agrees with the node, even if it was out of date before and whatever was lost |
| ConfigProperties.CacheStaysInTouch | lib/wpc_proto/internal_modules/proto_config.c:611-912 | with every read but the first answered, for every request, whatever is refused and whichever requests are lost, a cache that agreed with the node still agrees if every change made was confirmed |
| ConfigProperties.AttributesStayEqual | lib/wpc_proto/internal_modules/proto_config.c:611-912 | whichever reads fail, the cached attributes stay those of the node if every change made was confirmed |
| ConfigAgreement.HandleTracks | lib/wpc_proto/internal_modules/proto_config.c:611-912 | through a whole request, whatever is refused, lost or unread, each key flag and the on/off flag are what the log of writes, reads, stops and starts makes them |
| ConfigAgreement.HandleKnows | lib/wpc_proto/internal_modules/proto_config.c:693-868 | and so is each attribute: the cache has it wrong exactly when the last write of it that was made was not confirmed and it was not read since |
| ConfigAgreement.AgreementSurvivesIff | lib/wpc_proto/internal_modules/proto_config.c:611-912 | for every request, whatever is refused or lost and whichever reads fail, the cache still agrees with the node if and only if no write of an attribute was overlooked, each key given to a node without one had its flag read after that, and what the handler last learnt or believed of the on/off state was right |
| ConfigAgreement.AgreesWhicheverReadsFail | lib/wpc_proto/internal_modules/proto_config.c:611-912 | a request that neither stops nor starts the stack and gives no key to a node without one leaves agreement whichever reads fail, if every change made was confirmed |
| ConfigAgreement.ChannelGoesStale | lib/wpc_proto/internal_modules/proto_config.c:755-778 | when the confirm of the only change is lost, the request fails and the cache keeps the old channel |
| ConfigAgreement.StopGoesMissing | lib/wpc/wpc.c:624-664 | when the stop request of an OFF request is lost, the request succeeds and the stack stays on |
| ConfigAgreement.KeyFlagGoesStale | lib/wpc_proto/internal_modules/proto_config.c:822-824 | when no read is answered, an accepted cipher key leaves its flag in the cache false |
| ConfigAgreement.StoppedFlagGoesStale | lib/wpc_proto/internal_modules/proto_config.c:675-691 | when a stop is accepted but no status can be read after it, the cache keeps saying the stack is on |
| ConfigProperties.OkIffNothingFailed | lib/wpc_proto/internal_modules/proto_config.c:675-908 | the answer is OK if and only if every write and start that was tried was confirmed, no stop was refused and no value was out of range |
| ConfigProperties.OverlayIsHeld | lib/wpc_proto/internal_modules/proto_config.c:634-889 | after success the node holds the requested overlay, and the stack is on exactly when that was requested or, nothing being requested, it was on, if and only if no stop request was lost |
| ConfigProperties.WrittenOnlyWhileStopped | lib/wpc_proto/internal_modules/proto_config.c:642-691 | unless a stop was refused or lost, attributes that need the stack stopped were only written while it was |
| ConfigOutcome.SwitchesAskedFor | lib/wpc_proto/internal_modules/proto_config.c:642-691 | whatever is refused or out of range: a stop is asked for if and only if the stack is on and a part needs it stopped or OFF is requested; a start if and only if it was on, a part needed the stop and OFF is not requested, or it was off and ON is; the autostart flag is cleared with every stop and set with every start that succeeded |
| ConfigOutcome.PowerIsAsRequested | lib/wpc_proto/internal_modules/proto_config.c:642-889 | when the stop and the start were accepted or not needed, the stack is on if and only if that was requested or, nothing being requested, it was on before, whatever else was refused, lost or out of range |
| ConfigOutcome.TriedIffWanted | lib/wpc_proto/internal_modules/proto_config.c:693-868 | a write is tried if and only if the request has it, it is in range and the cache does not hold it already, whatever became of the stop and of the other parts |
| ConfigOutcome.AskedInOrder | lib/wpc_proto/internal_modules/proto_config.c:675-889 | everything is asked for at most once and in its place: the stop, the role first of the parts, the start last |
| ConfigOutcome.SettingsAfter | lib/wpc_proto/internal_modules/proto_config.c:693-868 | after every request each part is the requested one if it was present, in range and its write was made, and else what it was before |
| ConfigOutcome.RequestedIsHeld | lib/wpc_proto/internal_modules/proto_config.c:693-868 | with cached attributes that were right, each part present and in range is as requested unless its own write was refused or lost; no other failure counts |
| ConfigOutcome.WhichAnswer | lib/wpc_proto/internal_modules/proto_config.c:675-908 | INVALID_VALUE is answered if and only if a value was out of range, a write failed or the stop was refused; otherwise a start that failed gives its own error |
| ConfigOutcome.AgreesAfterChange | lib/wpc_proto/internal_modules/proto_config.c:891-895 | after a request for another on/off state, or with a write accepted, the cache agrees with the node, however out of date it was |

## Left out

- Serial port settings, logging, the MQTT gateway example, thread creation and joining, and the process exit after a long link timeout.
- nanopb encoding, generated message files and request dispatch; requests are modelled as the decoded values.
- Attribute getters and setters, role conversion, error-code tables other than those of the scratchpad requests, endpoint tables, the table of sent-callbacks and time conversions.
- Contents of the set-config response and of status events, apart from the cache they are filled from.
- Process-scratchpad and target-scratchpad requests.
- Hash functions: hash values are arbitrary. The low bits of a hash value are taken by remainder, the number of buckets being a power of two. Item counts are unbounded.
- Failed allocations inside the hash table, which end the process.
- ReassemblyQueue.Queue: the table is a map here and its order of iteration open; HashTable proves that the linked table stands for such a map. Packet and fragment lists are sequences, their memory is counted by the sizes of a 64-bit host.
- Pipeline: loads and stores of the flags are taken as atomic and in program order; only the read index may be seen late. Ending the dispatching thread is not modelled.
- GarbageCollection: hosts up for 2^32 seconds or longer, for which the 32-bit age in seconds wraps.
- DsapFrames.OffsetFlagRoundTrip: masking and setting bits of the 16-bit field is written as arithmetic.
- CrcTable: the table is a function of its index, sixteen entries to a row, not an array.
- Slip.SlipEncode: nothing is said of the result when there is no room for the frame, because the source then takes an error for a size and writes outside its buffer.
- Slip.SlipDecode: nothing is said of the result when fewer than two bytes are left for the CRC, because the source then reads outside its buffer.
- SlipLine.SlipSendBuffer: nothing is said of frames of more than 2n+2 bytes for a body of n, for which the source stores the closing END outside its buffer.
- SlipLine.SlipGetBuffer: its receiving buffer has one cell more than the source's, because the source stores a byte before it checks the size.
- RequestEngine: replies always have a primitive and a frame id; shorter ones, for which the source looks at old buffer content, are excluded.
- IndicationPoll.GetIndicationLocked: the call that the request engine makes for the poll is a parameter, related to the line by what `Host.SendRequestLocked` promises; a rejected poll request is not among its fates. An indication that was sent counts as no longer pending at the node.
- ScratchpadNode: the node takes blocks in order of address only, and any content; starting the stack ends an update.
- Otap.Handler.HandleUploadScratchpad: the autostart requests, whose results the source does not look at, and the refresh of the cached scratchpad status are not modelled.
- SetConfig.SinkConfig.RefreshFullStackState: reads only the attributes that a set-config request can change, and the status; those the node never changes are not modelled.
- SetConfig: status flags other than "stopped" are not modelled, nor is a status event of the node that arrives during a request.
- Node MTU outside 1..180, messages above 1500 bytes at the receiver and a block maximum outside 1..112.
