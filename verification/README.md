# Verification of the ipcrelay protocol, reassembly, capture and control logic

ipcrelay carries messages from ZeroMQ publishers to a recorder over UDP multicast. A *bridge* numbers each source's
messages, cuts them into datagrams and sends them; a *receiver* validates the datagrams, puts fragmented messages back
together in a bounded table, reports gaps, and records completed messages in a *capture file* that two independent
programs read; a *control tool* parses the receiver's JSON statistics and serves browsers over HTTP and WebSocket. This
project models these parts in Dafny and proves what they promise.

`dafny verify dfyconfig.toml` checks everything.

## How the model is built

Where the program updates an object in place, there is a `class` with the same fields and loops (`Bridge`, `Reassembler`,
`SequenceTracker`, `CaptureWriter`, `CaptureReader`, `Receiver`, `JsonWriter`, `Parser`, `Connection`). Each method is
proved to take the object's state from its old value to the one that a function on a value type gives (`BridgeModel`,
`Reassembly`, `CaptureModel`, `ReceiverModel`, `JsonGrammar`, `ControlModel`), and the theorems are about these functions
and about runs of them. What the environment decides is input: receive, send and file-write results are event lists, clock
readings and chunks of TCP data are parameters, and the network is the set of all datagrams ever sent, any of which may be
delivered at any step, any number of times or never.

| file | contents |
|---|---|
| `ByteOrder`, `WireProtocol`, `Formats`, `Fragmentation` | the datagram codec, the layouts in literal offsets, the cutting of messages |
| `BridgeModel`, `Bridge`, `BridgeRuns`, `Sending`, `Receiving` | the sender: numbering, send failures, fair service, and what each message becomes |
| `Reassembly`, `Reassembler`, `ReassemblyRuns`, `ReassembledContent`, `MemoryBound` | the reassembly table: safety, conservation, completion, contents, memory |
| `AgeQueue`, `AgeOrder`, `OrderBound`, `StaleCopies` | the lazily compacted deque: when it refines an age queue, when it is sorted by age, how long it gets, and runs in which each fails |
| `SequenceTracker`, `LossReporting` | gap accounting, and loss reporting from bridge to receiver |
| `CaptureFormat`, `CaptureModel`, `CaptureWriter`, `CaptureReader`, `CaptureContents`, `CaptureCounts`, `Truncation` | the capture file, written, cut, counted and read |
| `Text`, `CommandText`, `ReceiverModel`, `Receiver` | the receiver and its commands |
| `Recording`, `RecordingFlag`, `RecordingErrors`, `ReceiverEvents`, `ReceiverCounts`, `Evictions` | its recording state machine, what errors do to it, and its statistics |
| `Relay`, `RelayRuns`, `RelayCompletion`, `RelayDelivery`, `RelaySchedule` | the protocol end to end |
| `JsonValue`, `JsonWriter`, `JsonGrammar`, `JsonParser`, `JsonAcceptance` | the JSON printer and parser |
| `JsonSyntax`, `JsonReading`, `JsonDerivation`, `JsonRoundTrip` | the grammar of RFC 8259 as derivation trees, and the parser against it |
| `WebSocket`, `FrameVerdicts`, `Http`, `HttpRoundTrip`, `HttpDerivation` | frames and requests |
| `ControlModel`, `Control`, `Segmentation`, `MessageAssembly`, `Handshake` | the control connection |

## Main results

* **Sending** (`Sending.DroppedIffTooLong`, `FragmentsGoOut`): a message is dropped if and only if it is longer than 32 bits
  or 65535 fragments allow; otherwise the least number of fragments that hold it goes out, up to the first failing send,
  and their payloads joined are the message.
* **Fidelity** (`RelayRuns.Fidelity`, `StoppedEarlyNeverCompletes`, `CapturedRecordsWereTransmitted`): whatever is lost,
  duplicated, reordered, evicted or expired, every completed message, and every record read from the capture file cut
  anywhere, is one that was given to `transmit` and sent in full, byte for byte.
* **Completion** (`RelayCompletion.DeliveryCompletesIffLast`): in every reachable state, a delivered datagram completes its
  message exactly if it is the last one missing. Over whole runs (`RelayDelivery`), a message completes at most as often as
  each of its fragments is delivered, and at least once if all are delivered and it is never evicted or expired. By
  conditions on the schedule alone, `RelaySchedule.ExactlyOnceBySchedule`: if nothing is delivered twice, no more messages
  are open at a time than the receiver has room for, and sweeps come in time, every message of which all fragments are
  delivered completes exactly once.
* **Reassembly** (`ReassemblyRuns.CompletesExactlyWhenCovered`, `ReassembledContent.CompletedFromArrivals`,
  `ReassemblyRuns.EntriesAreConserved`, `MemoryBound.MemoryIsBounded`): when a message completes and what is in it, whatever
  fragments arrive, where every entry goes, and what memory is held, over every run.
* **Age order** (`AgeOrder.RunStaysSortedIff`, `RunIsFair`, `NextEvictionIsOldestIff`, `NextExpiryIsExactIff`,
  `OrderBound.ExpireBoundsOrderIff`, `OrderIsBounded`, `AgeQueue.RunIsCleanIff`): exactly which runs keep the deque sorted by
  age, so that eviction takes an oldest message and expiry the overdue ones, and how long the deque can get.
* **Recording** (`Truncation.TruncatedFile`, `ReadingBack`, `Recording.CaptureHoldsWhatWasRecorded`,
  `ClosedFileHoldsWhatWasRecorded`, `RecordingErrors.RecordingStaysOnIff`, `ErrorIsCountedIff`): every cut of a capture
  file, every run of the recorder up to the end of the program, and every error from opening the file to closing it.
  Nothing is recorded while recording is off and everything while it is on (`RecordingFlag.OffSilences`, `OnRecords`). Both
  readers read the same thing from any file, and end without an error if and only if the bytes behind its header are whole
  records (`CaptureReader.ReadWithPython`, `CaptureContents.NoErrorIff`).
* **Loss reporting** (`SequenceTracker.GapAccounting`, `LossReporting.LossIsReported`) and **bounded waiting**
  (`BridgeRuns.BoundedWaiting`).
* **Segmentation independence** and **message assembly** (`Segmentation.SegmentationDoesNotMatter`,
  `MessageAssembly.AnyBytesAreAssembled`, `SessionIsAssembled`): what any bytes, cut anywhere, do to a connection. The
  parsers under it accept exactly the frames and requests described (`WebSocket.GotIffEncoded`,
  `HttpDerivation.AcceptedIffWritten`), and exactly the handshakes of `Handshake.Accepts` are upgraded
  (`Handshake.UpgradedIff`).
* **JSON** (`JsonDerivation.AcceptedIffDerived`, `DerivationsAgree`, `JsonRoundTrip.PrintedValueParses`): the parser accepts
  exactly the texts that RFC 8259 derives, whose surrogates are paired and which nest within the limit; it returns the one
  value they denote, and reads printed values back.

## Where the code and its documentation differ

The model follows the code.

* `incomplete` is described as counting timeouts and evictions (`tools/receiver/receiver_stats.hpp:17`), but an evicted
  message is never counted in it (`ReceiverCounts.IncompleteIsExpired`). The description is right for a run if and only if no
  new message arrived while the table was full (`Evictions.IncompleteIsDiscardedIff`); `Evictions.EvictionWitness` is a run
  for which it is not.
* Receiver memory is said to be bounded by pending messages times message size (`docs/limitations.md:74-77`).
  `MemoryBound.MemoryIsBounded` proves that for the buffers. The flags come on top, one byte for each announced fragment:
  up to 65535 bytes for each pending message, which 44 bytes on the wire suffice for (`BoundIsAttained`). So do the buffer
  of the last completed message and `order_`. That compaction keeps `order_` within four times the pending messages and 64
  holds if and only if the surplus copies of pending keys are at most three times as many and 64
  (`OrderBound.ExpireBoundsOrderIff`), and there are at most as many as the run re-created keys (`OrderIsBounded`).
  `StaleCopies.CompactionCanFail` gives runs of any length in which one message is pending and that bound is attained.
* `order_` is described as being in insertion order with the oldest entry in front
  (`tools/receiver/lib/reassembler.cpp:99`). A late duplicate can re-create a completed key while an old copy of it is
  still queued, and then the newest message can be evicted and nothing expire (`StaleCopies.StaleCopyJumpsTheQueue`;
  `LateDuplicateWitness` is a run of four datagrams in which the message that was pending all along is neither evicted
  first nor expired when it is overdue). With a clock that does not go backwards, a run keeps `order_` sorted by age if
  and only if, at each creation, every pending message behind a stale copy of the new key was first seen at that instant
  (`AgeOrder.RunStaysSortedIff`); every such run evicts oldest first and expires exactly what is overdue (`RunIsFair`).
  For one creation, `NextEvictionIsOldestIff` and `NextExpiryIsExactIff` say exactly when the next eviction and the next
  expiry are right.
* Rules 1 to 6 of `docs/wire_protocol.md:65-70` are reported in their order; the conditions of rules 7 and 8 are checked in
  another order, so a datagram that breaks both may be reported for either (`WireProtocol.VerdictFollowsRules`).
* Every open, write, flush or close error is said to be counted in `write_errors` and to disable recording
  (`docs/capture_format.md:68-69`). An error that stops a healthy writer is counted if and only if the file was open and it
  is not the destructor that closes it (`RecordingErrors.ErrorIsCountedIff`). It turns the recording flag off if and only if
  it happens neither in a periodic flush, nor in the `flush` command, nor in closing the file at shutdown or in the
  destructor (`RecordingStaysOnIff`): after a failed close the final statistics show recording on beside a failed capture.
  The writer latches its failure all the same, and every later message counts as skipped (`FailedWriterSkips`).
  `ErrorWitnesses` and `ClosingWitnesses` have a run for each.
* A cut inside a file header longer than 32 bytes, which the writer never writes, is not reported by either reader
  (`Truncation.CutInLongHeaderReadsEmpty`); `Truncation.TruncatedExtendedFile` says what holds of such files.
* RFC 8259 derives texts with half of a surrogate pair as an escape; section 8.2 leaves it to implementations what becomes
  of them. The parser refuses all of them and no other text that nests within the limit (`JsonDerivation.AcceptedIffDerived`);
  `LoneSurrogateIsRefused` is one.
* The 32-bit limit on a message's length is checked beside the limit of 65535 fragments (`src/bridge/bridge.cpp:185`), but
  no datagram size that the configuration admits lets it decide (`Sending.FragmentsDecide`).
* Only a backwards jump of more than 1000, or to 0, is said to be taken for a restart (`docs/wire_protocol.md:92`,
  `docs/limitations.md:91-93`). Among the last 1000 numbers below 2^64 the code's `seq + 1000` wraps around, and every late
  number is (`SequenceTracker.ObservationTable`).
* Observing sequence number 2^64 - 1 twice counts 2^64 - 1 missing messages (`SequenceTracker.ForwardOrRepeated`).
* RFC 6455 (section 5.2) demands the shortest length field; the frame parser also accepts longer ones
  (`WebSocket.ClientFrameParses`).
* If a client closes its side in the read event in which its last frames arrive, those frames are not handled
  (`Segmentation.ClosingEventHandlesNothing`).

## Model

| member | source | states |
|---|---|---|
| ByteOrder.DecodeOfEncode | include/ipcrelay/common/byteorder.hpp:17-53 | decoding the n bytes of a value below 256^n gives the value back |
| ByteOrder.EncodeOfDecode | include/ipcrelay/common/byteorder.hpp:17-53 | every n bytes are the encoding of the value they decode to, which is below 256^n |
| ByteOrder.EncodedByte | include/ipcrelay/common/byteorder.hpp:17-33 | byte i of the encoding is what shifting right by 8i and masking gives |
| ByteOrder.PutU16le | include/ipcrelay/common/byteorder.hpp:17-20 | writes the two bytes of the value at its place and leaves the rest of the buffer alone |
| ByteOrder.PutU32le | include/ipcrelay/common/byteorder.hpp:22-27 | writes the four bytes of the value at its place and leaves the rest of the buffer alone |
| ByteOrder.PutU64le | include/ipcrelay/common/byteorder.hpp:29-33 | the byte loop writes the eight bytes of the value and leaves the rest of the buffer alone |
| ByteOrder.GetU16le | include/ipcrelay/common/byteorder.hpp:37-40 | reads the value that two bytes encode |
| ByteOrder.GetU32le | include/ipcrelay/common/byteorder.hpp:42-45 | reads the value that four bytes encode |
| ByteOrder.GetU64le | include/ipcrelay/common/byteorder.hpp:47-53 | the accumulator loop, in 64-bit arithmetic, reads the value that eight bytes encode |
| WireProtocol.EncodeHeader | src/common/wire_protocol.cpp:7-20 | fills the first 44 bytes with the header layout and touches nothing behind them |
| WireProtocol.ParseDatagram | src/common/wire_protocol.cpp:37-74 | returns the verdict of the validation, the header if it was read, and the payload exactly on acceptance |
| WireProtocol.VerdictFollowsRules | docs/wire_protocol.md:60-77 | accepted if and only if none of the rules 1 to 8 is broken; a rejection names a broken rule, for rules 1 to 6 the first |
| WireProtocol.ParseOfEncode | src/common/wire_protocol.cpp:7-74 | parsing an encoded header and its payload returns them, and accepts exactly the well-formed headers |
| WireProtocol.EncodeOfParse | src/common/wire_protocol.cpp:7-74 | re-encoding the header of an accepted datagram reproduces it, except the ignored reserved field |
| Formats.WireHeaderLayout | docs/wire_protocol.md:12-29 | the encoded header holds each field, little-endian, at the offset and with the size that the table gives |
| Formats.MagicBytes | docs/wire_protocol.md:100 | the three magic numbers are the bytes ZMUB, ZMCP and ZMCR |
| Formats.ExampleDatagram | docs/wire_protocol.md:94-113 | the encoded header of the example and its payload are the 49 bytes printed |
| Fragmentation.CountIsCeiling | src/common/wire_protocol.cpp:76-80 | the fragment count is the least number, at least one, of fragments with room for the message |
| Fragmentation.FragmentsTile | src/bridge/bridge.cpp:182-241 | fragment i carries bytes [i*capacity, min((i+1)*capacity, length)); none is empty unless the message is; joined they are the message |
| Fragmentation.FragmentHeaderIsWellFormed | src/bridge/bridge.cpp:182-218 | every header the loop builds is well formed: all fields fit and all rules hold |
| Fragmentation.DatagramIsAccepted | src/bridge/bridge.cpp:199-241 | every datagram of a transmittable message passes validation and decodes to the header and payload sent |
| Fragmentation.DatagramIdentity | src/bridge/bridge.cpp:199-241 | equal datagrams are the same fragment of the same (source, sequence) |
| Bridge.Bridge.constructor | include/ipcrelay/bridge/bridge.hpp:39-83 | a new bridge has sent and numbered nothing |
| Bridge.Bridge.Transmit | src/bridge/bridge.cpp:175-243 | takes the next sequence number, drops messages that are too long, sends fragments until a send fails, and counts; true if and only if the message is not too long and as many datagrams went out as the least number that holds it |
| Bridge.Bridge.SendFragments | src/bridge/bridge.cpp:207-242 | the loop puts exactly the datagrams before the first failing send on the wire, in index order, and counts their bytes |
| Bridge.Bridge.SendFragment | src/bridge/bridge.cpp:207-232 | one round sends the datagram of one fragment and gives its length |
| Bridge.Bridge.ReceiveRest | src/bridge/bridge.cpp:145-164 | collects the remaining frames of a multipart message; interrupted receives are repeated, an error gives up |
| Bridge.Bridge.TakeMessage | src/bridge/bridge.cpp:132-168 | hands a single frame, or all frames joined and flagged, to transmit |
| Bridge.Bridge.ServiceSource | src/bridge/bridge.cpp:115-173 | drains at most the batch from one source, with its early returns and the backlog counter |
| Bridge.Bridge.PollOnce | src/bridge/bridge.cpp:96-113 | services every readable source once, in order; false exactly on a fatal poll error |
| Sending.DroppedIffTooLong | src/bridge/bridge.cpp:175-189 | a message is dropped and counted as oversize if and only if it is longer than 0xFFFFFFFF bytes or 65535 times the capacity; it takes its sequence number all the same and puts nothing on the wire |
| Sending.FragmentsDecide | src/bridge/bridge.cpp:184-185 | with every capacity that the configuration admits (1 to 65463), a message is too long if and only if it needs more than 65535 fragments: the 32-bit limit alone never decides |
| Sending.FragmentsGoOut | src/bridge/bridge.cpp:190-243 | any other message: the datagrams in front of the first failing send go out in order, each with its fields and bytes i * capacity to (i + 1) * capacity; if no send fails they are the least number that holds the data, and joined are the data; what failed is counted as timeout or error |
| Sending.SentWholeIff | src/bridge/bridge.cpp:175-243 | nothing was dropped and no send failed if and only if the datagrams are as many as the least number that holds the data |
| Sending.ThreeDatagrams | docs/wire_protocol.md:49-54 | 4000 bytes at the default capacity of 1356 go out as three datagrams |
| Receiving.PartsReceived | src/bridge/bridge.cpp:145-164 | for any answers: interrupted receives are repeated, each successful one brings the next frame, and receiving stops when all are there or at the first that fails |
| Receiving.MessageTaken | src/bridge/bridge.cpp:132-168 | a message is handed on with its frames joined, MULTIPART if there are several; if a receive fails before its last frame nothing is, the error is counted, and the frames received so far are lost |
| Receiving.ServiceCounts | src/bridge/bridge.cpp:115-173 | a service ends when its batch is hit, at a receive that failed, or else with nothing waiting, and counts which; with none failing or interrupted the batch is hit if and only if a batch was waiting |
| Receiving.PollCounts | src/bridge/bridge.cpp:96-113 | every poll counts, as an error if and only if it failed; over all sources exactly the failed receives are counted |
| BridgeRuns.PollKeepsSound | src/bridge/bridge.cpp:96-243 | whatever the environment does, the wire holds exactly the datagrams of the logged transmissions and numbering stays gapless per source |
| BridgeRuns.NumberedInOrder | src/bridge/bridge.cpp:180 | the k-th message of a source has sequence number k modulo 2^64 |
| BridgeRuns.KeysAreUnique | src/bridge/bridge.cpp:180 | in a run of at most 2^64 messages no (source, sequence) is used twice |
| BridgeRuns.WireComesFromLog | src/bridge/bridge.cpp:207-242 | every datagram on the wire was sent by some logged transmission, below its early stop |
| BridgeRuns.FirstInFirstOut | src/bridge/bridge.cpp:96-173 | handed on plus still waiting equals waiting plus published, in order, for every source, whatever the polls report and however often receives are interrupted |
| BridgeRuns.PollTakesBatches | src/bridge/bridge.cpp:96-173 | one poll takes up to a batch from each source it reports, whatever the others hold |
| BridgeRuns.BatchesAreHanded | src/bridge/bridge.cpp:96-173 | n polls that report the source while it waits hand on n batches of what was waiting, or all of it |
| BridgeRuns.BoundedWaiting | src/bridge/bridge.cpp:96-180 | the message at position p is handed to transmit within p / batch + 1 polls that report the source while it waits, whole, in turn and with the sequence number of that position |
| Reassembler.Reassembler.constructor | tools/receiver/include/ipcrelay/reassembler.hpp:35-50 | a new reassembler is empty and valid |
| Reassembler.Reassembler.Add | tools/receiver/lib/reassembler.cpp:9-79 | works in place as the specification says and keeps the table valid; every index and copy is in bounds |
| Reassembler.Reassembler.EnsureEntry | tools/receiver/lib/reassembler.cpp:31-48 | evicts until there is room, with a terminating loop, and creates the entry of a new key |
| Reassembler.Reassembler.StoreFragment | tools/receiver/lib/reassembler.cpp:50-79 | drops an inconsistent message, ignores a duplicate, copies a new fragment, hands out and removes a full message |
| Reassembler.Reassembler.EvictOldest | tools/receiver/lib/reassembler.cpp:81-95 | pops stale keys up to the first pending one, removes that entry and counts it |
| Reassembler.Reassembler.Expire | tools/receiver/lib/reassembler.cpp:97-125 | pops and reports overdue entries from the front, then compacts the order if it is long |
| Reassembler.Reassembler.PopOverdue | tools/receiver/lib/reassembler.cpp:100-113 | the expiry loop as specified, with its reports in order |
| Reassembler.Reassembler.CompactOrder | tools/receiver/lib/reassembler.cpp:115-122 | keeps exactly the pending keys, in order |
| Reassembler.Reassembler.Pending | tools/receiver/include/ipcrelay/reassembler.hpp:61 | the number of entries, never more than the limit |
| Reassembly.AddKeepsValid | tools/receiver/lib/reassembler.cpp:9-79 | for every validated fragment, honest or not: counters match flags and stay below the count, buffers have their announced sizes, every pending key is in the order, at most max_pending entries |
| Reassembly.MakeRoomKeeps | tools/receiver/lib/reassembler.cpp:34-36 | the eviction loop ends below the limit, removes one entry per eviction and changes no other |
| Reassembly.ExpireFrontKeeps | tools/receiver/lib/reassembler.cpp:97-115 | expiry keeps the table valid, removes exactly what it reports and counts no eviction |
| Reassembly.ExpireKeepsValid | tools/receiver/lib/reassembler.cpp:97-125 | expiry with compaction keeps the table valid |
| MemoryBound.MemoryIsBounded | docs/limitations.md:74-77 | after every run: at most max_pending messages, max_pending * max_message_length bytes of buffers, and with the flags max_pending * (max_message_length + 65535) bytes |
| MemoryBound.BoundIsAttained | tools/receiver/lib/reassembler.cpp:39-48 | runs of max_pending datagrams of 44 bytes after which exactly that much is held |
| ReassemblyRuns.EntriesAreConserved | tools/receiver/lib/reassembler.cpp:26-114 | over every run: created = completed + inconsistent + evicted + expired + pending, and evictions() counts the evicted |
| ReassemblyRuns.ExpiredWereOverdue | tools/receiver/lib/reassembler.cpp:97-115 | nothing younger than the timeout is removed by expire, and what is removed is reported |
| ReassemblyRuns.ReportsAreRemovals | tools/receiver/lib/reassembler.cpp:97-115 | every report names an entry that was removed, with its progress |
| ReassemblyRuns.FlagsAreArrivals | tools/receiver/lib/reassembler.cpp:61-71 | while an entry lives its flags are exactly the fragment indices that arrived |
| ReassemblyRuns.CompletesExactlyWhenCovered | tools/receiver/lib/reassembler.cpp:50-78 | for any order and any duplicates, add completes the message exactly on the fragment that makes the arrived indices full; repeats are duplicates |
| ReassembledContent.EntryHoldsArrivals | tools/receiver/lib/reassembler.cpp:31-68 | over every run, while an entry lives: its flags are the indices that arrived, its timestamp and flags those of the first fragment, and byte x is that of the last fragment covering x among those that were first with their index, or 0 |
| ReassembledContent.CompletedFromArrivals | tools/receiver/lib/reassembler.cpp:31-79 | for any fragments, honest or not: a completed message has key, timestamp, flags and length of its first fragment, and exactly those bytes |
| ReassembledContent.RefusedIff | tools/receiver/lib/reassembler.cpp:14-58 | a fragment is refused if and only if its message is fragmented and too long, which changes nothing, or it disagrees with its pending message, which is dropped; and when a message is new |
| ReassembledContent.BufferIsKept | tools/receiver/lib/reassembler.cpp:70-76 | the buffer of the last message put together is kept until the next one, and is what is handed out |
| AgeQueue.AddRefinesQueue | tools/receiver/lib/reassembler.cpp:26-95 | unless it re-creates a key that is still queued: add on the table is add on the age queue, with the same results |
| AgeQueue.ExpireRefinesQueue | tools/receiver/lib/reassembler.cpp:97-125 | if no key is queued twice: expire removes exactly the overdue entries, oldest first, and leaves order_ at most 4 * pending + 64 long |
| AgeQueue.EvictionDropsHead | tools/receiver/lib/reassembler.cpp:81-95 | eviction removes the head of the age queue |
| AgeQueue.HeadIsOldest | tools/receiver/lib/reassembler.cpp:81-95 | the head of the age queue was first seen no later than any other pending message |
| AgeQueue.CompactionIsUnobservable | tools/receiver/lib/reassembler.cpp:115-122 | for any table, compaction leaves the queue that order_ stands for unchanged |
| AgeQueue.RunIsCleanIff | tools/receiver/lib/reassembler.cpp:9-125 | a run with a monotone clock meets the condition of the refinement throughout if and only if it never re-creates a key over a stale copy |
| AgeQueue.RunIsNotFromFuture | tools/receiver/lib/reassembler.cpp:9-125 | after every run with a monotone clock no pending message was first seen after the last operation |
| AgeOrder.ExpiryStops | tools/receiver/lib/reassembler.cpp:97-113 | for any table: expiry goes through order_ up to the first pending message that is young, and removes exactly the pending ones in front of it |
| AgeOrder.AgedIsFair | tools/receiver/lib/reassembler.cpp:81-113 | while order_ is sorted by age, however many copies of a key it holds: eviction takes an oldest message, and expiry exactly the overdue ones |
| AgeOrder.CreationKeepsSortedIff | tools/receiver/lib/reassembler.cpp:33-48 | creating a key in a sorted table keeps it sorted by age if and only if every pending message behind a stale copy of it was first seen at this instant |
| AgeOrder.StepKeepsSortedIff | tools/receiver/lib/reassembler.cpp:9-125 | the same for any operation, with the evictions that make room and the entry that is completed or dropped at once |
| AgeOrder.RunStaysSortedIff | tools/receiver/lib/reassembler.cpp:9-125 | a run with a monotone clock keeps order_ sorted after every operation if and only if every creation meets that condition |
| AgeOrder.RunIsFair | tools/receiver/lib/reassembler.cpp:81-113 | after every such run eviction takes an oldest message, and expiry at any later time exactly the overdue ones |
| AgeOrder.NextEvictionIsOldestIff | tools/receiver/lib/reassembler.cpp:33-95 | after a creation the next eviction takes an oldest message if and only if a pending key precedes the stale copies of the new one, or all pending messages were first seen at this instant |
| AgeOrder.NextExpiryIsExactIff | tools/receiver/lib/reassembler.cpp:33-113 | after a creation, expiry at a later time is exact if and only if the new message is overdue too, or every overdue one precedes the stale copies of the new key |
| OrderBound.LiveIsPendingAndSurplus | tools/receiver/lib/reassembler.cpp:115-122 | what compaction keeps is one copy of each pending key and the surplus copies |
| OrderBound.CompactsIffLong | tools/receiver/lib/reassembler.cpp:117-123 | expire compacts if and only if what it leaves is longer than 4 * pending + 64: then only pending keys remain, and otherwise nothing is taken out |
| OrderBound.ExpireBoundsOrderIff | tools/receiver/lib/reassembler.cpp:97-125 | for any valid table: expire leaves order_ within 4 * pending + 64 if and only if the surplus copies are at most 3 * pending + 64 |
| OrderBound.RepeatsAreRecreations | tools/receiver/lib/reassembler.cpp:33-48 | over every run the keys repeated in order_ are at most the creations that found a stale copy |
| OrderBound.OrderIsBounded | tools/receiver/lib/reassembler.cpp:97-125 | after every run that ends with an expiry, order_ is within 4 * pending + 64, or no longer than the pending messages and the re-creations |
| StaleCopies.StaleCopyJumpsTheQueue | tools/receiver/lib/reassembler.cpp:33-115 | the failing family: after re-creation over a stale copy in front, eviction takes the newest message and nothing expires, which is wrong if any message is older, or any is overdue |
| StaleCopies.LateDuplicateWitness | tools/receiver/lib/reassembler.cpp:33-115 | a run of four datagrams, the last one a late duplicate, after which eviction does not take an oldest message and, for any later time at which the pending one is overdue and the new one is not, expiry is wrong |
| StaleCopies.YoungFrontIsUnfair | tools/receiver/lib/reassembler.cpp:81-113 | for any table: if the first pending key in order_ is not that of an oldest message, the next eviction is wrong, and so is expiry while that message is young and an older one overdue |
| StaleCopies.CompactionCanFail | tools/receiver/lib/reassembler.cpp:115-122 | the bounds are attained: runs of any length after which one message is pending and order_ holds one key more than were re-created, beyond 4 * pending + 64 from 68 on |
| SequenceTracker.SequenceTracker.constructor | tools/receiver/include/ipcrelay/sequence_tracker.hpp:17-31 | no source has been seen |
| SequenceTracker.SequenceTracker.Observe | tools/receiver/lib/sequence_tracker.cpp:5-32 | first, in order, gap, out of order or restart, in 64-bit arithmetic; other sources are unchanged |
| SequenceTracker.ObservationTable | tools/receiver/lib/sequence_tracker.cpp:5-32 | in plain integers: x > last + 1 misses x - last - 1; for x < last, last stays if and only if x is not 0, at most 1000 behind, and below 2^64 - 1000, and becomes x otherwise; behind 2^64 - 1 comes 0 |
| SequenceTracker.NeverSetBackIff | tools/receiver/lib/sequence_tracker.cpp:25-30 | last is never set back in a run if and only if no number is 0 behind a larger one, more than 1000 below one before it, or late among the last 1000 numbers |
| SequenceTracker.ReorderingIsTolerated | docs/limitations.md:91-93 | 1, 3, 2, 4: one missing, one out of order, and last is 4 |
| SequenceTracker.GapAccounting | tools/receiver/lib/sequence_tracker.cpp:5-32 | for numbers below 2^64 - 1 none of which is so late that it is taken for a restart: last is the greatest, and missing - out_of_order <= N <= missing, where N numbers in (first, last] were never observed |
| SequenceTracker.ExactWhenNondecreasing | tools/receiver/lib/sequence_tracker.cpp:5-32 | for numbers that never go backwards missing equals N, repeats included |
| SequenceTracker.ForwardOrRepeated | tools/receiver/lib/sequence_tracker.cpp:5-32 | a number ahead or repeated is counted right if and only if the last one was not 2^64 - 1; repeating that counts 2^64 - 1 missing |
| LossReporting.NewMessageIsAcceptable | tools/receiver/receiver.cpp:223-228 | what makes the receiver observe a sequence number: an unfragmented datagram, or an acceptable fragment whose key is not pending |
| LossReporting.ObservedIsArrived | tools/receiver/receiver.cpp:223-241 | over every run the numbers observed are those of the acceptable datagrams, although eviction makes some be observed again |
| LossReporting.TrackerIsTrack | tools/receiver/receiver.cpp:227-241 | over every run the tracker state of a source is that of its observations |
| LossReporting.MissingIsExact | tools/receiver/receiver.cpp:223-241 | if a source's datagrams never arrive out of order, missing counts exactly the numbers between first and last that did not arrive |
| LossReporting.BridgeSendsInOrder | src/bridge/bridge.cpp:175-243 | sequence numbers on the wire never go backwards within a source |
| LossReporting.LossIsReported | tools/receiver/receiver.cpp:223-241 | bridge to receiver over a lossy channel that keeps order: missing equals the numbers between first and last of which no acceptable datagram arrived |
| CaptureFormat.EncodeFileHeader | tools/receiver/lib/capture_format.cpp:9-16 | writes the 32 bytes of the file header and leaves the rest of the buffer alone |
| CaptureFormat.EncodeRecordHeader | tools/receiver/lib/capture_format.cpp:18-26 | writes the 32 bytes of the record header and leaves the rest of the buffer alone |
| CaptureFormat.DecodeFileHeader | tools/receiver/lib/capture_format.cpp:28-36 | true exactly for 32 bytes with the magic, the version and a long enough header length; then the fields |
| CaptureFormat.DecodeRecordHeader | tools/receiver/lib/capture_format.cpp:38-47 | true exactly for 32 bytes with the record magic; then the fields |
| CaptureFormat.FileHeaderRoundTrip | tools/receiver/lib/capture_format.cpp:9-36 | decoding an encoded file header returns it |
| CaptureFormat.RecordHeaderRoundTrip | tools/receiver/lib/capture_format.cpp:18-47 | decoding an encoded record header returns it |
| Formats.FileHeaderLayout | docs/capture_format.md:23-35 | the encoded file header holds each field at the offset and with the size that the table gives |
| Formats.RecordHeaderLayout | docs/capture_format.md:37-50 | the same for the record header |
| CaptureReader.CaptureReader.constructor | tools/receiver/include/ipcrelay/capture_reader.hpp:15-31 | a reader that has not been opened |
| CaptureReader.CaptureReader.Open | tools/receiver/lib/capture_reader.cpp:18-40 | accepts exactly a good file header and goes to the end of it |
| CaptureReader.CaptureReader.NextRecord | tools/receiver/lib/capture_reader.cpp:42-61 | the next record, a clean end, or an error that stays |
| CaptureReader.ReadWithCpp | tools/capture_to_csv/csv_export.cpp:260 | the loop of the C++ reader returns the records and the error that the format defines |
| CaptureReader.ReadFileHeader | tools/capture_inspect.py:49-63 | the Python reader accepts and skips the same headers |
| CaptureReader.IterRecords | tools/capture_inspect.py:66-83 | the Python generator yields the same records and complains about the same files |
| CaptureReader.ReadWithPython | tools/capture_inspect.py:49-83 | both readers agree on every file |
| CaptureContents.OpenInBytes | tools/receiver/lib/capture_reader.cpp:18-40 | a file can be opened if and only if it begins with 32 bytes that hold the mark, version 1 and a length of at least 32 |
| CaptureContents.AnyBytesRead | tools/receiver/lib/capture_reader.cpp:42-61 | for any bytes behind the header: the records they spell, up to where there is no whole record, and the error that what is left calls for |
| CaptureContents.NoErrorIff | tools/receiver/lib/capture_reader.cpp:42-61 | reading ends without an error if and only if the bytes spell records one behind the other and nothing else, and then exactly these are read |
| CaptureContents.SpelledReads | tools/receiver/lib/capture_reader.cpp:42-61 | whole records are read as what they are, and reading goes on behind them |
| CaptureContents.BadMagicIsReported | tools/receiver/lib/capture_reader.cpp:51-54 | good records followed by 32 bytes with another magic: those records and the bad-magic error |
| CaptureContents.RestIsRead | tools/capture_inspect.py:66-83 | what any file reads as depends only on the bytes behind its header |
| CaptureWriter.CaptureWriter.constructor | tools/receiver/include/ipcrelay/capture_writer.hpp:42-51 | a writer that has not been opened |
| CaptureWriter.CaptureWriter.Open | tools/receiver/lib/capture_writer.cpp:23-58 | creates the file and writes its header, or latches the failure |
| CaptureWriter.CaptureWriter.WriteRecord | tools/receiver/lib/capture_writer.cpp:60-77 | appends header and payload, or latches the failure with a partial record in the file; nothing once failed |
| CaptureWriter.CaptureWriter.Flush | tools/receiver/lib/capture_writer.cpp:79-90 | flushes and optionally syncs, or latches the failure |
| CaptureWriter.CaptureWriter.Close | tools/receiver/lib/capture_writer.cpp:92-109 | makes all three calls, latches a failure of any but for an fsync that is not supported, and forgets the file |
| CaptureWriter.CaptureWriter.Destroy | tools/receiver/lib/capture_writer.cpp:11-16 | closes a file that is still open |
| Truncation.WholeIsGreatest | docs/capture_format.md:66-67 | the records wholly inside a prefix are as many as fit |
| Truncation.TruncatedFile | docs/capture_format.md:63-67 | every record list, every cut: refused if and only if inside the file header; otherwise exactly the whole records, and an error if and only if the cut is not on a boundary |
| Truncation.TruncatedExtendedFile | tools/receiver/lib/capture_reader.cpp:18-61 | the same for files with a longer header, where a cut inside the extension reads as no records and no error |
| Truncation.CutInLongHeaderReadsEmpty | tools/receiver/lib/capture_reader.cpp:33-47 | the case outside that promise: a cut inside an extended header reads as no records |
| Truncation.WriteAppends | tools/receiver/lib/capture_writer.cpp:60-77 | write_record appends the whole record, or on failure a proper prefix of it |
| Truncation.WritingStaysFaithful | tools/receiver/lib/capture_writer.cpp:60-77 | the file stays header, whole records and, only after a failure, a proper prefix of one record |
| Truncation.OpeningIsFaithful | tools/receiver/lib/capture_writer.cpp:23-58 | a freshly opened file is its header; a failed open leaves the writer closed and failed |
| Truncation.FlushingStaysFaithful | tools/receiver/lib/capture_writer.cpp:79-90 | flushing changes neither the file nor what it holds |
| Truncation.ReadingBack | tools/receiver/lib/capture_writer.cpp:23-90 | reading the file gives exactly the records written whole, with no error unless a write failed |
| CaptureCounts.CountersAreTheFile | tools/receiver/lib/capture_writer.cpp:23-109 | over every run of the receiver and after it closes its file: records_written counts the records wholly written, and bytes_written is 32 and 32 with the payload for each, which is the length of the file unless a call failed; or no file was opened and both are 0 |
| CaptureCounts.MisuseIsRefused | tools/receiver/lib/capture_writer.cpp:23-109 | opening twice fails the writer; writing and flushing without an open healthy file do nothing and report it; closing twice does nothing |
| Receiver.Receiver.constructor | tools/receiver/receiver.cpp:26-31 | a receiver with empty tables and recording off |
| Receiver.Receiver.HandleDatagram | tools/receiver/receiver.cpp:207-256 | validates, counts, reassembles, observes and completes in place, as specified |
| Receiver.Receiver.OnComplete | tools/receiver/receiver.cpp:258-284 | counts the message; writes its record, skips it, or turns recording off on a failed write |
| Receiver.Receiver.SetRecording | tools/receiver/receiver.cpp:117-145 | opens on demand, refuses after a failure, flushes when turned off |
| Receiver.Receiver.HandleCommand | tools/receiver/receiver.cpp:157-192 | normalises the text, recognises the command and does it, with its answer |
| CommandText.Normalise | tools/receiver/receiver.cpp:157-172 | trims, lowers, replaces separators and collapses runs of spaces, with its loop |
| CommandText.SpellingsAreAlike | tools/receiver/receiver.cpp:157-172 | every spelling of a command (blanks around it, any case, any run of spaces, underscores, equals signs and colons between words) is normalised to its words in lower case with one space between them |
| Text.TrimTakesBlanks | src/common/config.cpp:13-25 | trim takes away the blanks around a text and nothing else |
| Text.Characters | src/common/config.cpp:13-24 | blanks are codes 32 and 9 to 13, and capital letters codes 65 to 90, each 32 below its small one |
| Receiver.Receiver.SweepReassembly | tools/receiver/receiver.cpp:342-349 | counts every expired message, in total and for its source |
| Receiver.Receiver.Flush | tools/receiver/receiver.cpp:381-387 | the periodic flush of a healthy open writer |
| Receiver.Receiver.ShutDown | tools/receiver/receiver.cpp:408-422 | a last sweep, then the file is closed; exit code 1 and one more write error if that fails |
| Receiver.Receiver.Destroy | tools/receiver/receiver.cpp:34-36 | closes a file that is still open, and counts nothing |
| ReceiverEvents.RejectionIsCounted | tools/receiver/receiver.cpp:207-217 | a rejected datagram counts once as malformed, once for its reason, and once for the source its header names, unless it is truncated or has a bad magic or version; nothing else happens |
| ReceiverEvents.AcceptanceIsCounted | tools/receiver/receiver.cpp:218-256 | an accepted datagram counts once with its bytes; it counts as message, duplicate or inconsistent by what the reassembler answered, and the tracker sees it if and only if its message is new |
| ReceiverEvents.AcceptanceIsAttributed | tools/receiver/receiver.cpp:218-284 | the counts of its own source change by the same, its last sequence and timestamp are those of the completed message, and those of no other source change |
| ReceiverEvents.SweepIsCounted | tools/receiver/receiver.cpp:342-349 | a sweep counts every expired message once, and once for its own source, and does nothing else |
| RecordingFlag.CommandTexts | tools/receiver/receiver.cpp:170-191 | the texts of each command |
| RecordingFlag.CommandsAct | tools/receiver/receiver.cpp:157-192 | record on, off and toggle set the flag, toggle to the opposite of what it is; flush, stats and unknown commands leave it alone |
| RecordingFlag.OffIsOff | tools/receiver/receiver.cpp:133-145 | after turning recording off it is off whatever the calls answer, and the file stays as it is |
| RecordingFlag.OnIsOnIff | tools/receiver/receiver.cpp:117-132 | turning it on succeeds if and only if the writer is healthy, and open or can be opened; otherwise the flag stays as it was |
| RecordingFlag.OffSilences | tools/receiver/receiver.cpp:117-284 | over every run that begins with recording off and in which nothing turns it on: the file and its records stay, and every completed message is skipped and counted |
| RecordingFlag.OnRecords | tools/receiver/receiver.cpp:117-284 | over every run that begins with recording on in which nothing turns it off and no call fails: exactly the completed messages are recorded, in order, each with its fields and bytes |
| Recording.CaptureHoldsWhatWasRecorded | tools/receiver/receiver.cpp:258-284 | over every run: completed = written + skipped + failed, each counted from the events, with at most one failed; the file reads back as the messages completed while armed, in completion order |
| Recording.ClosedFileHoldsWhatWasRecorded | tools/receiver/receiver.cpp:408-422 | shutting down after any run closes the file and changes nothing in it, so it still reads back as the messages recorded; the exit code is 0 if and only if closing did not fail; the destructor has nothing left to do |
| Recording.EventIsAccounted | tools/receiver/receiver.cpp:117-284 | every event keeps the account, and adds a record exactly for a message completed while armed and written |
| Recording.NothingAfterFailure | tools/receiver/lib/capture_writer.cpp:18-90 | once the writer failed, nothing is ever appended again, whatever arrives |
| RecordingErrors.RecordingStaysOnIff | tools/receiver/receiver.cpp:117-422 | when anything makes the writer of an armed receiver fail, recording stays on if and only if it is a periodic flush, the flush command, or closing the file at shutdown or in the destructor |
| RecordingErrors.ErrorIsCountedIff | tools/receiver/receiver.cpp:34-422 | when anything makes a healthy writer fail, write_errors counts it if and only if the file was open and it is not the destructor |
| RecordingErrors.FailedWriterSkips | tools/receiver/receiver.cpp:258-272 | whatever made the writer fail, a later message is skipped and counted as such |
| RecordingErrors.ErrorWitnesses | tools/receiver/receiver.cpp:117-205 | a run for each side: failing fflush and fsync of the periodic flush and the flush command, a failing flush of record off, and a failing open |
| RecordingErrors.ClosingWitnesses | tools/receiver/receiver.cpp:408-422 | fflush, fsync or fclose failing at shutdown: recording is on and one error counted; in the destructor none is; an unsupported fsync is no failure |
| ReceiverCounts.CountsAddUp | tools/receiver/receiver.cpp:194-284 | over every run per-source counts sum to the totals, malformed ones with the rejections that name no source, by reason; and the gap counts are those of the tracker |
| ReceiverCounts.FinalCountsAddUp | tools/receiver/receiver.cpp:408-422 | the same for the final statistics, after the last sweep and with the file closed |
| ReceiverCounts.IncompleteIsExpired | tools/receiver/receiver.cpp:342-349 | over every run incomplete equals the number of expired messages; evictions never count |
| Evictions.MakingRoomTakesOne | tools/receiver/lib/reassembler.cpp:33-36 | in a valid table the eviction loop removes exactly one entry if the table is full, and none otherwise |
| Evictions.EvictionsAreOverflows | tools/receiver/lib/reassembler.cpp:33-36 | over every run evictions() is the number of entries removed to make room, and zero if and only if no new message arrived while the table was full |
| Evictions.IncompleteIsDiscardedIff | tools/receiver/receiver_stats.hpp:17 | over every run incomplete + evictions = expired + evicted; so incomplete is what its comment says if and only if no new message arrived while the table was full |
| Evictions.EvictedIsNotIncomplete | tools/receiver/receiver.cpp:342-349 | the failing runs: with room for one message, the first fragments of any two messages leave incomplete at zero and one evicted |
| Evictions.EvictionWitness | tools/receiver/receiver.cpp:342-349 | one such run, with messages of two bytes |
| Relay.AddFollows | tools/receiver/lib/reassembler.cpp:9-79 | delivering any datagram that was sent: entries keep following sent messages, and a completed message was transmitted in full |
| Relay.FullEntryIsWhole | tools/receiver/lib/reassembler.cpp:66-78 | an entry whose flags are all set holds exactly the message, all of whose fragments were sent |
| RelayRuns.ReachableIsHonest | tools/receiver/receiver.cpp:207-256 | the invariant joining sender log, wire, table, completions and capture holds in every reachable state |
| RelayRuns.Fidelity | tools/receiver/receiver.cpp:207-284 | every completed message is one given to transmit and sent in full, with its source, sequence, timestamp, flags and bytes |
| RelayCompletion.DeliveryCompletesIffLast | tools/receiver/receiver.cpp:207-256 | in every reachable state, delivering a sent datagram completes its message, whole, if and only if it is the last that the receiver lacks, and completes nothing else |
| RelayCompletion.SentIsOnWire | src/bridge/bridge.cpp:207-242 | every datagram counted as sent can be delivered |
| RelayDelivery.DeliveriesPay | tools/receiver/receiver.cpp:207-284 | over every run, completions of a message, and one more if fragment n of it is held, are at most the deliveries of fragment n |
| RelayDelivery.CompletesAtMostAsDelivered | tools/receiver/receiver.cpp:207-284 | a message completes at most as often as each of its fragments is delivered |
| RelayDelivery.CompletesOnceAllArrived | tools/receiver/receiver.cpp:207-284 | a message that the receiver does not refuse, all of whose fragments are delivered, in any order and however often, completes if it is never evicted or expired |
| RelayDelivery.ExactlyOnce | tools/receiver/receiver.cpp:207-284 | if each fragment of a message that the receiver does not refuse is delivered exactly once, in any order, and it is never evicted or expired, it completes exactly once |
| RelaySchedule.NothingIsLost | tools/receiver/lib/reassembler.cpp:9-125 | under a smooth schedule (nothing delivered twice, no more messages open than max_pending, sweeps in time) no step evicts or expires a pending message |
| RelaySchedule.PendingIsOpen | tools/receiver/lib/reassembler.cpp:9-79 | under it a pending message is one of which some fragment was delivered and some was not |
| RelaySchedule.ExactlyOnceBySchedule | tools/receiver/receiver.cpp:207-284 | in a run with a smooth schedule every message that is not refused and all of whose fragments are delivered completes exactly once |
| RelayRuns.WireFlagsMarkFragmentation | src/bridge/bridge.cpp:190-193 | FRAGMENTED is added if and only if there is more than one fragment, and no other flag changes |
| RelayRuns.StoppedEarlyNeverCompletes | src/bridge/bridge.cpp:207-242 | a message whose send loop stopped early never completes, under any schedule |
| RelayRuns.CapturedRecordsWereTransmitted | docs/capture_format.md:48-67 | every record read from the capture file, cut anywhere, is that of a message transmitted in full |
| JsonValue.IntTextRoundTrip | tools/receiver/lib/json_writer.cpp:50-51 | integers and their decimal texts correspond one to one |
| JsonWriter.JsonWriter.constructor | tools/receiver/include/ipcrelay/json_writer.hpp:9-36 | an empty text, and no comma due |
| JsonWriter.JsonWriter.Separator | tools/receiver/lib/json_writer.cpp:7-10 | appends a comma exactly when one is due |
| JsonWriter.JsonWriter.Escape | tools/receiver/lib/json_writer.cpp:12-33 | appends the quoted, escaped text |
| JsonWriter.JsonWriter.Key | tools/receiver/lib/json_writer.cpp:40-46 | appends separator, quoted key and colon; no comma is due |
| JsonWriter.WriteValue | tools/receiver/lib/json_writer.cpp:7-61 | writing any value tree appends exactly its compact text: commas separate items and members and stand nowhere else |
| JsonWriter.WriteItems | tools/receiver/lib/json_writer.cpp:37-38 | an array of any values, with its commas |
| JsonWriter.WriteMembers | tools/receiver/lib/json_writer.cpp:35-46 | an object of any members, with its commas |
| JsonParser.Parser.Document | tools/ctl/backend/json_value.cpp:22-35 | one value between white space and nothing behind it |
| JsonParser.Parser.ReadValue | tools/ctl/backend/json_value.cpp:58-77 | recursive descent over the position does what the grammar says, with the same complaint at the same place |
| JsonParser.Parser.ReadObject | tools/ctl/backend/json_value.cpp:79-84 | an object, or the complaint that it is nested too deeply |
| JsonParser.Parser.ReadMembers | tools/ctl/backend/json_value.cpp:88-110 | the loop over members |
| JsonParser.Parser.ReadArray | tools/ctl/backend/json_value.cpp:113-118 | an array, or the complaint that it is nested too deeply |
| JsonParser.Parser.ReadItems | tools/ctl/backend/json_value.cpp:122-137 | the loop over items |
| JsonParser.Parser.StringText | tools/ctl/backend/json_value.cpp:175-216 | the string loop, with escapes and control characters refused |
| JsonParser.Parser.Escape | tools/ctl/backend/json_value.cpp:181-214 | the escapes of two characters, or a unicode escape |
| JsonParser.Parser.UnicodeEscape | tools/ctl/backend/json_value.cpp:194-209 | four hex digits, a surrogate pair, or a complaint |
| JsonParser.Parser.Hex | tools/ctl/backend/json_value.cpp:140-154 | the hex loop computes the number of four digits |
| JsonParser.Parser.NumberText | tools/ctl/backend/json_value.cpp:224-250 | reads the longest number there is and keeps its text |
| JsonRoundTrip.EscapedHasNoControls | tools/receiver/lib/json_writer.cpp:12-33 | no escaped text holds a control character (RFC 8259, section 7) |
| JsonRoundTrip.EscapeCharParses | tools/ctl/backend/json_value.cpp:175-216 | each escaped byte is read back as itself |
| JsonRoundTrip.QuotedParses | tools/ctl/backend/json_value.cpp:175-216 | each escaped string is read back as itself, and nothing behind it is consumed |
| JsonRoundTrip.PrintedValueParses | tools/ctl/backend/json_value.cpp:22-250 | printed text parses back to the same tree with nothing left over if and only if it nests within the limit; deeper trees are refused for that reason |
| JsonRoundTrip.RenderIsDerived | tools/receiver/lib/json_writer.cpp:7-61 | everything the writer prints is derived by RFC 8259, without lone surrogates, and denotes the value printed |
| JsonRoundTrip.WriteThenRead | tools/ctl/backend/json_value.cpp:255-258 | the two objects composed: reading what was written returns it exactly up to the nesting limit |
| JsonRoundTrip.Utf8Encodes | tools/ctl/backend/json_value.cpp:156-173 | append_utf8 writes the shortest UTF-8 form (RFC 3629) of the code point |
| JsonSyntax.Characters | tools/ctl/backend/json_value.cpp:140-154 | white space, digits and hex digits are those of RFC 8259, with their values |
| JsonSyntax.Escapes | tools/ctl/backend/json_value.cpp:187-214 | each two-character escape stands for what RFC 8259, section 7, says, and there is no other |
| JsonAcceptance.UnicodeEscapeParses | tools/ctl/backend/json_value.cpp:140-209 | every character written as an escape, with a surrogate pair above U+FFFF, is read as its UTF-8 bytes |
| JsonAcceptance.CodePointsAreScalars | tools/ctl/backend/json_value.cpp:194-209 | no escape yields half of a surrogate pair |
| JsonAcceptance.NestingIsLimited | tools/ctl/backend/json_value.cpp:79-137 | for every text, an accepted value nests no more deeply than the limit |
| JsonReading.NumberReads | tools/ctl/backend/json_value.cpp:224-250 | every number of RFC 8259, section 6, with nothing behind it that could continue it, is read whole |
| JsonReading.CharsRead | tools/ctl/backend/json_value.cpp:175-216 | every string of RFC 8259 is read as the bytes it denotes if and only if low surrogates stand exactly behind high ones; otherwise the complaint is about that |
| JsonReading.ValueReads | tools/ctl/backend/json_value.cpp:58-250 | every derivation tree of RFC 8259, whatever its white space, escapes and numbers, is read as the value it denotes if and only if its surrogates are paired and it nests within the limit |
| JsonReading.DocumentReads | tools/ctl/backend/json_value.cpp:22-35 | the same for a whole text |
| JsonDerivation.NumberDerives | tools/ctl/backend/json_value.cpp:224-250 | what is read as a number is one of RFC 8259 |
| JsonDerivation.ValueDerives | tools/ctl/backend/json_value.cpp:58-250 | what is read as a value is derived by RFC 8259 and denotes what is returned |
| JsonDerivation.AcceptedIffDerived | tools/ctl/backend/json_value.cpp:22-250 | for every text: accepted if and only if RFC 8259 derives it with all surrogates paired and a nesting within the limit |
| JsonDerivation.DerivationsAgree | tools/ctl/backend/json_value.cpp:22-250 | any two derivations of a text agree on whether surrogates are paired, and then denote the same value |
| JsonDerivation.LoneSurrogateIsRefused | tools/ctl/backend/json_value.cpp:194-209 | a text that RFC 8259 derives and the parser refuses, whatever the limit |
| WebSocket.WsParseFrame | tools/ctl/backend/websocket.cpp:93-158 | the frame parser with its length-decoding and unmasking loops |
| WebSocket.Unmask | tools/ctl/backend/websocket.cpp:152-155 | byte i is unmasked with key byte i modulo 4 |
| WebSocket.DecodeLength | tools/ctl/backend/websocket.cpp:131-135 | the length loop reads big-endian |
| WebSocket.MaskTwice | tools/ctl/backend/websocket.cpp:152-155 | masking twice gives the data back |
| WebSocket.MaskedBit | tools/ctl/backend/websocket.cpp:152-155 | bit k of byte i is flipped if and only if bit k of key byte i modulo 4 is set |
| WebSocket.FrameVerdictIsStable | tools/ctl/backend/websocket.cpp:93-158 | a frame or an error never changes when bytes are appended |
| WebSocket.ClientFrameParses | tools/ctl/backend/websocket.cpp:93-158 | every valid client encoding of a frame (any key, any length form; RFC 6455, section 5.2) is read back, and nothing behind it |
| WebSocket.GotIsEncoded | tools/ctl/backend/websocket.cpp:93-158 | conversely, whatever is read as a frame is a valid client encoding of it |
| WebSocket.GotIffEncoded | tools/ctl/backend/websocket.cpp:93-158 | the frames read are exactly the valid client encodings |
| WebSocket.PrefixNeedsMore | tools/ctl/backend/websocket.cpp:93-158 | every proper prefix of a valid frame asks for more |
| FrameVerdicts.VerdictInBytes | tools/ctl/backend/websocket.cpp:93-158 | for any bytes, in numbers: exactly when the parser waits, reads a frame, refuses, and refuses for the length |
| FrameVerdicts.FirstErrorIsTold | tools/ctl/backend/websocket.cpp:101-139 | of several errors in the first two bytes, the first one is told |
| FrameVerdicts.WaitingIsHonest | tools/ctl/backend/websocket.cpp:126-148 | what the parser waits for with the length known can still become a frame |
| FrameVerdicts.BrokenIsHopeless | tools/ctl/backend/websocket.cpp:93-158 | what is refused is refused whatever follows |
| WebSocket.WsEncodeFrame | tools/ctl/backend/websocket.cpp:160-181 | FIN, no mask, the shortest length form, the payload |
| WebSocket.ServerFrameParses | tools/ctl/backend/websocket.cpp:160-181 | a client reads back the opcode and payload of every encoded frame |
| Http.ParseHttpRequest | tools/ctl/backend/http.cpp:22-69 | the header parser with its loop over lines, its size limit and its complaints |
| Http.HttpVerdictIsStable | tools/ctl/backend/http.cpp:22-69 | a request or an error never changes when bytes are appended |
| Http.HeaderHasToken | tools/ctl/backend/http.cpp:71-81 | the loop over the parts of a comma-separated value |
| HttpDerivation.HasTokenIff | tools/ctl/backend/http.cpp:71-81 | a value has a token if and only if one of its parts between commas is the token, blanks around it and case aside |
| HttpRoundTrip.RequestParses | tools/ctl/backend/http.cpp:22-69 | a request line and header lines, names in any case and values with blanks around them, within the size limit, are read as what they mean, in order, and nothing behind is used |
| HttpDerivation.RequestDerives | tools/ctl/backend/http.cpp:22-69 | conversely, whatever is accepted is such a request, and what is returned is what it means |
| HttpDerivation.AcceptedIffWritten | tools/ctl/backend/http.cpp:22-69 | the requests accepted are exactly these |
| HttpDerivation.VerdictInBytes | tools/ctl/backend/http.cpp:22-69 | for any bytes: exactly when the parser waits for a blank line, finds the header too large, or refuses its first line |
| HttpDerivation.RequestLineIff | tools/ctl/backend/http.cpp:38-51 | a line is read as a request line if and only if it is a method, a target that begins with a slash and a version HTTP/1.x, with one blank between them |
| Control.Connection.constructor | tools/ctl/backend/control_server.hpp:47-57 | a new connection speaks HTTP and has received nothing |
| Control.Connection.HandleWsFrames | tools/ctl/backend/control_server.cpp:363-411 | the frame loop, with its early returns |
| Control.Connection.HandleFrame | tools/ctl/backend/control_server.cpp:376-409 | one frame: pong, close echo, message assembly, or a closing failure |
| Control.Connection.UpgradeWebsocket | tools/ctl/backend/control_server.cpp:336-361 | refused with the fitting status, or the handshake, two greetings and any frames behind it |
| Control.Connection.ServeHttp | tools/ctl/backend/control_server.cpp:315-334 | 405 for another method, else the statistics, an embedded file or 404, with or without the body; then the connection closes |
| Control.Connection.LoadAsset | tools/ctl/backend/control_server.cpp:292-313 | the loop finds exactly the embedded files |
| Control.Connection.HandleHttpRequest | tools/ctl/backend/control_server.cpp:274-290 | waits, refuses with 400 or 431, upgrades or serves |
| Control.Connection.ReadEvent | tools/ctl/backend/control_server.cpp:230-250 | receives until there is no more, ignores input after closing, then handles what arrived |
| Handshake.StatusIs | tools/ctl/backend/control_server.cpp:336-350 | the handshakes accepted are exactly those that meet all conditions on the headers as the client wrote them; any other gets the status for the first that is not met |
| Handshake.UpgradedIff | tools/ctl/backend/control_server.cpp:336-361 | a new connection that is sent a request for /ws is upgraded, with the handshake for the key written and two greetings, if and only if the method is GET, upgrade has a part websocket, connection a part upgrade, the version is 13, the key has 24 characters, and the origin, if given, matches the host; otherwise it is answered 405, 426, 400 or 403 and closed |
| Handshake.BrowserIsAccepted | tools/ctl/backend/control_server.cpp:336-361 | what a browser sends is such a request |
| Handshake.Answered | tools/ctl/backend/control_server.cpp:315-334 | any other request is answered once and the connection closes: 405, the statistics, the page for /, a file of the interface, or 404, without a body for HEAD |
| Handshake.RefusedInBytes | tools/ctl/backend/control_server.cpp:274-286 | the connection waits as long as there is no blank line in 16 KiB; a longer header is refused with 431, a malformed one with 400 |
| FrameVerdicts.FramesAct | tools/ctl/backend/control_server.cpp:375-409 | what each kind of frame does, by its opcode |
| FrameVerdicts.BrokenCloses | tools/ctl/backend/control_server.cpp:370-373 | a frame that announces more than 64 KiB closes the connection with 1009, any other broken one with 1002 |
| Segmentation.FramesAreStable | tools/ctl/backend/control_server.cpp:363-411 | handling frames before more bytes arrive or after makes no difference |
| Segmentation.HttpIsStable | tools/ctl/backend/control_server.cpp:274-361 | the same for the header, the upgrade and frames pipelined behind it |
| Segmentation.TwoChunksAreOne | tools/ctl/backend/control_server.cpp:230-250 | two chunks one after the other are one chunk |
| Segmentation.SegmentationDoesNotMatter | tools/ctl/backend/control_server.cpp:230-411 | any two ways of cutting a stream give the same replies, messages and final state, apart from ignored input after closing |
| Segmentation.EventFeedsItsChunks | tools/ctl/backend/control_server.cpp:230-250 | a read event handles all chunks received in it at once |
| Segmentation.ClosingEventHandlesNothing | tools/ctl/backend/control_server.cpp:238-241 | an event that ends with the client closing handles none of them |
| Segmentation.FailingEventIsTheLast | tools/ctl/backend/control_server.cpp:243-249 | an event that ends because receiving failed is the last one: no frame received in it is handled, but a request is |
| MessageAssembly.OpenIffLegal | tools/ctl/backend/control_server.cpp:363-411 | the connection stays open if and only if every frame is allowed; then it sent one pong per ping and one answer per finished message, of its payloads joined |
| MessageAssembly.ClosesAtFirstForbidden | tools/ctl/backend/control_server.cpp:363-411 | the first frame not allowed closes with the fitting reply, for a bad continuation state code 1002, and nothing after it has an effect |
| MessageAssembly.StreamsAreAssembled | tools/ctl/backend/control_server.cpp:230-411 | the same from bytes: any valid encodings, control frames anywhere, cut anywhere |
| MessageAssembly.AnyBytesAreAssembled | tools/ctl/backend/control_server.cpp:230-411 | for any bytes at all, cut anywhere: they are valid frames and a tail; if all frames are allowed, a broken tail closes with the code for its error and any other tail waits; if not, the first frame not allowed closes |
| MessageAssembly.SessionIsAssembled | tools/ctl/backend/control_server.cpp:274-411 | a whole session from its first byte: a request that meets the conditions for an upgrade, the greetings, and exactly the replies its frames call for |
| MessageAssembly.FrameKeepsBound | tools/ctl/backend/control_server.cpp:391-408 | after every frame that does not fail the partial message is at most 64 KiB, and empty outside a message |
| MessageAssembly.ConnectionMemoryIsBounded | tools/ctl/backend/control_server.cpp:230-411 | for every byte stream an open connection holds at most 64 KiB of message and less than 64 KiB + 14 bytes of input |
| MessageAssembly.OnlyAssetsAreServed | tools/ctl/backend/control_server.cpp:292-334 | whatever bytes arrive, no file is sent but the embedded ones |

## Left out

* Sockets, ZeroMQ, polling, signals, clocks and logging: their results are inputs of the model.
* Buffering in `stdio` and by the operating system: the file is the byte sequence written so far, and a failed write leaves any proper prefix of what it was to write.
* Configuration files, the INI parser, argument parsing and every `main.cpp`: only their numeric bounds appear, as types.
- Bridge.Bridge.Transmit: message, byte and datagram counters are unbounded where the program has 64-bit ones; the sequence number does wrap.
- Receiver.Receiver.HandleDatagram: all statistics are unbounded where the program has 64-bit counters.
- BridgeRuns.FirstInFirstOut: assumes that no receive fails; `Receiving.MessageTaken` says what is lost when one does.
- BridgeRuns.BoundedWaiting: assumes no receive errors or interrupted receives, and polls that report a source that has messages.
- RelayRuns.Fidelity: assumes one bridge run with distinct source identifiers and at most 2^64 messages; restarted or several bridges reuse keys.
- LossReporting.LossIsReported: assumes a channel that keeps order, and fewer than 2^64 messages.
- SequenceTracker.GapAccounting: excludes numbers so late that they are taken for restarts, which `ObservationTable` says exactly, and the number 2^64 - 1, after which the code's addition wraps around.
- Reassembler.Reassembler.Add: returns the completed message as a value; that it points into a buffer that the next call overwrites is not modelled.
- Truncation.WritingStaysFaithful: payloads of 4 GiB and more, whose length field is cut to 32 bits, are excluded; the receiver never has any.
- Recording.ClosedFileHoldsWhatWasRecorded: covers one file, since the receiver never opens a second one.
- JsonRoundTrip.PrintedValueParses: numbers are integers kept as text; `%.3f` formatting and `strtod` are not modelled.
- RecordingFlag.OnRecords: assumes that no library call fails; what failures do is in `Recording` and `RecordingErrors`.
- Control.Connection.ReadEvent: writing out replies, poll deadlines, the client limit and closing the socket are not modelled.
- Control.Connection.HandleFrame: the JSON answer to a message is the reply `Answer(text)`, without its contents.
- Control.Connection.UpgradeWebsocket: the accept key (SHA-1 and base64) and the contents of greetings are not spelled out.
- Control.Connection.LoadAsset: the contents of files, and reading them from a directory instead, are not modelled.
- JsonDerivation.AcceptedIffDerived: strings are bytes; whether they are well-formed UTF-8 is checked neither by the program nor here.
* Receive budgets (`drain_udp`, `drain_commands`) and datagrams longer than the receive buffer.
* Statistics broadcasts between a client's replies, response bodies, and the browser interface.
* `telemetry.cpp`, the simulator, the CSV exporter's columns and the test publisher's patterns: field copies and floating point.
