# A verified model of the Jaeger client

The Jaeger client records spans, decides which of them to sample, carries trace contexts between processes and sends
finished spans to an agent as Thrift messages in UDP datagrams. This project models the parts of it where the order of
steps, the arithmetic or the byte layout decides whether that works, and proves what they are for. `dafny verify
dfyconfig.toml` checks all of it.

**The compact protocol and what is built on it.** `Varint` and `CompactFormat` give the wire format of the Apache Thrift
Compact Protocol (varints, zigzag, field headers with deltas and folded booleans, collection headers) as functions on
value trees, and its readers as functions on a reader state. `CompactReading` proves that every tree reads back,
`CompactSkip` and `CompactTruncation` that `Skip` passes exactly one value, when it cannot, and when it only seems to,
`GeneratedRead` that a generated `Read` loop decodes the part of a tree its struct knows, is blind to everything else
and misses no required field, `ReadTruncation` that it notices every truncation. `WireFormat` pins the bytes themselves,
type numbers, field ids and all, for the protocol, the Jaeger structs and the whole datagram. `CompactProtocol` is the
protocol object itself, with its stack, slots and buffer updated in place, proved against those functions.
`JaegerThrift` and `UdpSender` put the Jaeger structs on top: the exact size of every datagram, and the sender whose
batches fit in a packet and are as full as they can be. `THeader` is the framing transport in front of the protocol and
the recognition of the four older dialects.

**The span pipeline.** `Pipeline` is a step system: any number of goroutines that finish spans, the pool, the bounded
queue, the worker, the flush timer and `Close`, interleaved at every atomic operation. Its main results hold in every
reachable state: where each report is, what it is counted as, what each reference counter says, when a span may return
to the pool, and that `Close` drains what came before it and always finds a step that takes it further. `SenderSpec` is
the sender's buffering rule, shared with `UdpSender`. `SpanLog` is the bounded log of a span with its in-place rotation.

**Sampling.** `RateLimiter` is the token bucket and its bounds over whole runs, compared with the bucket its comment
describes; `OperationSampler` the per-operation samplers and their reconfiguration; `PrioritySampler` the bitmap changed
by compare-and-swap under any number of passes; `DelayedSampling` the shared sampling state under any interleaving of
span operations; `StartSpan` the choice of a parent and of the sampling state, and the tree of a trace.

**Contexts.** `TextContext` and `BinaryContext` are the two forms in which a context travels. `SimpleJson` and
`SimpleJsonProtocol` are the JSON writer and reader with their context stacks. `Widths`, `Digits`, `BigEndianWords`,
`MapOrder` and `Sequences` hold machine integers, the digits of numbers, network byte order, the orders a map may be
walked in, and concatenations.

Concurrency is modelled by steps: atomics, mutexes and channel operations are sequentially consistent, and a completed
compare-and-swap loop of the sampling state is one step (in `PrioritySampler` load and swap are separate steps). Clocks,
random ids, sampler answers, the network's answer and the order in which a map is walked are parameters. Credits, rates
and seconds are reals. Integers have the widths of the source, written out where wrap-around matters.

Some documented expectations turn out not to hold as they stand; the model follows the code and states what does hold:

- A text context comes back exactly when its flags byte is at most 9, because flags are printed in hexadecimal and
  parsed in decimal (`TextContext.ContextRoundTrip`).
- A text carrier does not bring back every context: baggage keys come back in lower case
  (`TextContext.KeysComeBackLower`) and a debug id is not written. The round trip holds exactly under the condition of
  `TextContext.TextMapRoundTrip`.
- `Skip` re-enters at full depth for map values and drops their errors: it succeeds on a map whose last value is too
  deep, and leaves part of that value to be read as something else (`CompactSkip.LastMapValue`). For trees whose map
  values fit, the depth limit is exact (`CompactSkip.SkipDepthExact`).
- `Skip` takes an error in a field header for the end of the struct, so some truncations and unknown types pass
  unnoticed: exactly those of `CompactTruncation.TruncationExact` and `CompactTruncation.TakenForStop`.
- The rate limiter refills only when it is short. It never grants fewer items than the documented bucket if and only if
  no two different positive costs occur (`RateLimiter.NeverFewerExactly`), and two full buckets can be granted at one
  instant (`RateLimiter.WindowBoundTight`).
- A span dropped on a full queue keeps the reference its refused send took, so it never returns to the pool
  (`Pipeline.DroppedForGood`, `Pipeline.DropHappens`).
- The 70 bytes reserved for the envelope are enough for every sequence id and span count if and only if the four
  counters take at most 36 bytes together (`UdpSender.OverheadExact`); counters in [0, 2^62) do.
- Sampling rate 0 still samples trace ids whose low 63 bits are zero (`OperationSampler.ExtremeRates`).
- A context in a text carrier wipes the debug ids in front of it, so what a carrier means depends on the order of its
  entries (`TextContext.DebugIDRule`).
- Setting `sampling.priority` to 1 and then to 0 leaves the debug flag set, as a comment in span.go warns
  (`DelayedSampling.DebugOutlivesZero`).

## Model

| member | source | states |
|---|---|---|
| Varint.DecodeEncode | thrift/compact_protocol.go:673-711 | reading what was written gives the number back and stops exactly behind it, whatever follows |
| Varint.EncodeLength | thrift/compact_protocol.go:695-711 | a number takes at most k bytes if and only if it is below 128^k, for every k >= 1 |
| Varint.WordLengths | thrift/compact_protocol.go:673-711 | an unsigned 64-bit word takes 1 to 10 bytes, a 32-bit one 1 to 5 |
| Varint.WriteVarint32 | thrift/compact_protocol.go:673-692 | the loop over the five-byte buffer stays inside it and yields the varint of the number's unsigned form |
| Varint.WriteVarint64 | thrift/compact_protocol.go:695-711 | the same with ten bytes |
| Varint.ZigzagBijection32 | thrift/compact_protocol.go:721-723 | the shift-and-xor forms of zigzag at 32 bits undo each other in both directions |
| Varint.ZigzagBijection64 | thrift/compact_protocol.go:715-717 | the same at 64 bits |
| Varint.ZigzagMagnitude64 | thrift/compact_protocol.go:715-717 | zigzag maps n to 2n and negative n to -2n-1, so small magnitudes stay small |
| Varint.NineBytes | thrift/compact_protocol.go:318-321 | a non-negative 64-bit integer takes at most nine bytes if and only if it is below 2^62 |
| Varint.RoundTripI32 | thrift/compact_protocol.go:570-577 | every int32 survives zigzag, varint and back, with any bytes behind it |
| Varint.RoundTripI64 | thrift/compact_protocol.go:580-587 | every int64 does |
| Varint.Raw32RoundTrip | thrift/compact_protocol.go:750-755 | the plain 32-bit varint brings every int32 back through the truncation of a 64-bit read |
| CompactFormat.FieldHeaderRoundTrip | thrift/compact_protocol.go:209-243 | a field header in delta or long form, folded booleans included, reads back as type, id and pending boolean, and makes the id the last one |
| CompactFormat.CollHeaderRoundTrip | thrift/compact_protocol.go:659-669 | list and set headers in short and long form read back |
| CompactFormat.MapHeaderRoundTrip | thrift/compact_protocol.go:252-263 | map headers read back, the empty one without its types |
| CompactFormat.BinaryRoundTrip | thrift/compact_protocol.go:344-354 | strings and byte arrays within the size limit read back |
| CompactFormat.MessageRoundTrip | thrift/compact_protocol.go:155-171 | a message header reads back with its name, its type cut to three bits and its sequence id |
| WireFormat.FieldStarts | thrift/compact_protocol.go:42-72 | a field header in bytes: the delta above the type number of the specification (1 to 12, a boolean's being its value), or the number and the id as a zigzag varint; then the value |
| WireFormat.CollStarts | thrift/compact_protocol.go:659-669 | a list or set: up to 14 elements are counted above the number of their type, more of them in a varint behind 15 |
| WireFormat.MapStarts | thrift/compact_protocol.go:252-263 | a map: its size, the two type numbers in one byte, keys and values in turn; an empty one is a zero |
| WireFormat.EntriesInTurn | thrift/compact_protocol.go:252-263 | of a map each key is followed by its value |
| WireFormat.NumbersRead | thrift/compact_protocol.go:428-467 | the type that each number from 1 to 12 in a header is read as, the id and the pending boolean with it |
| WireFormat.OtherNumbersRead | thrift/compact_protocol.go:428-467 | number 0 ends the struct and 13 to 15 are errors |
| WireFormat.LengthRefused | thrift/compact_protocol.go:600-607 | a string whose length is negative or over the limit is refused without taking its bytes |
| WireFormat.CollRefused | thrift/compact_protocol.go:504-528 | a list or set with a negative size or elements of an unknown type is refused, any other is not |
| WireFormat.ShortCollRefused | thrift/compact_protocol.go:504-528 | the same with its size in the first byte |
| WireFormat.MapRead | thrift/compact_protocol.go:474-496 | a map with a negative size is refused; unknown types are read as STOP |
| WireFormat.BoolRead | thrift/compact_protocol.go:545-552 | a boolean on its own is true only if its byte is 1 |
| WireFormat.MessageRead | thrift/compact_protocol.go:361-403 | a message begins with protocol id 0x82 and version 1; its type is the upper three bits of the second byte |
| WireFormat.FailuresReadZero | thrift/compact_protocol.go:545-640 | a read that fails returns zero or nothing |
| WireFormat.StructsNest | thrift/compact_protocol.go:409-425 | the end of a struct restores the field id stack and the last id as they were at its beginning; an end too many is an error |
| WireFormat.VarintDigits | thrift/compact_protocol.go:673-711 | byte k of a varint holds seven bits of the number, lowest first, and its top bit says whether there is more |
| WireFormat.ScalarBytes | thrift/compact_protocol.go:283-354 | booleans, bytes, doubles (eight bytes, lowest first) and strings on their own, byte by byte |
| WireFormat.IntegerBytes | thrift/compact_protocol.go:306-326 | wider integers are varints with the sign in the lowest bit |
| CompactReading.ValueRoundTrip | thrift/compact_protocol.go:178-638 | any value tree reads back as itself (empty maps without their types), its bytes and no others are taken, and the field stack, last field id and boolean slot are as before |
| CompactReading.FieldsRoundTrip | thrift/compact_protocol.go:196-249 | fields with ids in any order read back from any last id, ending at their stop byte |
| CompactReading.Unambiguous | thrift/compact_protocol.go:178-354 | if two values of one type start the same input they are the same but for the types of empty maps, and end at the same place |
| CompactReading.EmptyMapsCollide | thrift/compact_protocol.go:252-263 | empty maps of different types do have the same bytes |
| CompactSkip.Skip | thrift/protocol.go:92-177 | on any input whatever Skip ends, each recursion having less input or fewer elements to go, and never leaves more input than it found |
| CompactSkip.SkipExact | thrift/protocol.go:92-177 | on a value within the depth limit Skip takes exactly its bytes and leaves the protocol state as it was |
| CompactSkip.SkipDepthExact | thrift/protocol.go:92-177 | for every value whose map values are each within the full depth, Skip succeeds if and only if the value is within the depth limit; where it fails it stops inside the value |
| CompactSkip.LastMapValue | thrift/protocol.go:136-148 | Skip of a map succeeds whatever the depth of its last value; it takes exactly the map if and only if that value is within the full depth, and otherwise leaves part of it to be read as what comes next |
| CompactSkip.NothingToSkip | thrift/protocol.go:173-174 | a type that is none is an error, and nothing is taken |
| CompactTruncation.TruncationExact | thrift/protocol.go:92-177 | for every value within the depth limit and every point at which its bytes may be cut, Skip uses up the input, and fails unless the cut is one of those Unnoticed describes |
| CompactTruncation.ScalarStructCuts | thrift/protocol.go:124-135 | for a struct of scalars these are the cuts at a field boundary or inside a field header |
| CompactTruncation.MissingStop | thrift/protocol.go:124-135 | any struct without its stop byte is skipped without an error, its bytes used up and the protocol left as if it had been whole |
| CompactTruncation.TakenForStop | thrift/compact_protocol.go:428-467 | a field header is taken for the end of a struct exactly at the end of the input, at a stop byte, at a type above 12, and where the id of a long header does not end |
| CompactTruncation.UnknownTypeEndsStruct | thrift/protocol.go:124-128 | after any fields a header with an unknown type ends the struct without an error and leaves what follows in the input |
| GeneratedRead.ReadIsProjection | thrift-gen/jaeger/jaeger.go:1028-1204 | a generated Read decodes exactly the part of a tree its struct knows, takes the tree's bytes and no others, and leaves the protocol as it was |
| GeneratedRead.UnknownFieldsAreInvisible | thrift-gen/jaeger/jaeger.go:1028-1204 | putting any run of unknown fields anywhere into a struct, which changes the deltas of the ids behind it, does not change what Read decodes or where it stops |
| GeneratedRead.ProjectionDropsUnknown | thrift-gen/jaeger/jaeger.go:1028-1204 | the known part of a struct is the same with and without any run of unknown fields |
| GeneratedRead.RequiredExactly | thrift-gen/jaeger/jaeger.go:1028-1204 | a generated Read of a tree it can otherwise read fails exactly when a required field, of the type expected, is missing at some level |
| GeneratedRead.UnknownFieldDepth | thrift/protocol.go:84-90 | an unknown field stops a Read exactly if it is nested deeper than 64 levels, map values that fit aside |
| ReadTruncation.ReadNoticesTruncation | thrift-gen/jaeger/jaeger.go:1028-1204 | a generated Read fails on every truncation of a tree it could read whole, also where the cut is in a field it skips and Skip does not notice |
| ReadTruncation.MessageCut | thrift/compact_protocol.go:361-403 | a message header cut short anywhere is refused |
| CompactProtocol.TCompactProtocol.WriteFieldBegin | thrift/compact_protocol.go:196-204 | a boolean field is only remembered; any other gets its header at once |
| CompactProtocol.TCompactProtocol.WriteFieldBeginInternal | thrift/compact_protocol.go:209-243 | the header goes out in delta or long form and the id becomes the last one |
| CompactProtocol.TCompactProtocol.WriteBool | thrift/compact_protocol.go:283-297 | a remembered boolean field goes out as its header, any other boolean as a byte |
| CompactProtocol.TCompactProtocol.WriteValue | thrift/compact_protocol.go:178-354 | writing a tree appends its bytes, which do not depend on where it is nested, and leaves stack, last id and boolean slot as they were |
| CompactProtocol.TCompactProtocol.ReadVarint64 | thrift/compact_protocol.go:759-774 | the reading loop computes the number that the groups of seven bits spell |
| CompactProtocol.TCompactProtocol.ReadFieldBegin | thrift/compact_protocol.go:428-467 | the object reads headers as CompactFormat's reader does: id, type, pending boolean, errors and input left |
| CompactProtocol.TCompactProtocol.ReadBool | thrift/compact_protocol.go:545-552 | the pending boolean is taken once; without one a byte is read |
| CompactProtocol.TCompactProtocol.ReadMessageBegin | thrift/compact_protocol.go:361-403 | protocol id and version are checked, and the header is taken apart as CompactFormat describes |
| CompactProtocol.TCompactProtocol.ReadCollBegin | thrift/compact_protocol.go:504-528 | list and set headers, with their errors, as the reader function |
| CompactProtocol.TCompactProtocol.ReadMapBegin | thrift/compact_protocol.go:474-496 | map headers, with their errors, as the reader function |
| CompactProtocol.TCompactProtocol.Skip | thrift/protocol.go:92-177 | the recursive skip over the mutable protocol does what the function Skip says, state included |
| CompactProtocol.TCompactProtocol.Read | thrift-gen/jaeger/jaeger.go:1028-1204 | the generated loop over the mutable protocol does what the function Read says |
| JaegerThrift.BatchRoundTrip | thrift-gen/jaeger/jaeger.go:1960-2152 | Batch.Write then Batch.Read gives the tree that was written, spans, process, logs, tags and references included, and takes its bytes exactly |
| JaegerThrift.ArgsRoundTrip | thrift-gen/agent/agent.go:319-387 | the same for the arguments of emitBatch |
| JaegerThrift.BatchInjective | thrift-gen/jaeger/jaeger.go:2083-2152 | two batches with the same tree are the same batch |
| JaegerThrift.AssignedPresent | thrift-gen/jaeger/jaeger.go:1960-2040 | assigning the fields a struct wrote, in the order they are read, gives each member what it had, set or unset |
| JaegerThrift.RequiredMembers | thrift-gen/jaeger/jaeger.go:220-326 | a Tag cannot be read without key and type, a Log without timestamp and fields, a Process without its name, a Batch without process and spans |
| JaegerThrift.RequiredNumbers | thrift-gen/jaeger/jaeger.go:738-861 | a SpanRef and ClientStats cannot be read without any of their numbers |
| JaegerThrift.RequiredSpanMembers | thrift-gen/jaeger/jaeger.go:1028-1204 | a Span cannot be read without ids, name, flags, start and duration |
| WireFormat.TagLayout | thrift-gen/jaeger/jaeger.go:392-420 | a Tag byte by byte: key, type, and its value under the header byte of its kind |
| WireFormat.LogLayout | thrift-gen/jaeger/jaeger.go:641-660 | a Log byte by byte: timestamp and fields |
| WireFormat.RefLayout | thrift-gen/jaeger/jaeger.go:863-884 | a SpanRef byte by byte: type and three ids |
| WireFormat.SpanLayout | thrift-gen/jaeger/jaeger.go:1338-1362 | a Span byte by byte, with and without each of its lists |
| WireFormat.ProcessLayout | thrift-gen/jaeger/jaeger.go:1650-1668 | a Process byte by byte: name and tags |
| WireFormat.StatsLayout | thrift-gen/jaeger/jaeger.go:1843-1862 | ClientStats byte by byte, in the order full queue, too large, failed |
| WireFormat.StructListLayout | thrift-gen/jaeger/jaeger.go:1338-1362 | a list of structs byte by byte: its count, type number 12, and one struct after the other |
| WireFormat.BatchLayout | thrift-gen/jaeger/jaeger.go:2083-2152 | a Batch byte by byte: process, spans, sequence number, statistics |
| UdpSender.DatagramSize | transport_udp.go:29-35 | a datagram is exactly its overhead, plus the process, plus each span at its stand-alone size |
| UdpSender.OverheadBound | transport_udp.go:37 | 70 bytes are enough for every sequence id and every int32 span count while the counters are in [0, 2^62) |
| UdpSender.OverheadExact | transport_udp.go:31-37 | they are enough for all ids and counts if and only if the four counters take at most 36 bytes together |
| UdpSender.DatagramRoundTrip | thrift-gen/agent/agent.go:83-91 | an agent reads from a datagram the call, its sequence id and the batch that was sent, to the last byte |
| WireFormat.DatagramLayout | thrift-gen/agent/agent.go:83-91 | the datagram byte by byte: protocol id, version and message type, sequence id, the name emitBatch, and the batch as argument 1 |
| UdpSender.AttemptFits | utils/udp_client.go:133-144 | a batch of two or more spans under the sender's budget, or of one that shares it with the process, is within the packet size |
| UdpSender.AgentClientUdp.EmitBatch | utils/udp_client.go:133-144 | the message is the datagram of the next sequence id, refused if and only if it is longer than a packet or the network fails |
| UdpSender.UdpSender.Append | transport_udp.go:124-150 | spans leave in order, none lost or sent twice; while process, buffer and span stay below the budget nothing is sent, when they fill it exactly all go, and when they exceed it the spans before go and this one waits; every batch ever sent keeps the packet promise; the counters are those of the calls |
| UdpSender.UdpSender.Flush | transport_udp.go:152-170 | the whole buffer goes out in one batch with the next sequence number and the current counters, and the buffer is left empty |
| UdpSender.AddCounts | transport_udp.go:135-170 | the counters count, modulo 2^64 |
| UdpSender.UdpSender.CalcSizeOfSerializedThrift | transport_udp.go:118-122 | the size measured in the scratch buffer is the size of the struct's bytes |
| SenderSpec.Conservation | transport_udp.go:124-170 | one span comes in and as many as are returned go out |
| SenderSpec.ErrorExactly | transport_udp.go:124-170 | an error is returned exactly for a span too large by itself and for a batch that is refused |
| SenderSpec.BatchesFull | transport_udp.go:124-170 | over any run of appends and flushes batches and buffer are the spans in order, each once; a batch sent by an append is exactly full or the next span would not have fitted; only a batch of one exceeds the budget |
| SenderSpec.NewGathered | transport_udp.go:124-131 | a new sender that has measured its process is where such a run begins |
| Pipeline.Accounting | reporter.go:247-322 | in every reachable state: calls of Report = running + dropped + queued + in the worker's hands + left the sender and not yet counted + success + failure + in the sender's buffer |
| Pipeline.CountedByFate | reporter.go:283-322 | a span counts as a success if it left in a batch the network took, as a failure if its batch was refused or it was too large: successes and failures, with those about to be counted, are what left at such steps of the run, in order |
| Pipeline.FailuresComeFromTheNetwork | reporter.go:283-322 | with a network that takes every batch and no span too large nothing fails; with one that takes none nothing succeeds |
| Pipeline.ReportedExactly | tracer.go:439-458 | a report is made for each finished span that is sampled and for no other |
| Pipeline.DroppedOnlyWhenFull | reporter.go:247-256 | a report puts its span on the queue if and only if there is room, and drops it if and only if there is none |
| Pipeline.NobodyIsStuck | reporter.go:247-268 | in every state whoever has a span in hand can go on, a new span can be got, and Close can be called |
| Pipeline.QueueLength | reporter.go:247-299 | in every reachable state queueLength is the queue's length less the increments and plus the decrement still to come |
| Pipeline.References | span.go:405-416 | in every reachable state the counter of a span in use, plus one, is its owner's references, plus its places on the queue, plus the worker's, plus one for each time it was dropped |
| Pipeline.PutSafe | span_allocator.go:37-44 | whenever Put runs it runs for the first time since Get, with nothing on the queue or in the worker's hands, and never for a span that was dropped |
| Pipeline.NotForgotten | tracer.go:439-458 | a span whose owner is done is queued, held, on its way to the pool, or was dropped; Put and Get alternate |
| Pipeline.DroppedForGood | reporter.go:247-256 | a span dropped on a full queue is never put back in any run |
| Pipeline.DropHappens | reporter.go:247-256 | for every capacity there is a reachable state in which a dropped span is gone |
| Pipeline.SettledOnce | reporter.go:283-322 | no span is counted twice among successes and failures |
| Pipeline.CloseDrains | reporter.go:259-322 | when Close returns, every span enqueued before the close item has been counted exactly once, no later one has, and the sender is empty |
| Pipeline.CloseProgress | reporter.go:259-322 | once the close item is on the queue the worker can step until it has stopped; each of its steps but a tick brings it nearer and nobody else's takes it away |
| Pipeline.CloseCanEnter | reporter.go:259-279 | while the close item waits for room it can enter or the worker can step; each of the worker's steps but a tick works off the backlog, and only a span put on the queue adds to it |
| Pipeline.InvRun | reporter.go:247-322 | the invariant behind these is kept by every step of every run |
| SpanLog.RotateLogBuffer | span.go:272-285 | the in-place loop ends and leaves the part from the start index rotated by pos, the rest untouched |
| SpanLog.SwapStep | span.go:272-285 | one swap puts the next record in place and leaves the outlook on the rest unchanged |
| SpanLog.StoredStep | span.go:255-268 | overwriting the oldest record of a full log leaves the prefix and the latest records in ring order |
| SpanLog.TrimmedAccounts | span.go:287-307 | the log read is the history with the dropped records replaced by one summary that counts them and dates from the last of them; it has exactly maxLogs entries |
| SpanLog.Span.AppendLogNoLocking | span.go:255-268 | the log stores the whole history, as a prefix and a ring once it is full |
| SpanLog.Span.Logs | span.go:164-175 | readers get the trimmed history in a new array and the span is unchanged |
| SpanLog.Span.FixLogsIfDropped | span.go:309-315 | finishing leaves in the span what Logs would have returned |
| SpanLog.Span.FinishLogs | span.go:360-371 | bulk records come after the trimmed history, past the limit, if the span is sampled |
| RateLimiter.ReconfigurableRateLimiter.CheckCredit | utils/rate_limiter.go:69-85 | the clock is looked at only when the balance is short; new balance, tick and answer are those of Check; once the balance is no number nothing is granted |
| RateLimiter.ReconfigurableRateLimiter.Update | utils/rate_limiter.go:104-112 | the new state is that of Reconfigure; with a maximum of zero before it the balance is no number from then on |
| RateLimiter.AlwaysSound | utils/rate_limiter.go:69-112 | the balance stays between 0 and maxBalance over any run of requests and reconfigurations |
| RateLimiter.ReconfigureKeepsShare | utils/rate_limiter.go:104-112 | an update tops up at the old rate and then keeps the filled share of the bucket exactly |
| RateLimiter.RateBound | utils/rate_limiter.go:69-98 | cost granted plus balance is at most the balance before plus rate times the time to the last tick |
| RateLimiter.RateBoundFromStart | utils/rate_limiter.go:57-98 | from a new limiter: at most maxBalance plus rate times the time |
| RateLimiter.WindowBoundInRun | utils/rate_limiter.go:69-98 | while the limits stay as they are, in any window of any run at most 2 maxBalance plus rate times the window is granted |
| RateLimiter.ShareWindowInRun | utils/rate_limiter.go:69-112 | in any window of any run, reconfigurations included, what is granted is at most two full buckets plus what was earned, each item and each second measured by the limits in force at the time |
| RateLimiter.WindowBoundTight | utils/rate_limiter.go:69-98 | that bound is met: two full buckets at one instant after a pause |
| RateLimiter.LazyAtLeastDocumented | utils/rate_limiter.go:31-35 | for any stream of items of one cost, free ones aside, the limiter grants at least as many as the bucket the comment describes |
| RateLimiter.BehindStep | utils/rate_limiter.go:69-98 | the simulation between the two buckets, request by request |
| RateLimiter.NeverFewerExactly | utils/rate_limiter.go:31-35 | over every limiter and every stream with costs from a set, the limiter never grants fewer items than the documented bucket if and only if no two different positive costs are in the set |
| RateLimiter.TwoCostsDiffer | utils/rate_limiter.go:69-98 | for any two different positive costs, a limiter and a stream of four requests on which it grants two and the documented bucket three |
| RateLimiter.DroughtBound | sampler.go:210-212 | requests that are all refused are over before the price has been earned |
| RateLimiter.RateLimitingSampler.Update | sampler.go:216-220 | an unchanged rate changes nothing; a new one keeps the filled share of the bucket |
| RateLimiter.RateLimitingSampler.IsSampled | sampler.go:210-212 | every trace is charged one credit |
| OperationSampler.HigherRateSamplesMore | sampler.go:128-146 | what one rate samples every higher rate samples too |
| OperationSampler.ExtremeRates | sampler.go:144-146 | rate 1 samples every id; rate 0 exactly those whose low 63 bits are zero |
| OperationSampler.ChosenExactly | sampler.go:128-146 | a rate samples exactly the ids whose low 63 bits are at most that part of 2^63 - 1; rates beyond 0 and 1 count as 0 and 1 |
| OperationSampler.ShareSampled | sampler.go:128-146 | of the 63-bit ids a rate samples its share, to within one |
| OperationSampler.ExtraTraces | sampler.go:292-300 | over any run every id the probability chooses is sampled, and beyond those at most what the lower bound has saved up and earns |
| OperationSampler.NewSampler | sampler.go:265-272 | a new sampler decides by its clamped rate, starts with a full bucket of at least one credit, and samples the first trace |
| OperationSampler.UpdatedDecides | sampler.go:485-516 | after an update an operation has a sampler exactly if it is mentioned; it decides by the rate given last, has the new lower bound, and keeps its limiter if the bound is the same |
| OperationSampler.LowerBoundHolds | sampler.go:292-299 | whatever the ids, requests none of which is sampled are over before the lower bound has earned one credit |
| OperationSampler.PerOperationSampler.GetSamplerForOperation | sampler.go:429-452 | a known operation keeps its sampler, a new one gets its own while there is room and the default beyond |
| OperationSampler.PerOperationSampler.TrySampling | sampler.go:397-405 | only a local root span is sampled or charged; any other at most makes the sampler of its operation, and no other operation is touched |
| OperationSampler.PerOperationSampler.Update | sampler.go:492-516 | exactly the operations mentioned keep or get a sampler, at the last rate given, existing ones reset in place even if mentioned twice |
| OperationSampler.UpdateKeepsBudget | sampler.go:315-321 | what an operation had saved up survives an update, untouched or as the same share |
| PrioritySampler.SetBit | x/priority_sampler.go:40-59 | marking a sampler sets its bit and no other, in whatever word it is |
| PrioritySampler.BitmapRefinesSet | x/priority_sampler.go:34-59 | in every run the bitmap is exactly a growing set of delegates that asked not to be called again, and those who asked and are not in it are being marked |
| PrioritySampler.NeverCalledAgain | x/priority_sampler.go:139-159 | a delegate is not called by any pass that reads its bit after it was marked |
| PrioritySampler.NegativeIsFinal | x/priority_sampler.go:139-159 | a result that is neither positive nor retryable means that every delegate's bit is set |
| PrioritySampler.FirstPositiveWins | x/priority_sampler.go:139-159 | a positive answer ends the pass: it becomes the result and no other delegate is called |
| PrioritySampler.NobodyLeftOut | x/priority_sampler.go:139-159 | a pass without a positive answer has found finished or called every delegate, and asks for another pass exactly if one it called said no for now |
| PrioritySampler.PassGoesOn | x/priority_sampler.go:52-59 | a pass that is not over can always take a step, and each one brings it nearer to its end but for a swap that lost a race |
| DelayedSampling.NeverReverts | span_context.go:99-137 | final, debug and firehose stay set over any interleaving |
| DelayedSampling.StepKeeps | span_context.go:99-137 | the only step that clears sampled is the one of sampling.priority 0 |
| DelayedSampling.PositiveStands | span.go:476-496 | a positive decision stands over any run in which nobody sets the priority to 0 |
| DelayedSampling.NoConsultAfterFinal | span.go:103-130 | once the state is final, a goroutine that has not found it otherwise never calls the sampler again |
| DelayedSampling.SettledDecision | span.go:440-463 | a final state with nothing under way keeps its flags whatever ordinary operations follow |
| DelayedSampling.TagsKeptInOrder | span.go:103-130 | while the state is not final every tag that was set is on its span, in order |
| DelayedSampling.TagsOnlyGrow | span.go:193-195 | no operation moves or removes a tag |
| DelayedSampling.SetTagDecides | span.go:103-130 | every completed SetTag, but a refused priority, has written its tag or turned it down |
| DelayedSampling.AloneIsRun | span.go:103-130 | an operation left alone ends, with the effect computed by Alone |
| DelayedSampling.SetTagAlone | span.go:103-130 | SetTag undisturbed: priority, then the sampler if not final, then the tag unless the answer is a final no |
| DelayedSampling.OthersAlone | span.go:84-98 | what the other operations do undisturbed: ask the sampler, make a remote trace final, force debug and tag it, raise the firehose flag |
| DelayedSampling.FirstOperationAsks | span.go:84-98 | a new state is open: the first operation goes to the sampler |
| DelayedSampling.DebugOutlivesZero | span.go:466-475 | priority 1 then 0 leaves debug set, sampled clear and the second tag off |
| StartSpan.ChooseParent | tracer.go:221-262 | the parent is the first ChildOf or else the last reference that is not empty; the last self reference decides the context; the valid references are kept in order |
| StartSpan.Counts | tracer.go:221-223 | a reference counts if it has a trace and a span, or a debug id instead of a trace, or baggage; only the first kind is kept |
| StartSpan.StartedContext | tracer.go:270-310 | a child has its parent's trace, state and baggage and names the parent's span as its own parent; a shared span repeats its parent's ids; without a valid parent a root of a new trace is made |
| StartSpan.StartedState | tracer.go:270-310 | a new trace has an open state with debug on only if a debug id asked for it; a remote parent's state becomes final with this span as its local root; nothing else changes |
| StartSpan.ParentsLeadToRoot | tracer.go:270-310 | in any run with fresh ids a context of a state made here has no parent if and only if it is the state's local root, and from any other the parent ids lead to that root through its own trace |
| StartSpan.ItemSet | span_context.go:316-350 | setting a baggage item changes how that one reads and no other; an empty value takes it away |
| StartSpan.ExtractedContext | tracer.go:355-370 | an extracted context is remote and has a state of its own with the flags that came with it |
| StartSpan.StatesStayHome | tracer.go:270-310 | contexts that share a sampling state belong to one trace, and a state made here keeps its local root for good |
| StartSpan.OneLocalRoot | tracer.go:272-286 | a span started without a valid parent is the local root of its state from then on |
| StartSpan.OnlyLocalRoot | tracer.go:270-310 | a span started without a valid parent is a local root, and with fresh ids no span started under it has its span id, but for the other side of its RPC |
| TextContext.ContextRoundTrip | span_context.go:214-252 | a context reads back from its text, for all ids, if and only if its flags byte is at most 9 |
| TextContext.ContextInjective | span_context.go:214-223 | different contexts have different texts |
| TextContext.TraceIDRoundTrip | span_context.go:368-400 | every 128-bit trace id reads back from its 16 or 32 digits |
| TextContext.FlagsRoundTrip | span_context.go:245 | a byte printed in hexadecimal reads back in decimal if and only if it is at most 9 |
| TextContext.TraceIDForm | span_context.go:368-373 | a trace id is written in lower-case hexadecimal, 16 digits or, if its high half is not zero, 32 |
| TextContext.ContextForm | span_context.go:214-223 | the four parts between colons: trace id, span id, parent id, flags without leading zeros |
| TextContext.ContextAccepted | span_context.go:226-252 | exactly which texts are taken for a context: up to 32, 16 and 16 hexadecimal digits of either case and a decimal number up to 255 |
| TextContext.HexWrittenAgain | span_context.go:376-423 | digits of either case are read for what they are: written again they come back in lower case |
| TextContext.Inject | propagation.go:109-128 | the carrier gets the context and each baggage item under its prefixed key, and nothing else |
| TextContext.Extract | propagation.go:131-174 | the entries are absorbed one by one; a malformed context or an empty result is an error |
| TextContext.TextMapRoundTrip | propagation.go:109-174 | whatever order the entries come in, extracting what was injected gives it back if and only if its flags byte is at most 9, it has no debug id, each prefixed baggage key is lower case and no header's name, and there is a trace id or baggage |
| TextContext.KeysComeBackLower | propagation.go:139-163 | if no header is hit, the baggage keys that come back are the lower-case forms of those set, so keys that differ in case alone become one |
| TextContext.DebugIDRule | propagation.go:134-174 | of any carrier that is absorbed the debug id is that of the last debug entry behind the last context entry, and empty if there is none |
| TextContext.AbsorbsExactly | propagation.go:138-147 | extraction breaks off exactly if some context entry is malformed |
| TextContext.ExtractsExactly | propagation.go:166-173 | what was absorbed is the result unless it has no trace id, no debug id and no baggage |
| TextContext.ContextRule | propagation.go:138-147 | the context is that of the last context entry |
| TextContext.BaggageRule | propagation.go:148-163 | a baggage item has the value the last entry gives it that gives it any: its prefixed key, or the baggage header |
| TextContext.DebugIDDependsOnOrder | propagation.go:140-147 | so a context and a debug id mean different things in their two orders |
| BinaryContext.BinaryRoundTrip | propagation.go:177-290 | for any walk of the baggage, Extract after Inject gives the same context and takes exactly the bytes written if and only if there are at most 180 items and each passes the size test; else it gives nothing |
| BinaryContext.PlainLimit | propagation.go:274-279 | for keys and values short of 2^30 bytes the 32-bit size test means at most 4096 bytes together |
| BinaryContext.HeaderLayout | propagation.go:187-198 | the 33 bytes of a context: trace id high half first, span id, parent id, flags, every number with its highest byte first |
| BinaryContext.ItemLayout | propagation.go:204-212 | an item: length and text of key and value, the lengths in four bytes |
| BinaryContext.ContextLayout | propagation.go:187-212 | the context, the number of items in four bytes, the items |
| BinaryContext.CutShort | propagation.go:225-290 | a carrier cut short anywhere is refused |
| BinaryContext.NoItems | propagation.go:251-259 | a count that is not positive means no baggage |
| BinaryContext.Inject | propagation.go:177-216 | the loop writes header, count and items in the order of the walk |
| BinaryContext.Extract | propagation.go:225-290 | the loop reads as the function ReadContext, errors included |
| THeader.HeaderRoundTrip | thrift/header_transport.go:324-686 | within the frame limits, what Flush writes is read back as the same flags, sequence id, protocol, headers and body, with nothing behind the frame touched, if and only if the header section fits its 16-bit length and its strings the reader's limit |
| THeader.ParseRoundTrip | thrift/header_transport.go:414-515 | a header section that fits is found and taken apart again with any padding if its strings are within the limit, and refused otherwise |
| THeader.LongSection | thrift/header_transport.go:414-515 | of a header section that does not fit, the end is taken for body |
| THeader.PaddingEndsInfo | thrift/header_transport.go:481-511 | padding bytes end the info part, however many there are |
| THeader.DialectsApart | thrift/header_transport.go:352-394 | the leading-bytes tests exclude each other, and no legal frame length meets one for an unframed message |
| THeader.FirstBytes | thrift/header_transport.go:352-394 | the bytes each dialect is told by: 0f ff, 80 01, and 82 with version 1 |
| THeader.FrameLayout | thrift/header_transport.go:576-660 | a frame byte by byte: length, magic, flags, sequence id, header length in words, header, body |
| THeader.SectionLayout | thrift/header_transport.go:588-618 | a header section byte by byte: protocol, transforms, and the headers as counted pairs of strings |
| THeader.PaddingLayout | thrift/header_transport.go:620-630 | the section is filled up with less than four zeros to whole words |
| THeader.SectionRefused | thrift/header_transport.go:450-478 | a section that announces a transform is refused whatever follows |
| THeader.FrameCutShort | thrift/header_transport.go:362-394 | a frame cut short anywhere is refused |
| THeader.TooBigRefused | thrift/header_transport.go:362-369 | a frame over the limits, up to 2^31 bytes, is refused and not taken for another dialect |
| THeader.DialectRecognised | thrift/header_transport.go:352-394 | messages of the four dialects without headers are recognised and handed on whole |
| THeader.CompactMessageIsCompact | thrift/compact_protocol.go:155-171 | a compact message begins as the test expects |
| THeader.THeaderTransport.ReadFrame | thrift/header_transport.go:324-401 | the object ends up where FindFrame says, and only when a frame is needed |
| THeader.THeaderTransport.ParseHeaders | thrift/header_transport.go:414-515 | the loops over transforms, infos and pairs read as ParseFrame |
| THeader.THeaderTransport.Read | thrift/header_transport.go:529-566 | bytes come out of the open frame in order and the one that empties it closes it; then of the next frame that is not empty, or of the unframed message as it stands, whose end is an error |
| THeader.ReadsTheStream | thrift/header_transport.go:529-566 | a read takes the next bytes of all there is, the bodies of the frames in order and an unframed message as it stands, and leaves the rest |
| THeader.THeaderTransport.Flush | thrift/header_transport.go:576-686 | the buffer goes out whole in the frame of the peer's dialect and is empty afterwards |
| SimpleJson.NodeBack | thrift/simple_json_protocol.go:1043-1107 | a nested list of integers and booleans reads back equal at any place a value may stand, and the stack moves on by one value |
| SimpleJson.IntBack | thrift/simple_json_protocol.go:953-973 | every int64 reads back from its decimal digits |
| SimpleJson.WordsAreZero | thrift/simple_json_protocol.go:1270-1324 | NaN and a signed or unsigned Infinity are taken whole and read as the integer zero |
| SimpleJson.NumberScanned | thrift/simple_json_protocol.go:1217-1342 | exactly which texts are taken for a number: at most one point, in front of at most one exponent, and signs only first or behind it |
| SimpleJson.SignsRead | thrift/simple_json_protocol.go:953-973 | signed or unsigned digits are read as their number, kept within 64 bits |
| SimpleJson.DigitsForm | thrift/simple_json_protocol.go:681-697 | digits are written the highest first and without zeros in front |
| SimpleJson.DecimalForm | thrift/simple_json_protocol.go:681-697 | only a negative number has a sign |
| SimpleJson.NullsRead | thrift/simple_json_protocol.go:953-1107 | a null is read as zero, as false, and as a list without elements |
| SimpleJson.BeforeValue | thrift/simple_json_protocol.go:778-836 | in each context, what may come before a value and what is taken of it |
| SimpleJson.SpacesSkipped | thrift/simple_json_protocol.go:860-876 | blanks, tabs and line ends are skipped, and nothing else |
| SimpleJson.ListsAndObjects | thrift/simple_json_protocol.go:579-617 | the separators of lists and objects in turn, and where names stand |
| SimpleJson.ListOpens | thrift/simple_json_protocol.go:1064-1076 | the list header reads back and leaves the reader inside the list |
| SimpleJson.ListCloses | thrift/simple_json_protocol.go:1078-1107 | the end of a list restores the stack below it, one value on |
| SimpleJsonProtocol.TSimpleJSONProtocol.WriteNode | thrift/simple_json_protocol.go:579-763 | any nesting of lists, objects and scalars appears as its RFC 8259 text behind the separator due, and the stack is back where it was, one value on |
| SimpleJsonProtocol.TSimpleJSONProtocol.OutputPreValue | thrift/simple_json_protocol.go:579-595 | the comma or colon of the context is written; only an empty stack is an error |
| SimpleJsonProtocol.TSimpleJSONProtocol.OutputPostValue | thrift/simple_json_protocol.go:597-617 | the context on top moves on |
| SimpleJsonProtocol.TSimpleJSONProtocol.ParsePreValue | thrift/simple_json_protocol.go:778-836 | separators and ends are told apart as the reader function says |
| SimpleJsonProtocol.TSimpleJSONProtocol.ParseI64 | thrift/simple_json_protocol.go:953-973 | the number automaton over the mutable reader is the reader function |
| SimpleJsonProtocol.TSimpleJSONProtocol.ParseListEnd | thrift/simple_json_protocol.go:1078-1107 | as the reader function, nulls and errors included |
| SimpleJsonProtocol.TSimpleJSONProtocol.ReadNode | thrift/simple_json_protocol.go:1043-1107 | a reader that knows the shape, driving these calls, is the reader function of NodeBack |

## Left out

- Lengths of 2^31 bytes and more: the writers cast lengths to int32; values are assumed shorter (`Wf` with the largest
  int32, `Short`, and the like), and the readers' limit is a parameter.
- Error values and texts: a failure is a flag or `None`, with the state it leaves where the source keeps using it.
- Memory of slices: appending makes a new sequence or array; spare capacity and sharing of backing arrays are not modelled.
- Doubles are their eight bytes; no arithmetic is done on them. Float formatting in JSON and IEEE rounding of rates are not
  modelled.
- CompactFormat.ReadMessageBegin: of a name cut off by the end of the input nothing is returned; retries on timeouts are left
  out.
- CompactProtocol.TCompactProtocol.WriteValue: the driver that writes a tree is the model's; the calls it makes are the
  source's.
- JaegerThrift.BatchRoundTrip: a struct's members are told from their fields by the last one with an id, as the loop assigns
  them; strings are bytes.
- UdpSender.UdpSender.Append: building Thrift structs from a span is not modelled; the structs are given. Lock-free reads of
  the drop counter come as a parameter.
- Pipeline.Accounting: the two drop counters are one step, and so are the counter and the gauge updated after Append; the
  gauge is left out.
- Pipeline.References: each span is finished once per Get and nobody outside the client retains it.
- Pipeline.CloseDrains: closing the socket after the drain is not modelled; a second Close returns at once, as in the source.
- RateLimiter.ReconfigurableRateLimiter.Update: with a maximum of zero the balance must be sound and the clock not run back, so
  that it is zero over zero; other divisions by zero, to infinities, are not modelled.
- OperationSampler.PerOperationSampler.TrySampling: the samplers of operations are values in the map, so a sampler handed out
  just before an update that drops it is not followed further.
- PrioritySampler.BitmapRefinesSet: one trace's state; the lookup of that state in the extended context is left out.
- DelayedSampling.NeverReverts: a completed compare-and-swap loop is one step; observers, metrics and setFlags (used when a
  context is built) are left out.
- StartSpan.OnlyLocalRoot: baggage restrictions, which may refuse or shorten an item, are left out.
- StartSpan.ChooseParent: references of foreign types are logged and skipped by the source and do not appear.
- TextContext.TextMapRoundTrip: lower-casing is that of ASCII letters; URL escaping is any pair of functions that undo each
  other on the values at hand; the comma-separated baggage header is taken apart by a function given, so a baggage key whose
  entry would be taken for that header is not covered; the carrier returns keys as they were set and merges none.
- BinaryContext.ReadString: a negative length, on which the source's buffer panics, is a failure like the others.
- THeader.FindFrame: zlib transforms count as unsupported; a frame shorter than four bytes is a failure; the non-strict
  binary protocol is not recognised by the source either.
- THeader.THeaderTransport.Read: an unframed read gets as much as is left; that the connection may hand over less at a time is
  not modelled.
- THeader.HeaderRoundTrip: for frames beyond the limits see THeader.TooBigRefused; transforms other than none are excluded.
- SimpleJson.ParseI64: a fraction or exponent reads as zero, as integers do in the source; doubles and base64 are left out,
  and strings are written through a quoting function and not read.
- HTTP transport, Zipkin, sockets, the remote strategy fetcher, baggage restrictions, throttling, metrics and configuration:
  input and output or plumbing around the parts above.
- The binary Thrift protocol and the generated code beyond the named structs: they would add easier members only.
