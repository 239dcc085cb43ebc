/**
 The UDP transport: exact sizes of the emitBatch message (thrift-gen/agent/agent.go, thrift/client.go), and udpSender
 (transport_udp.go) with the agent client it writes through (utils/udp_client.go).
 */
module UdpSender {
  import opened Widths
  import opened CompactFormat
  import opened JaegerThrift
  import opened CompactProtocol
  import SenderSpec
  import Varint
  import GeneratedRead

  // ----- the datagram -----

  /** "emitBatch" */
  const EMIT_BATCH: seq<byte> := [0x65, 0x6d, 0x69, 0x74, 0x42, 0x61, 0x74, 0x63, 0x68]
  const EMIT_BATCH_OVERHEAD: int := 70

  function Datagram(seqid: int32, b: Batch): (r: seq<byte>)
  {
    MessageHeader(EMIT_BATCH, CALL, seqid) + Bytes(ArgsValue(b))
  }

  function SpanSize(s: Span): (n: nat) { |Bytes(SpanValue(s))| }

  function ProcessSize(p: Process): (n: nat) { |Bytes(ProcessValue(p))| }

  function SpansSize(spans: seq<Span>): (n: nat)
  {
    if spans == [] then 0 else SpanSize(spans[0]) + SpansSize(spans[1..])
  }

  /** Everything in the datagram that is neither the process nor a span. */
  function Overhead(seqid: int32, count: nat, seqNo: int64, stats: ClientStats): (n: nat)
  {
    23 + |Varint.Encode(Unsigned32(seqid))| + |CollHeader(STRUCT, count)| + |Varint.EncodeI64(seqNo)|
    + |Varint.EncodeI64(stats.fullQueueDropped)| + |Varint.EncodeI64(stats.tooLargeDropped)|
    + |Varint.EncodeI64(stats.failedToEmit)|
  }

  lemma NextFieldSize(fields: seq<Field>, last: int)
    requires fields != [] && fields[0].id == last + 1 && !fields[0].value.VBool?
    ensures |FieldsBytes(fields, last)| == 1 + |Bytes(fields[0].value)| + |FieldsBytes(fields[1..], fields[0].id)|
  {
  }

  lemma {:induction false} SpansBytesSize(spans: seq<Span>)
    ensures |ElemsBytes(STRUCT, SpanValues(spans))| == SpansSize(spans)
  {
    if spans != [] {
      assert SpanValues(spans)[1..] == SpanValues(spans[1..]);
      SpansBytesSize(spans[1..]);
    }
  }

  lemma StatsSize(s: ClientStats)
    ensures |Bytes(StatsValue(s))| == 4 + |Varint.EncodeI64(s.fullQueueDropped)|
                                    + |Varint.EncodeI64(s.tooLargeDropped)| + |Varint.EncodeI64(s.failedToEmit)|
  {
    hide Varint.EncodeI64;
    var f1, f2, f3 := Field(1, VI64(s.fullQueueDropped)), Field(2, VI64(s.tooLargeDropped)), Field(3, VI64(s.failedToEmit));
    PresentAll(StatsSlots(s));
    assert Present(StatsSlots(s)) == [f1, f2, f3];
    NextFieldSize([f1, f2, f3], 0);
    NextFieldSize([f2, f3], 1);
    NextFieldSize([f3], 2);
    assert [f1, f2, f3][1..] == [f2, f3] && [f2, f3][1..] == [f3] && [f3][1..] == [];
  }

  lemma BatchSize(b: Batch)
    requires b.seqNo.Some? && b.stats.Some?
    ensures |Bytes(BatchValue(b))|
         == 5 + ProcessSize(b.process) + |CollHeader(STRUCT, |b.spans|)| + SpansSize(b.spans)
            + |Varint.EncodeI64(b.seqNo.value)| + |Bytes(StatsValue(b.stats.value))|
  {
    hide Varint.EncodeI64, CollHeader, ProcessValue, StatsValue, SpanValues, SpansSize;
    var f1 := Field(1, ProcessValue(b.process));
    var f2 := Field(2, StructList(SpanValues(b.spans)));
    var f3 := Field(3, VI64(b.seqNo.value));
    var f4 := Field(4, StatsValue(b.stats.value));
    PresentAll(BatchSlots(b));
    assert Present(BatchSlots(b)) == [f1, f2, f3, f4];
    BatchFieldSizes(f1, f2, f3, f4);
    SpansBytesSize(b.spans);
  }

  lemma BatchFieldSizes(f1: Field, f2: Field, f3: Field, f4: Field)
    requires f1.id == 1 && f2.id == 2 && f3.id == 3 && f4.id == 4
    requires !f1.value.VBool? && !f2.value.VBool? && !f3.value.VBool? && !f4.value.VBool?
    ensures |FieldsBytes([f1, f2, f3, f4], 0)|
         == 5 + |Bytes(f1.value)| + |Bytes(f2.value)| + |Bytes(f3.value)| + |Bytes(f4.value)|
  {
    hide Bytes;
    NextFieldSize([f1, f2, f3, f4], 0);
    NextFieldSize([f2, f3, f4], 1);
    NextFieldSize([f3, f4], 2);
    NextFieldSize([f4], 3);
    assert [f1, f2, f3, f4][1..] == [f2, f3, f4] && [f2, f3, f4][1..] == [f3, f4] && [f3, f4][1..] == [f4];
    assert [f4][1..] == [];
  }

  /**
   The size of a datagram, exactly: the process and the spans cost in the datagram what they cost when written alone,
   wherever they are nested, and the rest is Overhead.
   */
  lemma DatagramSize(seqid: int32, b: Batch)
    requires b.seqNo.Some? && b.stats.Some?
    ensures |Datagram(seqid, b)|
         == Overhead(seqid, |b.spans|, b.seqNo.value, b.stats.value) + ProcessSize(b.process) + SpansSize(b.spans)
  {
    hide Varint.EncodeI64, CollHeader, BatchValue, StatsValue, ProcessSize, SpansSize;
    BatchSize(b);
    StatsSize(b.stats.value);
    NextFieldSize([Field(1, BatchValue(b))], 0);
    assert [Field(1, BatchValue(b))][1..] == [];
    Varint.EncodeSmall(9);
  }

  /**
   An agent reads from the datagram the call, its sequence id and the very batch that was sent, to the last byte; by
   BatchInjective two datagrams with the same bytes carry the same batch.
   */
  lemma DatagramRoundTrip(seqid: int32, b: Batch, limit: int32)
    requires 9 <= limit && Wf(ArgsValue(b), limit)
    ensures var begin := ReadMessageBegin(Reader(Datagram(seqid, b), [], 0, None, limit));
            begin.ok && begin.value == MessageBegin(EMIT_BATCH, CALL, seqid)
            && GeneratedRead.Read(ARGS, begin.st) == Got(true, ArgsValue(b), Reader([], [], 0, None, limit))
  {
    hide Wf, MessageHeader, ReadMessageBegin, GeneratedRead.Read, Bytes;
    var bytes := Bytes(ArgsValue(b));
    MessageRoundTrip(EMIT_BATCH, CALL, seqid, bytes, Reader(Datagram(seqid, b), [], 0, None, limit));
    assert bytes + [] == bytes;
    ArgsRoundTrip(b, [], Reader(bytes, [], 0, None, limit));
  }

  /** The counters that still fit nine bytes each. */
  predicate InCounterRange(seqNo: int64, stats: ClientStats)
  {
    0 <= seqNo < 0x4000_0000_0000_0000
    && 0 <= stats.fullQueueDropped < 0x4000_0000_0000_0000
    && 0 <= stats.tooLargeDropped < 0x4000_0000_0000_0000
    && 0 <= stats.failedToEmit < 0x4000_0000_0000_0000
  }

  lemma CollHeaderSize(t: TType, count: nat)
    requires count < 0x8000_0000
    ensures 1 <= |CollHeader(t, count)| <= 6
  {
    Varint.WordLengths(count);
  }

  /** emitBatchOverhead is enough for every sequence id and every span count while the counters stay below 2^62. */
  lemma OverheadBound(seqid: int32, count: nat, seqNo: int64, stats: ClientStats)
    requires count < 0x8000_0000 && InCounterRange(seqNo, stats)
    ensures Overhead(seqid, count, seqNo, stats) <= EMIT_BATCH_OVERHEAD
  {
    Varint.WordLengths(Unsigned32(seqid));
    CollHeaderSize(STRUCT, count);
    Varint.NineBytes(seqNo);
    Varint.NineBytes(stats.fullQueueDropped);
    Varint.NineBytes(stats.tooLargeDropped);
    Varint.NineBytes(stats.failedToEmit);
  }

  lemma LargestHeaders()
    ensures |Varint.Encode(Unsigned32(-1))| == 5 && |CollHeader(STRUCT, 0x7fff_ffff)| == 6
  {
  }

  /**
   The range is exact: among non-negative counters, 70 bytes are enough for every sequence id and count if and only if
   the four counters together take at most 36 bytes.
   */
  lemma OverheadExact(seqNo: int64, stats: ClientStats)
    ensures (forall seqid: int32, count: nat :: count < 0x8000_0000 ==>
               Overhead(seqid, count, seqNo, stats) <= EMIT_BATCH_OVERHEAD)
       <==> |Varint.EncodeI64(seqNo)| + |Varint.EncodeI64(stats.fullQueueDropped)|
            + |Varint.EncodeI64(stats.tooLargeDropped)| + |Varint.EncodeI64(stats.failedToEmit)| <= 36
  {
    hide Varint.EncodeI64;
    LargestHeaders();
    assert Overhead(-1, 0x7fff_ffff, seqNo, stats) == 34 + |Varint.EncodeI64(seqNo)|
      + |Varint.EncodeI64(stats.fullQueueDropped)| + |Varint.EncodeI64(stats.tooLargeDropped)|
      + |Varint.EncodeI64(stats.failedToEmit)|;
    forall seqid: int32, count: nat | count < 0x8000_0000
      ensures Overhead(seqid, count, seqNo, stats) <= Overhead(-1, 0x7fff_ffff, seqNo, stats)
    {
      Varint.WordLengths(Unsigned32(seqid));
      CollHeaderSize(STRUCT, count);
    }
  }

  // ----- what the transport accepts to carry -----

  /** Lengths that fit the int32 they are written as. */
  ghost predicate Writable(v: Value) { Wf(v, MAX_INT32) }

  lemma {:induction false} SpansWritable(spans: seq<Span>)
    requires forall s <- spans :: Writable(SpanValue(s))
    ensures WfElems(STRUCT, SpanValues(spans), MAX_INT32)
  {
    if spans != [] {
      assert SpanValues(spans)[1..] == SpanValues(spans[1..]);
      SpansWritable(spans[1..]);
    }
  }

  lemma BatchWritable(b: Batch)
    requires Writable(ProcessValue(b.process)) && (forall s <- b.spans :: Writable(SpanValue(s)))
    requires |b.spans| < 0x8000_0000 && b.seqNo.Some? && b.stats.Some?
    ensures Writable(ArgsValue(b))
  {
    hide ProcessValue, StatsValue, SpanValues;
    SpansWritable(b.spans);
    StatsWritable(b.stats.value);
    PresentWf(BatchSlots(b), MAX_INT32);
    var f := Field(1, BatchValue(b));
    assert WfField(f, MAX_INT32) && [f][1..] == [];
    assert WfFields([], MAX_INT32);
    assert WfFields([f], MAX_INT32);
  }

  lemma StatsWritable(s: ClientStats)
    ensures Writable(StatsValue(s))
  {
    PresentWf(StatsSlots(s), MAX_INT32);
  }

  // ----- the agent client -----

  /** One call of EmitBatch: the sequence id it used, and whether it returned without an error. */
  datatype Attempt = Attempt(seqid: int32, batch: Batch, accepted: bool)

  /** All the spans of the batches, in the order they were handed over. */
  ghost function Carried(attempts: seq<Attempt>): (spans: seq<Span>)
  {
    if attempts == [] then []
    else Carried(attempts[..|attempts| - 1]) + attempts[|attempts| - 1].batch.spans
  }

  lemma CarriedOneMore(attempts: seq<Attempt>, a: Attempt)
    ensures Carried(attempts + [a]) == Carried(attempts) + a.batch.spans
  {
  }

  class AgentClientUdp {
    const maxPacketSize: int
    const protocol: TCompactProtocol
    var seqId: int32
    ghost var attempts: seq<Attempt>

    constructor (maxPacketSize: int)
      ensures this.maxPacketSize == maxPacketSize && attempts == [] && fresh(protocol)
      ensures !protocol.booleanFieldPending
    {
      this.maxPacketSize := maxPacketSize;
      protocol := new TCompactProtocol(MAX_INT32);
      seqId, attempts := 0, [];
    }

    /** The message is refused when it is longer than a packet; netOk is what the socket write comes back with. */
    method EmitBatch(b: Batch, netOk: bool) returns (ok: bool)
      requires Writable(ArgsValue(b)) && !protocol.booleanFieldPending
      modifies this, protocol
      ensures !protocol.booleanFieldPending
      ensures seqId == if old(seqId) == MAX_INT32 then -0x8000_0000 else old(seqId) + 1
      ensures protocol.buf == Datagram(seqId, b)
      ensures ok == (|Datagram(seqId, b)| <= maxPacketSize && netOk)
      ensures attempts == old(attempts) + [Attempt(seqId, b, ok)]
    {
      protocol.buf := [];
      seqId := if seqId == MAX_INT32 then -0x8000_0000 else seqId + 1;
      protocol.WriteMessageBegin(EMIT_BATCH, CALL, seqId);
      assert [] + MessageHeader(EMIT_BATCH, CALL, seqId) == MessageHeader(EMIT_BATCH, CALL, seqId);
      protocol.WriteValue(ArgsValue(b));
      ok := |protocol.buf| <= maxPacketSize && netOk;
      attempts := attempts + [Attempt(seqId, b, ok)];
    }
  }

  // ----- the sender -----

  lemma {:induction false} SpansSizeAppend(spans: seq<Span>, s: Span)
    ensures SpansSize(spans + [s]) == SpansSize(spans) + SpanSize(s) && SpansSize([]) == 0
  {
    if spans == [] {
      assert [] + [s] == [s] && [s][1..] == [];
    } else {
      assert (spans + [s])[1..] == spans[1..] + [s];
      SpansSizeAppend(spans[1..], s);
    }
  }

  lemma {:induction false} CountBySize(spans: seq<Span>)
    ensures |spans| <= SpansSize(spans)
  {
    if spans != [] {
      CountBySize(spans[1..]);
      StructNotEmpty(spans[0]);
    }
  }

  lemma FieldsNotEmpty(fields: seq<Field>, last: int)
    ensures |FieldsBytes(fields, last)| >= 1
  {
  }

  lemma StructNotEmpty(s: Span)
    ensures SpanSize(s) >= 1
  {
    FieldsNotEmpty(Present(SpanSlots(s)), 0);
  }

  /** Two's-complement counters. */
  function AddInt64(x: int64, n: nat): (r: int64)
  {
    Signed64((Unsigned64(x) + n) % 0x1_0000_0000_0000_0000)
  }

  /** They count, modulo 2^64. */
  lemma AddCounts(x: int64, n: nat)
    ensures (AddInt64(x, n) - (x + n)) % 0x1_0000_0000_0000_0000 == 0
    ensures x + n < 0x8000_0000_0000_0000 ==> AddInt64(x, n) == x + n
  {
  }

  /**
   The promise about a batch that was sent: with two or more spans, or with one that shares the budget with the process,
   it fits the packet, so it fails only if the network does.
   */
  ghost predicate FitsPacket(a: Attempt, maxPacketSize: int)
  {
    var b := a.batch;
    b.seqNo.Some? && b.stats.Some? && InCounterRange(b.seqNo.value, b.stats.value)
    && (|b.spans| >= 2 || ProcessSize(b.process) + SpansSize(b.spans) <= maxPacketSize - EMIT_BATCH_OVERHEAD)
    ==> |Datagram(a.seqid, b)| <= maxPacketSize
  }

  class UdpSender {
    const client: AgentClientUdp
    const thriftProtocol: TCompactProtocol
    const maxSpanBytes: int
    var byteBufferSize: int
    var spanBuffer: seq<Span>
    var process: Option<Process>
    var processByteSize: nat
    var batchSeqNo: int64
    var tooLargeDroppedSpans: int64
    var failedToEmitSpans: int64

    ghost predicate Valid()
      reads this, client, client.protocol, thriftProtocol
    {
      Sendable() && byteBufferSize == processByteSize + SpansSize(spanBuffer)
    }

    /** Valid but for byteBufferSize, which counts one span too many while Append sends the spans before it. */
    ghost predicate Sendable()
      reads this, client, client.protocol, thriftProtocol
    {
      client.protocol != thriftProtocol
      && !client.protocol.booleanFieldPending && !thriftProtocol.booleanFieldPending
      && client.maxPacketSize <= MAX_INT32 && maxSpanBytes == client.maxPacketSize - EMIT_BATCH_OVERHEAD
      && processByteSize == (if process.Some? then ProcessSize(process.value) else 0)
      && (process.Some? ==> Writable(ProcessValue(process.value)))
      && (spanBuffer != [] ==> process.Some?)
      && (|spanBuffer| >= 2 ==> processByteSize + SpansSize(spanBuffer) <= maxSpanBytes)
      && (forall s <- spanBuffer :: SpanSize(s) <= maxSpanBytes && Writable(SpanValue(s)))
      && (forall a <- client.attempts :: FitsPacket(a, client.maxPacketSize))
    }

    /** The sender as SenderSpec describes it. */
    ghost function Abstract(): (s: SenderSpec.Sender<Span>)
      reads this
    {
      SenderSpec.Sender(maxSpanBytes, process.Some?, processByteSize, byteBufferSize, spanBuffer)
    }

    /**
     What a call of Append with a span that is not too large has done to a buffer that was `was`: while there is room the
     span waits behind the others; when it fills the budget exactly all leave; when it is over, those before it leave and
     it waits alone.
     */
    ghost predicate Gathers(processSize: nat, was: seq<Span>, span: Span, attempts: seq<Attempt>, n: nat, ok: bool)
      reads this, client
    {
      var together := processSize + SpansSize(was) + SpanSize(span);
      if together < maxSpanBytes then spanBuffer == was + [span] && client.attempts == attempts && n == 0 && ok
      else if together == maxSpanBytes then spanBuffer == [] && Sent(attempts, was + [span], n, ok)
      else
        spanBuffer == [span] && if was == [] then client.attempts == attempts && n == 0 && ok else Sent(attempts, was, n, ok)
    }

    /** One batch more has been sent, with these spans. */
    ghost predicate Sent(attempts: seq<Attempt>, spans: seq<Span>, n: nat, ok: bool)
      reads client
    {
      |client.attempts| == |attempts| + 1 && attempts <= client.attempts && n == |spans|
      && client.attempts[|attempts|].batch.spans == spans && ok == client.attempts[|attempts|].accepted
    }

    constructor (maxPacketSize: int)
      requires maxPacketSize <= MAX_INT32
      ensures Valid() && fresh(client) && fresh(client.protocol) && fresh(thriftProtocol)
      ensures Abstract() == SenderSpec.New(maxPacketSize - EMIT_BATCH_OVERHEAD) && client.attempts == []
    {
      client := new AgentClientUdp(maxPacketSize);
      thriftProtocol := new TCompactProtocol(MAX_INT32);
      maxSpanBytes := maxPacketSize - EMIT_BATCH_OVERHEAD;
      byteBufferSize, spanBuffer, process, processByteSize := 0, [], None, 0;
      batchSeqNo, tooLargeDroppedSpans, failedToEmitSpans := 0, 0, 0;
    }

    method CalcSizeOfSerializedThrift(v: Value) returns (n: nat)
      requires Writable(v) && !thriftProtocol.booleanFieldPending
      modifies thriftProtocol
      ensures n == |Bytes(v)| && !thriftProtocol.booleanFieldPending
    {
      thriftProtocol.buf := [];
      thriftProtocol.WriteValue(v);
      n := |thriftProtocol.buf|;
    }

    method InitProcess(built: Process)
      requires Valid() && Writable(ProcessValue(built))
      modifies `process, `processByteSize, `byteBufferSize, thriftProtocol
      ensures Valid() && spanBuffer == old(spanBuffer)
      ensures process == if old(process).Some? then old(process) else Some(built)
      ensures Abstract() == SenderSpec.WithProcess(old(Abstract()), ProcessSize(built))
    {
      hide FitsPacket, Bytes, SpanValue, ProcessValue, Wf;
      if process.None? {
        process := Some(built);
        processByteSize := CalcSizeOfSerializedThrift(ProcessValue(built));
        byteBufferSize := byteBufferSize + processByteSize;
      }
    }

    /**
     `built` is the process BuildJaegerProcessThrift would build from the span's tracer; it is used once. At most one
     batch goes out, and its acceptance decides the error returned.
     */
    method Append(span: Span, built: Process, droppedFromQueue: int64, netOk: bool) returns (n: nat, ok: bool)
      requires Valid() && Writable(SpanValue(span)) && Writable(ProcessValue(built))
      modifies this, client, client.protocol, thriftProtocol
      ensures Valid()
      ensures var tooLarge := SpanSize(span) > maxSpanBytes;
              Carried(client.attempts) + spanBuffer
              == Carried(old(client.attempts)) + old(spanBuffer) + (if tooLarge then [] else [span])
              && tooLargeDroppedSpans == (if tooLarge then AddInt64(old(tooLargeDroppedSpans), 1) else old(tooLargeDroppedSpans))
              && failedToEmitSpans
                 == (if ok || tooLarge then old(failedToEmitSpans) else AddInt64(old(failedToEmitSpans), n))
      ensures |client.attempts| <= |old(client.attempts)| + 1 && old(client.attempts) <= client.attempts
      ensures var accepted := |client.attempts| > |old(client.attempts)| ==> client.attempts[|client.attempts| - 1].accepted;
              SenderSpec.Outcome(n, ok, Abstract())
              == SenderSpec.Append(SenderSpec.WithProcess(old(Abstract()), ProcessSize(built)), span, SpanSize(span), accepted)
      ensures process == (if old(process).Some? then old(process) else Some(built))
      ensures SpanSize(span) > maxSpanBytes ==>
                !ok && n == 1 && client.attempts == old(client.attempts) && spanBuffer == old(spanBuffer)
      ensures SpanSize(span) <= maxSpanBytes ==>
                Gathers(ProcessSize(process.value), old(spanBuffer), span, old(client.attempts), n, ok)
    {
      hide Bytes, SpanValue, ProcessValue, Wf, FitsPacket, Carried, AddInt64;
      InitProcess(built);
      var spanSize := CalcSizeOfSerializedThrift(SpanValue(span));
      if spanSize > maxSpanBytes {
        tooLargeDroppedSpans := AddInt64(tooLargeDroppedSpans, 1);
        return 1, false;
      }
      n, ok := Buffer(span, spanSize, droppedFromQueue, netOk);
    }

    /** The rest of Append, for a span that is not too large by itself. */
    method Buffer(span: Span, spanSize: nat, droppedFromQueue: int64, netOk: bool) returns (n: nat, ok: bool)
      requires Valid() && process.Some? && Writable(SpanValue(span)) && spanSize == SpanSize(span) <= maxSpanBytes
      modifies this, client, client.protocol
      ensures Valid()
      ensures Carried(client.attempts) + spanBuffer == Carried(old(client.attempts)) + old(spanBuffer) + [span]
      ensures tooLargeDroppedSpans == old(tooLargeDroppedSpans)
      ensures failedToEmitSpans == if ok then old(failedToEmitSpans) else AddInt64(old(failedToEmitSpans), n)
      ensures |client.attempts| <= |old(client.attempts)| + 1 && old(client.attempts) <= client.attempts
      ensures var accepted := |client.attempts| > |old(client.attempts)| ==> client.attempts[|client.attempts| - 1].accepted;
              SenderSpec.Outcome(n, ok, Abstract())
              == SenderSpec.Append(old(Abstract()), span, spanSize, accepted)
      ensures process == old(process)
      ensures Gathers(ProcessSize(process.value), old(spanBuffer), span, old(client.attempts), n, ok)
    {
      hide FitsPacket, Bytes, SpanSize, SpansSize, Wf, SpanValue, ProcessValue, Carried, AddInt64;
      SpansSizeAppend(spanBuffer, span);
      SpansSizeAppend([], span);
      assert [] + [span] == [span];
      byteBufferSize := byteBufferSize + spanSize;
      if byteBufferSize <= maxSpanBytes {
        spanBuffer := spanBuffer + [span];
        if byteBufferSize < maxSpanBytes { return 0, true; }
        n, ok := Flush(droppedFromQueue, netOk);
        return;
      }
      // over budget: what was there before goes out, and this span opens the next batch
      n, ok := Flush(droppedFromQueue, netOk);
      spanBuffer := spanBuffer + [span];
      byteBufferSize := spanSize + processByteSize;
    }

    method Flush(droppedFromQueue: int64, netOk: bool) returns (n: nat, ok: bool)
      requires Sendable()
      modifies this, client, client.protocol
      ensures Sendable() && (byteBufferSize == if old(spanBuffer) == [] then old(byteBufferSize) else processByteSize)
      ensures spanBuffer == [] && process == old(process)
      ensures Carried(client.attempts) == Carried(old(client.attempts)) + old(spanBuffer)
      ensures old(spanBuffer) == [] ==>
                client.attempts == old(client.attempts) && batchSeqNo == old(batchSeqNo)
      ensures old(spanBuffer) != [] ==>
                batchSeqNo == AddInt64(old(batchSeqNo), 1)
                && client.seqId == (if old(client.seqId) == MAX_INT32 then -0x8000_0000 else old(client.seqId) + 1)
                && client.attempts == old(client.attempts)
                   + [Attempt(client.seqId,
                              Batch(old(process).value, old(spanBuffer), Some(batchSeqNo),
                                    Some(ClientStats(droppedFromQueue, tooLargeDroppedSpans, old(failedToEmitSpans)))), ok)]
      ensures tooLargeDroppedSpans == old(tooLargeDroppedSpans)
      ensures failedToEmitSpans == if ok then old(failedToEmitSpans) else AddInt64(old(failedToEmitSpans), n)
      ensures |client.attempts| <= |old(client.attempts)| + 1 && old(client.attempts) <= client.attempts
      ensures var accepted := |client.attempts| > |old(client.attempts)| ==> client.attempts[|client.attempts| - 1].accepted;
              SenderSpec.Outcome(n, ok, Abstract()) == SenderSpec.Flush(old(Abstract()), accepted)
    {
      hide FitsPacket, Bytes, SpanSize, SpansSize, Wf, SpanValue, ProcessValue, Carried, AddInt64;
      n := |spanBuffer|;
      if n == 0 { return 0, true; }
      batchSeqNo := AddInt64(batchSeqNo, 1);
      var batch := Batch(process.value, spanBuffer, Some(batchSeqNo),
                         Some(ClientStats(droppedFromQueue, tooLargeDroppedSpans, failedToEmitSpans)));
      BufferCount();
      BatchWritable(batch);
      ok := client.EmitBatch(batch, netOk);
      CarriedOneMore(old(client.attempts), Attempt(client.seqId, batch, ok));
      AttemptFits(client.seqId, batch, ok, client.maxPacketSize);
      ResetBuffers();
      if !ok {
        failedToEmitSpans := AddInt64(failedToEmitSpans, n);
      }
    }

    method ResetBuffers()
      modifies `spanBuffer, `byteBufferSize
      ensures spanBuffer == [] && byteBufferSize == processByteSize
    {
      spanBuffer := [];
      byteBufferSize := processByteSize;
    }

    lemma BufferCount()
      requires Sendable()
      ensures |spanBuffer| < 0x8000_0000
    {
      CountBySize(spanBuffer);
    }
  }

  lemma AttemptFits(seqid: int32, b: Batch, accepted: bool, maxPacketSize: int)
    requires b.seqNo.Some? && b.stats.Some? && |b.spans| < 0x8000_0000
    requires |b.spans| >= 2 ==> ProcessSize(b.process) + SpansSize(b.spans) <= maxPacketSize - EMIT_BATCH_OVERHEAD
    ensures FitsPacket(Attempt(seqid, b, accepted), maxPacketSize)
  {
    hide Overhead, Datagram, ProcessSize, SpansSize;
    DatagramSize(seqid, b);
    if InCounterRange(b.seqNo.value, b.stats.value) {
      OverheadBound(seqid, |b.spans|, b.seqNo.value, b.stats.value);
    }
  }
}
