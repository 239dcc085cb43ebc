/**
 The Jaeger structs of thrift-gen/jaeger/jaeger.go that travel to the agent: the value tree each Write method drives,
 the schema each Read method follows, and the round trip of a whole batch.
 */
module JaegerThrift {
  import opened Widths
  import opened CompactFormat
  import opened GeneratedRead

  // ----- the structs -----

  datatype Tag = Tag(
    key: seq<byte>, vType: int32, vStr: Option<seq<byte>>, vDouble: Option<uint64>, vBool: Option<bool>,
    vLong: Option<int64>, vBinary: Option<seq<byte>>)

  datatype Log = Log(timestamp: int64, fields: seq<Tag>)

  datatype SpanRef = SpanRef(refType: int32, traceIdLow: int64, traceIdHigh: int64, spanId: int64)

  datatype Span = Span(
    traceIdLow: int64, traceIdHigh: int64, spanId: int64, parentSpanId: int64, operationName: seq<byte>,
    references: Option<seq<SpanRef>>, flags: int32, startTime: int64, duration: int64,
    tags: Option<seq<Tag>>, logs: Option<seq<Log>>)

  datatype Process = Process(serviceName: seq<byte>, tags: Option<seq<Tag>>)

  datatype ClientStats = ClientStats(fullQueueDropped: int64, tooLargeDropped: int64, failedToEmit: int64)

  datatype Batch = Batch(process: Process, spans: seq<Span>, seqNo: Option<int64>, stats: Option<ClientStats>)

  // ----- Write: fields in id order, unset ones left out -----

  datatype Slot = Slot(id: int16, value: Option<Value>)

  function Present(slots: seq<Slot>): (r: seq<Field>)
    ensures |r| <= |slots|
  {
    if slots == [] then []
    else (if slots[0].value.Some? then [Field(slots[0].id, slots[0].value.value)] else []) + Present(slots[1..])
  }

  lemma PresentAll(slots: seq<Slot>)
    requires forall i | 0 <= i < |slots| :: slots[i].value.Some?
    ensures |Present(slots)| == |slots|
    ensures forall i | 0 <= i < |slots| :: Present(slots)[i] == Field(slots[i].id, slots[i].value.value)
  {
  }

  lemma {:induction false} PresentWf(slots: seq<Slot>, limit: int32)
    requires forall i | 0 <= i < |slots| :: slots[i].value.Some? ==> Wf(slots[i].value.value, limit)
    ensures WfFields(Present(slots), limit)
  {
    if slots != [] {
      PresentWf(slots[1..], limit);
      if slots[0].value.Some? {
        var fields := Present(slots);
        assert fields[0] == Field(slots[0].id, slots[0].value.value) && fields[1..] == Present(slots[1..]);
        assert WfField(fields[0], limit);
      } else {
        assert Present(slots) == Present(slots[1..]);
      }
    }
  }

  function StructList(elems: seq<Value>): (v: Value) { VColl(false, STRUCT, elems) }

  function Lift<T>(x: Option<T>, f: T -> Value): (r: Option<Value>)
    ensures r.Some? == x.Some?
    ensures x.Some? ==> r.value == f(x.value)
  {
    if x.Some? then Some(f(x.value)) else None
  }

  function TagSlots(t: Tag): (r: seq<Slot>)
  {
    [Slot(1, Some(VBinary(t.key))), Slot(2, Some(VI32(t.vType))), Slot(3, Lift(t.vStr, x => VBinary(x))),
     Slot(4, Lift(t.vDouble, x => VDouble(x))), Slot(5, Lift(t.vBool, x => VBool(x))),
     Slot(6, Lift(t.vLong, x => VI64(x))), Slot(7, Lift(t.vBinary, x => VBinary(x)))]
  }

  function TagValue(t: Tag): (v: Value)
    ensures v.VStruct?
  {
    VStruct(Present(TagSlots(t)))
  }

  function TagValues(ts: seq<Tag>): (r: seq<Value>)
    ensures |r| == |ts| && forall i | 0 <= i < |ts| :: r[i] == TagValue(ts[i])
  {
    if ts == [] then [] else [TagValue(ts[0])] + TagValues(ts[1..])
  }

  function LogSlots(l: Log): (r: seq<Slot>)
  {
    [Slot(1, Some(VI64(l.timestamp))), Slot(2, Some(StructList(TagValues(l.fields))))]
  }

  function LogValue(l: Log): (v: Value)
    ensures v.VStruct?
  {
    VStruct(Present(LogSlots(l)))
  }

  function LogValues(ls: seq<Log>): (r: seq<Value>)
    ensures |r| == |ls| && forall i | 0 <= i < |ls| :: r[i] == LogValue(ls[i])
  {
    if ls == [] then [] else [LogValue(ls[0])] + LogValues(ls[1..])
  }

  function RefSlots(s: SpanRef): (r: seq<Slot>)
  {
    [Slot(1, Some(VI32(s.refType))), Slot(2, Some(VI64(s.traceIdLow))), Slot(3, Some(VI64(s.traceIdHigh))),
     Slot(4, Some(VI64(s.spanId)))]
  }

  function RefValue(s: SpanRef): (v: Value)
    ensures v.VStruct?
  {
    VStruct(Present(RefSlots(s)))
  }

  function RefValues(ss: seq<SpanRef>): (r: seq<Value>)
    ensures |r| == |ss| && forall i | 0 <= i < |ss| :: r[i] == RefValue(ss[i])
  {
    if ss == [] then [] else [RefValue(ss[0])] + RefValues(ss[1..])
  }

  function SpanSlots(s: Span): (r: seq<Slot>)
    ensures |r| == 11
  {
    [Slot(1, Some(VI64(s.traceIdLow))), Slot(2, Some(VI64(s.traceIdHigh))), Slot(3, Some(VI64(s.spanId))),
     Slot(4, Some(VI64(s.parentSpanId))), Slot(5, Some(VBinary(s.operationName))),
     Slot(6, Lift(s.references, x => StructList(RefValues(x)))), Slot(7, Some(VI32(s.flags))),
     Slot(8, Some(VI64(s.startTime))), Slot(9, Some(VI64(s.duration))),
     Slot(10, Lift(s.tags, x => StructList(TagValues(x)))), Slot(11, Lift(s.logs, x => StructList(LogValues(x))))]
  }

  function SpanValue(s: Span): (v: Value)
    ensures v.VStruct?
  {
    VStruct(Present(SpanSlots(s)))
  }

  function SpanValues(ss: seq<Span>): (r: seq<Value>)
    ensures |r| == |ss| && forall i | 0 <= i < |ss| :: r[i] == SpanValue(ss[i])
  {
    if ss == [] then [] else [SpanValue(ss[0])] + SpanValues(ss[1..])
  }

  function ProcessSlots(p: Process): (r: seq<Slot>)
  {
    [Slot(1, Some(VBinary(p.serviceName))), Slot(2, Lift(p.tags, x => StructList(TagValues(x))))]
  }

  function ProcessValue(p: Process): (v: Value)
    ensures v.VStruct?
  {
    VStruct(Present(ProcessSlots(p)))
  }

  function StatsSlots(s: ClientStats): (r: seq<Slot>)
  {
    [Slot(1, Some(VI64(s.fullQueueDropped))), Slot(2, Some(VI64(s.tooLargeDropped))), Slot(3, Some(VI64(s.failedToEmit)))]
  }

  function StatsValue(s: ClientStats): (v: Value)
    ensures v.VStruct?
  {
    VStruct(Present(StatsSlots(s)))
  }

  function BatchSlots(b: Batch): (r: seq<Slot>)
  {
    [Slot(1, Some(ProcessValue(b.process))), Slot(2, Some(StructList(SpanValues(b.spans)))),
     Slot(3, Lift(b.seqNo, x => VI64(x))), Slot(4, Lift(b.stats, x => StatsValue(x)))]
  }

  function BatchValue(b: Batch): (v: Value)
    ensures v.VStruct?
  {
    VStruct(Present(BatchSlots(b)))
  }

  // ----- Read: the schemas -----

  const TAG := StructOf(map[1 := Leaf(STRING), 2 := Leaf(I32), 3 := Leaf(STRING), 4 := Leaf(DOUBLE), 5 := Leaf(BOOL),
                            6 := Leaf(I64), 7 := Leaf(STRING)], {1, 2})
  const LOG := StructOf(map[1 := Leaf(I64), 2 := ListOf(TAG)], {1, 2})
  const SPAN_REF := StructOf(map[1 := Leaf(I32), 2 := Leaf(I64), 3 := Leaf(I64), 4 := Leaf(I64)], {1, 2, 3, 4})
  const SPAN := StructOf(map[1 := Leaf(I64), 2 := Leaf(I64), 3 := Leaf(I64), 4 := Leaf(I64), 5 := Leaf(STRING),
                             6 := ListOf(SPAN_REF), 7 := Leaf(I32), 8 := Leaf(I64), 9 := Leaf(I64),
                             10 := ListOf(TAG), 11 := ListOf(LOG)], {1, 2, 3, 4, 5, 7, 8, 9})
  const PROCESS := StructOf(map[1 := Leaf(STRING), 2 := ListOf(TAG)], {1})
  const CLIENT_STATS := StructOf(map[1 := Leaf(I64), 2 := Leaf(I64), 3 := Leaf(I64)], {1, 2, 3})
  /** AgentEmitBatchArgs (thrift-gen/agent/agent.go). */
  const ARGS := StructOf(map[1 := BATCH], {})
  const BATCH := StructOf(map[1 := PROCESS, 2 := ListOf(SPAN), 3 := Leaf(I64), 4 := CLIENT_STATS], {1, 2})

  // ----- what a Read leaves in the struct's members -----

  /** Fields are assigned in the order they are read, so the last one with an id stays. */
  function Assigned(fields: seq<Field>, id: int16): (r: Option<Value>)
  {
    if fields == [] then None
    else
      var later := Assigned(fields[1..], id);
      if later.Some? then later else if fields[0].id == id then Some(fields[0].value) else None
  }

  ghost predicate Distinct(slots: seq<Slot>)
  {
    forall i, j | 0 <= i < j < |slots| :: slots[i].id != slots[j].id
  }

  lemma {:induction false} AssignedAbsent(slots: seq<Slot>, id: int16)
    requires forall i | 0 <= i < |slots| :: slots[i].id != id
    ensures Assigned(Present(slots), id) == None
  {
    if slots != [] {
      AssignedAbsent(slots[1..], id);
      if slots[0].value.Some? {
        assert Present(slots)[1..] == Present(slots[1..]);
      } else {
        assert Present(slots) == Present(slots[1..]);
      }
    }
  }

  /** Every member gets back what was written, set or unset. */
  lemma {:induction false} AssignedPresent(slots: seq<Slot>, i: nat)
    requires Distinct(slots) && i < |slots|
    ensures Assigned(Present(slots), slots[i].id) == slots[i].value
  {
    if slots[0].value.Some? {
      assert Present(slots)[1..] == Present(slots[1..]);
    } else {
      assert Present(slots) == Present(slots[1..]);
    }
    if i == 0 {
      AssignedAbsent(slots[1..], slots[0].id);
    } else {
      AssignedPresent(slots[1..], i - 1);
    }
  }

  // ----- a written struct conforms to its schema and has nothing unknown in it -----

  ghost predicate Exact(s: Schema, v: Value)
  {
    Conforms(s, v) && Project(s, v) == v
  }

  ghost predicate SlotExact(s: Schema, slot: Slot)
    requires s.StructOf?
  {
    slot.value.Some? ==>
      Known(s, slot.id, TypeOf(slot.value.value)) && Exact(s.slots[slot.id], slot.value.value)
  }

  ghost predicate Covers(slots: seq<Slot>, required: set<int16>)
  {
    forall id <- required :: exists i :: 0 <= i < |slots| && slots[i].id == id && slots[i].value.Some?
  }

  lemma {:induction false} PresentExact(s: Schema, slots: seq<Slot>)
    requires s.StructOf? && forall i | 0 <= i < |slots| :: SlotExact(s, slots[i])
    ensures FieldsConform(s, Present(slots)) && ProjectFields(s, Present(slots)) == Present(slots)
  {
    if slots != [] {
      PresentExact(s, slots[1..]);
      if slots[0].value.Some? {
        var fields := Present(slots);
        assert fields[0] == Field(slots[0].id, slots[0].value.value) && fields[1..] == Present(slots[1..]);
      } else {
        assert Present(slots) == Present(slots[1..]);
      }
    }
  }

  lemma {:induction false} PresentId(slots: seq<Slot>, i: nat)
    requires i < |slots| && slots[i].value.Some?
    ensures slots[i].id in Ids(Present(slots))
  {
    if i == 0 {
      assert Present(slots)[0].id == slots[0].id;
    } else {
      PresentId(slots[1..], i - 1);
      var k :| 0 <= k < |Present(slots[1..])| && Present(slots[1..])[k].id == slots[i].id;
      var shift := if slots[0].value.Some? then 1 else 0;
      assert Present(slots)[k + shift] == Present(slots[1..])[k];
    }
  }

  lemma StructExact(s: Schema, slots: seq<Slot>)
    requires s.StructOf? && (forall i | 0 <= i < |slots| :: SlotExact(s, slots[i])) && Covers(slots, s.required)
    ensures Exact(s, VStruct(Present(slots)))
  {
    PresentExact(s, slots);
    forall id <- s.required ensures id in Ids(Present(slots)) {
      var i :| 0 <= i < |slots| && slots[i].id == id && slots[i].value.Some?;
      PresentId(slots, i);
    }
  }

  lemma {:induction false} ElemsExact(s: Schema, elems: seq<Value>)
    requires forall i | 0 <= i < |elems| :: Exact(s, elems[i])
    ensures ElemsConform(s, elems) && ProjectElems(s, elems) == elems
  {
    if elems != [] {
      assert forall i | 0 <= i < |elems[1..]| :: elems[1..][i] == elems[i + 1];
      ElemsExact(s, elems[1..]);
    }
  }

  lemma ListExact(s: Schema, elems: seq<Value>)
    requires forall i | 0 <= i < |elems| :: Exact(s, elems[i])
    ensures Exact(ListOf(s), StructList(elems))
  {
    ElemsExact(s, elems);
  }

  lemma TagExact(t: Tag)
    ensures Exact(TAG, TagValue(t))
  {
    var slots := TagSlots(t);
    assert slots[0].id == 1 && slots[1].id == 2;
    StructExact(TAG, slots);
  }

  lemma TagListExact(ts: seq<Tag>)
    ensures Exact(ListOf(TAG), StructList(TagValues(ts)))
  {
    forall i | 0 <= i < |ts| ensures Exact(TAG, TagValues(ts)[i]) { TagExact(ts[i]); }
    ListExact(TAG, TagValues(ts));
  }

  lemma LogExact(l: Log)
    ensures Exact(LOG, LogValue(l))
  {
    var slots := LogSlots(l);
    TagListExact(l.fields);
    assert slots[0].id == 1 && slots[1].id == 2;
    StructExact(LOG, slots);
  }

  lemma RefExact(r: SpanRef)
    ensures Exact(SPAN_REF, RefValue(r))
  {
    var slots := RefSlots(r);
    assert slots[0].id == 1 && slots[1].id == 2 && slots[2].id == 3 && slots[3].id == 4;
    StructExact(SPAN_REF, slots);
  }

  lemma RefListExact(rs: seq<SpanRef>)
    ensures Exact(ListOf(SPAN_REF), StructList(RefValues(rs)))
  {
    forall i | 0 <= i < |rs| ensures Exact(SPAN_REF, RefValues(rs)[i]) { RefExact(rs[i]); }
    ListExact(SPAN_REF, RefValues(rs));
  }

  lemma LogListExact(ls: seq<Log>)
    ensures Exact(ListOf(LOG), StructList(LogValues(ls)))
  {
    forall i | 0 <= i < |ls| ensures Exact(LOG, LogValues(ls)[i]) { LogExact(ls[i]); }
    ListExact(LOG, LogValues(ls));
  }

  lemma SpanListExact(ss: seq<Span>)
    ensures Exact(ListOf(SPAN), StructList(SpanValues(ss)))
  {
    forall i | 0 <= i < |ss| ensures Exact(SPAN, SpanValues(ss)[i]) { SpanExact(ss[i]); }
    ListExact(SPAN, SpanValues(ss));
  }

  lemma LeafExact(t: TType, v: Value)
    requires Scalar(t) && TypeOf(v) == t
    ensures Exact(Leaf(t), v)
  {
  }

  lemma SpanExact(s: Span)
    ensures Exact(SPAN, SpanValue(s))
  {
    hide SlotExact, SpanSlots, Exact;
    SpanCovers(s);
    SpanScalarsExact(s);
    SpanListsExact(s);
    StructExact(SPAN, SpanSlots(s));
  }

  lemma LeafSlotExact(s: Schema, slot: Slot)
    requires s.StructOf? && slot.value.Some? && slot.id in s.slots
    requires s.slots[slot.id] == Leaf(TypeOf(slot.value.value)) && Scalar(TypeOf(slot.value.value))
    ensures SlotExact(s, slot)
  {
    LeafExact(TypeOf(slot.value.value), slot.value.value);
  }

  lemma ScalarSlotsExact(schema: Schema, s: Span)
    requires schema.StructOf? && {1, 2, 3, 4, 5, 7, 8, 9} <= schema.slots.Keys
    requires forall id: int16 | id in {1, 2, 3, 4, 8, 9} :: schema.slots[id] == Leaf(I64)
    requires schema.slots[5] == Leaf(STRING) && schema.slots[7] == Leaf(I32)
    ensures forall i | 0 <= i < 9 && i != 5 :: SlotExact(schema, SpanSlots(s)[i])
  {
    var slots := SpanSlots(s);
    forall i | 0 <= i < 9 && i != 5 ensures SlotExact(schema, slots[i]) {
      hide Exact;
      LeafExact(TypeOf(slots[i].value.value), slots[i].value.value);
    }
  }

  lemma SpanScalarsExact(s: Span)
    ensures forall i | 0 <= i < 9 && i != 5 :: SlotExact(SPAN, SpanSlots(s)[i])
  {
    ScalarSlotsExact(SPAN, s);
    hide SlotExact, SpanSlots;
  }

  lemma SpanListsExact(s: Span)
    ensures var slots := SpanSlots(s);
            SlotExact(SPAN, slots[5]) && SlotExact(SPAN, slots[9]) && SlotExact(SPAN, slots[10])
  {
    hide Exact, TagValues, RefValues, LogValues;
    if s.references.Some? { RefListExact(s.references.value); }
    if s.tags.Some? { TagListExact(s.tags.value); }
    if s.logs.Some? { LogListExact(s.logs.value); }
    SpanListTypes();
  }

  lemma SpanListTypes()
    ensures forall id: int16 | id in {6, 10, 11} :: Known(SPAN, id, LIST)
    ensures SPAN.slots[6] == ListOf(SPAN_REF) && SPAN.slots[10] == ListOf(TAG) && SPAN.slots[11] == ListOf(LOG)
  {
  }

  lemma SpanCovers(s: Span)
    ensures Covers(SpanSlots(s), SPAN.required)
  {
    var slots := SpanSlots(s);
    assert slots[0].id == 1 && slots[1].id == 2 && slots[2].id == 3 && slots[3].id == 4;
    assert slots[4].id == 5 && slots[6].id == 7 && slots[7].id == 8 && slots[8].id == 9;
  }

  lemma ProcessExact(p: Process)
    ensures Exact(PROCESS, ProcessValue(p))
  {
    var slots := ProcessSlots(p);
    if p.tags.Some? { TagListExact(p.tags.value); }
    assert slots[0].id == 1;
    StructExact(PROCESS, slots);
  }

  lemma StatsExact(s: ClientStats)
    ensures Exact(CLIENT_STATS, StatsValue(s))
  {
    var slots := StatsSlots(s);
    assert slots[0].id == 1 && slots[1].id == 2 && slots[2].id == 3;
    StructExact(CLIENT_STATS, slots);
  }

  lemma BatchExact(b: Batch)
    ensures Exact(BATCH, BatchValue(b))
  {
    hide Exact, ProcessValue, SpanValues, StatsValue;
    var slots := BatchSlots(b);
    BatchMemberExact(b);
    assert slots[0].id == 1 && slots[1].id == 2;
    StructExact(BATCH, slots);
  }

  lemma BatchStructsExact(b: Batch)
    ensures var slots := BatchSlots(b);
            SlotExact(BATCH, slots[0]) && SlotExact(BATCH, slots[1]) && SlotExact(BATCH, slots[3])
  {
    hide Exact, ProcessValue, SpanValues, StatsValue;
    ProcessExact(b.process);
    SpanListExact(b.spans);
    if b.stats.Some? { StatsExact(b.stats.value); }
  }

  lemma BatchMemberExact(b: Batch)
    ensures forall i | 0 <= i < 4 :: SlotExact(BATCH, BatchSlots(b)[i])
  {
    BatchStructsExact(b);
    if b.seqNo.Some? { LeafSlotExact(BATCH, BatchSlots(b)[2]); }
    hide SlotExact, ProcessValue, SpanValues, StatsValue;
  }

  /**
   Batch.Write followed by Batch.Read: the reader accepts, gets the very tree that was written, and consumes its bytes
   and no others.
   */
  lemma BatchRoundTrip(b: Batch, rest: seq<byte>, st: Reader)
    requires Wf(BatchValue(b), st.limit) && st.pending == None
    requires st.input == Bytes(BatchValue(b)) + rest
    ensures Read(BATCH, st) == Got(true, BatchValue(b), st.(input := rest))
  {
    BatchExact(b);
    ReadIsProjection(BATCH, BatchValue(b), rest, st);
  }

  function ArgsSlots(b: Batch): (slots: seq<Slot>) { [Slot(1, Some(BatchValue(b)))] }

  function ArgsValue(b: Batch): (v: Value) { VStruct([Field(1, BatchValue(b))]) }

  lemma ArgsExact(b: Batch)
    ensures Exact(ARGS, ArgsValue(b))
  {
    hide Exact, BatchValue;
    BatchExact(b);
    var slots := ArgsSlots(b);
    PresentAll(slots);
    assert Present(slots) == [Field(1, BatchValue(b))];
    assert SlotExact(ARGS, slots[0]);
    StructExact(ARGS, slots);
  }

  /** AgentEmitBatchArgs.Write followed by Read. */
  lemma ArgsRoundTrip(b: Batch, rest: seq<byte>, st: Reader)
    requires Wf(ArgsValue(b), st.limit) && st.pending == None
    requires st.input == Bytes(ArgsValue(b)) + rest
    ensures Read(ARGS, st) == Got(true, ArgsValue(b), st.(input := rest))
  {
    ArgsExact(b);
    ReadIsProjection(ARGS, ArgsValue(b), rest, st);
  }

  // ----- the tree determines the structs -----

  lemma TagInjective(t: Tag, u: Tag)
    requires TagValue(t) == TagValue(u)
    ensures t == u
  {
    hide Present;
    var a, b := TagSlots(t), TagSlots(u);
    SameSlots(a, b);
    assert a[0].value == b[0].value && a[1].value == b[1].value && a[2].value == b[2].value;
    assert a[3].value == b[3].value && a[4].value == b[4].value && a[5].value == b[5].value;
    assert a[6].value == b[6].value;
  }

  lemma TagsInjective(ts: seq<Tag>, us: seq<Tag>)
    requires TagValues(ts) == TagValues(us)
    ensures ts == us
  {
    forall i | 0 <= i < |ts| ensures ts[i] == us[i] {
      assert TagValues(ts)[i] == TagValues(us)[i];
      TagInjective(ts[i], us[i]);
    }
  }

  lemma LogInjective(l: Log, m: Log)
    requires LogValue(l) == LogValue(m)
    ensures l == m
  {
    AssignedPresent(LogSlots(l), 0);
    AssignedPresent(LogSlots(m), 0);
    AssignedPresent(LogSlots(l), 1);
    AssignedPresent(LogSlots(m), 1);
    assert LogSlots(l)[0].value == LogSlots(m)[0].value && LogSlots(l)[1].value == LogSlots(m)[1].value;
    TagsInjective(l.fields, m.fields);
  }

  lemma RefInjective(r: SpanRef, q: SpanRef)
    requires RefValue(r) == RefValue(q)
    ensures r == q
  {
    hide Present;
    var a, b := RefSlots(r), RefSlots(q);
    SameSlots(a, b);
    assert a[0].value == b[0].value && a[1].value == b[1].value && a[2].value == b[2].value && a[3].value == b[3].value;
  }

  lemma RefsInjective(rs: seq<SpanRef>, qs: seq<SpanRef>)
    requires RefValues(rs) == RefValues(qs)
    ensures rs == qs
  {
    forall i | 0 <= i < |rs| ensures rs[i] == qs[i] {
      assert RefValues(rs)[i] == RefValues(qs)[i];
      RefInjective(rs[i], qs[i]);
    }
  }

  lemma LogsInjective(ls: seq<Log>, ms: seq<Log>)
    requires LogValues(ls) == LogValues(ms)
    ensures ls == ms
  {
    forall i | 0 <= i < |ls| ensures ls[i] == ms[i] {
      assert LogValues(ls)[i] == LogValues(ms)[i];
      LogInjective(ls[i], ms[i]);
    }
  }

  lemma SpanInjective(s: Span, t: Span)
    requires SpanValue(s) == SpanValue(t)
    ensures s == t
  {
    hide Present;
    var a, b := SpanSlots(s), SpanSlots(t);
    SameSlots(a, b);
    assert a[0].value == b[0].value && a[1].value == b[1].value && a[2].value == b[2].value && a[3].value == b[3].value;
    assert a[4].value == b[4].value && a[5].value == b[5].value && a[6].value == b[6].value && a[7].value == b[7].value;
    assert a[8].value == b[8].value && a[9].value == b[9].value && a[10].value == b[10].value;
    if s.references.Some? { RefsInjective(s.references.value, t.references.value); }
    if s.tags.Some? { TagsInjective(s.tags.value, t.tags.value); }
    if s.logs.Some? { LogsInjective(s.logs.value, t.logs.value); }
  }

  lemma ProcessInjective(p: Process, q: Process)
    requires ProcessValue(p) == ProcessValue(q)
    ensures p == q
  {
    hide Present;
    var a, b := ProcessSlots(p), ProcessSlots(q);
    SameSlots(a, b);
    assert a[0].value == b[0].value && a[1].value == b[1].value;
    if p.tags.Some? { TagsInjective(p.tags.value, q.tags.value); }
  }

  lemma StatsInjective(s: ClientStats, t: ClientStats)
    requires StatsValue(s) == StatsValue(t)
    ensures s == t
  {
    hide Present;
    var a, b := StatsSlots(s), StatsSlots(t);
    SameSlots(a, b);
    assert a[0].value == b[0].value && a[1].value == b[1].value && a[2].value == b[2].value;
  }

  lemma SameSlots(a: seq<Slot>, b: seq<Slot>)
    requires Distinct(a) && |a| == |b| && Present(a) == Present(b)
    requires forall i | 0 <= i < |a| :: a[i].id == b[i].id
    ensures a == b
  {
    forall i | 0 <= i < |a| ensures a[i] == b[i] {
      AssignedPresent(a, i);
      AssignedPresent(b, i);
    }
  }

  /** So a decoded batch is the batch that was sent, member by member. */
  lemma BatchInjective(b: Batch, c: Batch)
    requires BatchValue(b) == BatchValue(c)
    ensures b == c
  {
    hide Present;
    var x, y := BatchSlots(b), BatchSlots(c);
    SameSlots(x, y);
    assert x[0].value == y[0].value && x[1].value == y[1].value && x[2].value == y[2].value && x[3].value == y[3].value;
    ProcessInjective(b.process, c.process);
    forall i | 0 <= i < |b.spans| ensures b.spans[i] == c.spans[i] {
      assert SpanValues(b.spans)[i] == SpanValues(c.spans)[i];
      SpanInjective(b.spans[i], c.spans[i]);
    }
    if b.stats.Some? { StatsInjective(b.stats.value, c.stats.value); }
  }

  /** A field with the id and the type is there. */
  predicate Has(fields: seq<Field>, id: int16, t: TType)
  {
    exists i :: 0 <= i < |fields| && fields[i].id == id && TypeOf(fields[i].value) == t
  }

  lemma Needs(s: Schema, fields: seq<Field>, id: int16, t: TType)
    requires s.StructOf? && Complete(s, VStruct(fields)) && id in s.required
    requires id in s.slots ==> SchemaType(s.slots[id]) == t
    ensures Has(fields, id, t)
  {
    hide FieldsComplete;
    var i :| 0 <= i < |fields| && fields[i].id == id && Known(s, id, TypeOf(fields[i].value));
  }

  /** What each struct cannot be read without, by RequiredExactly. That nothing else is required the round trips show. */
  lemma RequiredMembers(fields: seq<Field>)
    ensures Complete(TAG, VStruct(fields)) ==> Has(fields, 1, STRING) && Has(fields, 2, I32)
    ensures Complete(LOG, VStruct(fields)) ==> Has(fields, 1, I64) && Has(fields, 2, LIST)
    ensures Complete(PROCESS, VStruct(fields)) ==> Has(fields, 1, STRING)
    ensures Complete(BATCH, VStruct(fields)) ==> Has(fields, 1, STRUCT) && Has(fields, 2, LIST)
  {
    hide Complete, Has;
    if Complete(TAG, VStruct(fields)) { Needs(TAG, fields, 1, STRING); Needs(TAG, fields, 2, I32); }
    if Complete(LOG, VStruct(fields)) { Needs(LOG, fields, 1, I64); Needs(LOG, fields, 2, LIST); }
    if Complete(PROCESS, VStruct(fields)) { Needs(PROCESS, fields, 1, STRING); }
    if Complete(BATCH, VStruct(fields)) { Needs(BATCH, fields, 1, STRUCT); Needs(BATCH, fields, 2, LIST); }
  }

  lemma RequiredNumbers(fields: seq<Field>)
    ensures Complete(SPAN_REF, VStruct(fields)) ==>
              Has(fields, 1, I32) && Has(fields, 2, I64) && Has(fields, 3, I64) && Has(fields, 4, I64)
    ensures Complete(CLIENT_STATS, VStruct(fields)) ==> Has(fields, 1, I64) && Has(fields, 2, I64) && Has(fields, 3, I64)
  {
    hide Complete, Has;
    if Complete(SPAN_REF, VStruct(fields)) {
      Needs(SPAN_REF, fields, 1, I32);
      Needs(SPAN_REF, fields, 2, I64);
      Needs(SPAN_REF, fields, 3, I64);
      Needs(SPAN_REF, fields, 4, I64);
    }
    if Complete(CLIENT_STATS, VStruct(fields)) {
      Needs(CLIENT_STATS, fields, 1, I64);
      Needs(CLIENT_STATS, fields, 2, I64);
      Needs(CLIENT_STATS, fields, 3, I64);
    }
  }

  lemma RequiredSpanMembers(fields: seq<Field>)
    requires Complete(SPAN, VStruct(fields))
    ensures Has(fields, 1, I64) && Has(fields, 2, I64) && Has(fields, 3, I64) && Has(fields, 4, I64)
            && Has(fields, 5, STRING) && Has(fields, 7, I32) && Has(fields, 8, I64) && Has(fields, 9, I64)
  {
    hide Complete, Has;
    Needs(SPAN, fields, 1, I64);
    Needs(SPAN, fields, 2, I64);
    Needs(SPAN, fields, 3, I64);
    Needs(SPAN, fields, 4, I64);
    Needs(SPAN, fields, 5, STRING);
    Needs(SPAN, fields, 7, I32);
    Needs(SPAN, fields, 8, I64);
    Needs(SPAN, fields, 9, I64);
  }
}
