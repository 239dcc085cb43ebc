/**
 The reporting pipeline as a step system: the goroutines that finish spans (tracer.go, span.go), the pool spans come from
 and return to (span_allocator.go), the bounded queue, the worker that feeds the sender, its flush timer, and Close
 (reporter.go). Every atomic operation is one step, so a run is any interleaving of them.
 */
module Pipeline {
  import opened Sequences
  import SenderSpec

  /** A span object, by its address. */
  type Obj = nat

  /** `at` is the item's position among all items ever put on the queue. */
  datatype Item = SpanItem(span: Obj, at: nat) | CloseItem

  /** Where the goroutine that owns a span has got to with it. */
  datatype Phase =
    | Pooled     // waiting in the pool
    | Live       // handed out by Get
    | Reporting  // Report has been called
    | Retained   // the operand of the select has been evaluated
    | Sent       // on the queue, queueLength not yet incremented
    | Dropping   // refused by a full queue, not yet counted
    | Finished   // Report is over, or was not called
    | Putting    // the owner's Release reached -1
    | Gone       // the owner is done with it

  /**
   drops, gets and puts are history: drops since the last Get, and the calls of Get and Put ever made for the object.
   */
  datatype SpanState = SpanState(counter: int, phase: Phase, drops: nat, gets: nat, puts: nat)

  datatype Worker =
    | Waiting
    | Received(item: Item)                             // queueLength not yet decremented
    | Counted(item: Item)
    | Settling(left: seq<nat>, ok: bool, next: Worker) // Append or Flush returned, metrics not yet updated
    | Handed(span: Obj)                                // Append is over
    | Returning(span: Obj)                             // the worker's Release reached -1
    | Flushed                                          // the last flush is over
    | Stopped

  datatype Closer = NotCalled | Sending | Queued | Blocked | Returned

  /**
   entered, taken, closeAt, delivered and failed are history. Spans in the sender are known by their item's position.
   */
  datatype State = State(
    capacity: nat,
    spans: map<Obj, SpanState>,
    queue: seq<Item>,
    queueLength: int,
    closed: bool,
    closer: Closer,
    worker: Worker,
    sender: SenderSpec.Sender<nat>,
    reports: nat,
    dropped: nat,
    success: nat,
    failure: nat,
    entered: seq<Item>,
    taken: nat,
    closeAt: nat,
    delivered: seq<nat>,
    failed: seq<nat>)

  /** One step of the goroutine that owns a span, of the one that calls Close, or of the worker. */
  datatype Action = Own(o: Obj, step: OwnStep) | Close(call: CloseStep) | Work(job: WorkStep)

  datatype OwnStep = Get | Finish(sampled: bool) | Retain | Send | Drop | CountSend | CountDrop | Release | Put

  datatype CloseStep = CallClose | SendClose | CountClose | ReturnClose

  datatype WorkStep =
    | Receive | CountReceive | Append(processSize: nat, size: nat, accepted: bool) | Tick(accepted: bool)
    | LastFlush(accepted: bool) | Settle | WorkerRelease | WorkerPut | WakeCloser

  function Start(capacity: nat, limit: int): (s: State)
  {
    State(capacity, map[], [], 0, false, NotCalled, Waiting, SenderSpec.New(limit), 0, 0, 0, 0, [], 0, 0, [], [])
  }

  predicate At(s: State, o: Obj, p: Phase) { o in s.spans && s.spans[o].phase == p }

  predicate Enabled(s: State, a: Action)
  {
    match a
    case Own(o, step) => OwnEnabled(s, o, step)
    case Close(call) => CloseEnabled(s, call)
    case Work(job) => WorkEnabled(s, job)
  }

  predicate OwnEnabled(s: State, o: Obj, step: OwnStep)
  {
    match step
    case Get => o in s.spans ==> s.spans[o].phase == Pooled
    case Finish(_) => At(s, o, Live)
    case Retain => At(s, o, Reporting)
    case Send => At(s, o, Retained) && |s.queue| < s.capacity
    case Drop => At(s, o, Retained) && |s.queue| >= s.capacity
    case CountSend => At(s, o, Sent)
    case CountDrop => At(s, o, Dropping)
    case Release => At(s, o, Finished)
    case Put => At(s, o, Putting)
  }

  predicate CloseEnabled(s: State, call: CloseStep)
  {
    match call
    case CallClose => true
    case SendClose => s.closer == Sending && |s.queue| < s.capacity
    case CountClose => s.closer == Queued
    case ReturnClose => s.closer == Blocked && s.worker == Stopped
  }

  predicate WorkEnabled(s: State, job: WorkStep)
  {
    var w := s.worker;
    match job
    case Receive => w == Waiting && s.queue != []
    case CountReceive => w.Received?
    case Append(_, _, _) => w.Counted? && w.item.SpanItem?
    case Tick(_) => w == Waiting
    case LastFlush(_) => w.Counted? && w.item.CloseItem?
    case Settle => w.Settling?
    case WorkerRelease => w.Handed? && w.span in s.spans
    case WorkerPut => w.Returning? && w.span in s.spans
    case WakeCloser => w == Flushed
  }

  function Become(s: State, o: Obj, p: Phase): (r: State)
    requires o in s.spans
  {
    s.(spans := s.spans[o := s.spans[o].(phase := p)])
  }

  function Enqueue(s: State, item: Item): (r: State)
  {
    s.(queue := s.queue + [item], entered := s.entered + [item])
  }

  /** What the pool does with a span it is given. */
  function Reset(s: State, o: Obj): (r: State)
    requires o in s.spans
  {
    s.(spans := s.spans[o := SpanState(0, Pooled, 0, s.spans[o].gets, s.spans[o].puts + 1)])
  }

  function Decrement(s: State, o: Obj): (r: State)
    requires o in s.spans
  {
    s.(spans := s.spans[o := s.spans[o].(counter := s.spans[o].counter - 1)])
  }

  /** The spans of a batch, or the one span refused: what Append's count stands for. */
  function Left(buffer: seq<nat>, x: nat, size: nat, limit: int, n: nat): (left: seq<nat>)
  {
    if size > limit then [x] else if n <= |buffer| + 1 then (buffer + [x])[..n] else []
  }

  function AppendNext(s: State, span: Obj, at: nat, processSize: nat, size: nat, accepted: bool): (r: State)
  {
    var before := SenderSpec.WithProcess(s.sender, processSize);
    var out := SenderSpec.Append(before, at, size, accepted);
    s.(sender := out.after, worker := Settling(Left(before.buffer, at, size, before.limit, out.n), out.ok, Handed(span)))
  }

  function FlushNext(s: State, accepted: bool, next: Worker): (r: State)
  {
    var out := SenderSpec.Flush(s.sender, accepted);
    s.(sender := out.after, worker := Settling(s.sender.buffer, out.ok, next))
  }

  function SettleNext(s: State, left: seq<nat>, ok: bool, next: Worker): (r: State)
  {
    if ok then s.(worker := next, success := s.success + |left|, delivered := s.delivered + left)
    else s.(worker := next, failure := s.failure + |left|, failed := s.failed + left)
  }

  function Next(s: State, a: Action): (r: State)
    requires Enabled(s, a)
  {
    match a
    case Own(o, step) => OwnNext(s, o, step)
    case Close(call) => CloseNext(s, call)
    case Work(job) => WorkNext(s, job)
  }

  function OwnNext(s: State, o: Obj, step: OwnStep): (r: State)
    requires OwnEnabled(s, o, step)
  {
    var x := if o in s.spans then s.spans[o] else SpanState(0, Pooled, 0, 0, 0);
    match step
    case Get => s.(spans := s.spans[o := x.(phase := Live, gets := x.gets + 1)])
    case Finish(sampled) =>
      if sampled then Become(s, o, Reporting).(reports := s.reports + 1) else Become(s, o, Finished)
    case Retain => s.(spans := s.spans[o := x.(counter := x.counter + 1, phase := Retained)])
    case Send => Enqueue(Become(s, o, Sent), SpanItem(o, |s.entered|))
    case Drop => s.(spans := s.spans[o := x.(phase := Dropping, drops := x.drops + 1)])
    case CountSend => Become(s, o, Finished).(queueLength := s.queueLength + 1)
    case CountDrop => Become(s, o, Finished).(dropped := s.dropped + 1)
    case Release => Become(Decrement(s, o), o, if x.counter == 0 then Putting else Gone)
    case Put => Reset(s, o)
  }

  function CloseNext(s: State, call: CloseStep): (r: State)
    requires CloseEnabled(s, call)
  {
    match call
    case CallClose => if s.closed then s else s.(closed := true, closer := Sending)
    case SendClose => Enqueue(s.(closer := Queued, closeAt := |s.entered|), CloseItem)
    case CountClose => s.(closer := Blocked, queueLength := s.queueLength + 1)
    case ReturnClose => s.(closer := Returned)
  }

  function WorkNext(s: State, job: WorkStep): (r: State)
    requires WorkEnabled(s, job)
  {
    var w := s.worker;
    match job
    case Receive => s.(queue := s.queue[1..], worker := Received(s.queue[0]), taken := s.taken + 1)
    case CountReceive => s.(worker := Counted(w.item), queueLength := s.queueLength - 1)
    case Append(processSize, size, accepted) => AppendNext(s, w.item.span, w.item.at, processSize, size, accepted)
    case Tick(accepted) => FlushNext(s, accepted, Waiting)
    case LastFlush(accepted) => FlushNext(s, accepted, Flushed)
    case Settle => SettleNext(s, w.left, w.ok, w.next)
    case WorkerRelease =>
      Decrement(s, w.span).(worker := if s.spans[w.span].counter == 0 then Returning(w.span) else Waiting)
    case WorkerPut => Reset(s, w.span).(worker := Waiting)
    case WakeCloser => s.(worker := Stopped)
  }

  /** The state a run ends in, if every one of its steps was possible. */
  ghost predicate Runs(s: State, acts: seq<Action>, t: State)
    decreases |acts|
  {
    if acts == [] then s == t else Enabled(s, acts[0]) && Runs(Next(s, acts[0]), acts[1..], t)
  }

  ghost predicate Reachable(capacity: nat, limit: int, s: State)
  {
    exists acts :: Runs(Start(capacity, limit), acts, s)
  }

  // ----- references -----

  function CountOf(q: seq<Item>, o: Obj): (n: nat)
  {
    if q == [] then 0 else (if q[0].SpanItem? && q[0].span == o then 1 else 0) + CountOf(q[1..], o)
  }

  lemma {:induction false} CountOfAppend(q: seq<Item>, item: Item, o: Obj)
    ensures CountOf(q + [item], o) == CountOf(q, o) + CountOf([item], o)
  {
    if q == [] {
      assert q + [item] == [item];
    } else {
      assert (q + [item])[1..] == q[1..] + [item];
      CountOfAppend(q[1..], item, o);
    }
  }

  /** The span the worker has a reference to. */
  function Held(w: Worker): (n: seq<Obj>)
  {
    match w
    case Received(SpanItem(o, _)) => [o]
    case Counted(SpanItem(o, _)) => [o]
    case Settling(_, _, Handed(o)) => [o]
    case Handed(o) => [o]
    case _ => []
  }

  function WorkerRefs(w: Worker, o: Obj): (n: nat) { if Held(w) == [o] then 1 else 0 }

  function OwnerRefs(p: Phase): (n: nat)
  {
    match p
    case Pooled => 0
    case Putting => 0
    case Gone => 0
    case Retained => 2
    case _ => 1
  }

  /** Every reference to the span is accounted for; a dropped span is owed one for each drop. */
  ghost predicate RefOk(s: State, o: Obj)
  {
    var refs := CountOf(s.queue, o) + WorkerRefs(s.worker, o);
    if o !in s.spans then refs == 0 && s.worker != Returning(o)
    else
      var x := s.spans[o];
      x.gets == x.puts + (if x.phase == Pooled then 0 else 1)
      && (if x.phase == Pooled then x.counter == 0 && x.drops == 0 && refs == 0
          else x.counter + 1 == OwnerRefs(x.phase) + refs + x.drops)
      && (x.phase == Putting ==> x.counter == -1)
      && (s.worker == Returning(o) ==> x.phase == Gone && x.counter == -1)
      && (x.phase == Gone ==> x.counter >= 0 || s.worker == Returning(o))
  }

  ghost predicate RefInv(s: State) { forall o: Obj :: RefOk(s, o) }

  /** Unless it puts the span on the queue, its owner's step touches that span and some counters. */
  lemma OwnFrame(s: State, o: Obj, step: OwnStep)
    requires OwnEnabled(s, o, step) && step != Send
    ensures var t := OwnNext(s, o, step);
            o in t.spans && t == s.(spans := s.spans[o := t.spans[o]], reports := t.reports,
                                    dropped := t.dropped, queueLength := t.queueLength)
  {
  }

  lemma RefOwnStep(s: State, o: Obj, step: OwnStep)
    requires RefInv(s) && OwnEnabled(s, o, step) && step != Send
    ensures RefInv(OwnNext(s, o, step))
  {
    var t := OwnNext(s, o, step);
    OwnFrame(s, o, step);
    assert RefOk(t, o) by {
      hide CountOf, WorkerRefs;
      assert RefOk(s, o);
    }
    hide OwnNext, OwnEnabled;
    forall p: Obj ensures RefOk(t, p) {
      assert RefOk(s, p);
    }
  }

  lemma RefSend(s: State, o: Obj)
    requires RefInv(s) && OwnEnabled(s, o, Send)
    ensures RefInv(OwnNext(s, o, Send))
  {
    var item := SpanItem(o, |s.entered|);
    forall p: Obj ensures RefOk(OwnNext(s, o, Send), p) {
      assert RefOk(s, p);
      CountOfAppend(s.queue, item, p);
      assert [item][1..] == [];
    }
  }

  lemma RefCloseStep(s: State, call: CloseStep)
    requires RefInv(s) && CloseEnabled(s, call)
    ensures RefInv(CloseNext(s, call))
  {
    forall p: Obj ensures RefOk(CloseNext(s, call), p) {
      assert RefOk(s, p);
      CountOfAppend(s.queue, CloseItem, p);
      assert [CloseItem][1..] == [];
    }
  }

  lemma RefWorkStep(s: State, job: WorkStep)
    requires RefInv(s) && WorkEnabled(s, job) && NextOk(s.worker)
    ensures RefInv(WorkNext(s, job))
  {
    hide Left, SenderSpec.Append, SenderSpec.Flush, SenderSpec.WithProcess;
    forall p: Obj ensures RefOk(WorkNext(s, job), p) {
      assert RefOk(s, p);
    }
  }

  lemma RefStep(s: State, a: Action)
    requires RefInv(s) && Enabled(s, a) && NextOk(s.worker)
    ensures RefInv(Next(s, a))
  {
    hide RefInv, OwnEnabled, OwnNext, CloseEnabled, CloseNext, WorkEnabled, WorkNext;
    match a
    case Own(o, step) => if step == Send { RefSend(s, o); } else { RefOwnStep(s, o, step); }
    case Close(call) => RefCloseStep(s, call);
    case Work(job) => RefWorkStep(s, job);
  }

  /** What the worker goes on to after updating the metrics. */
  predicate NextOk(w: Worker) { w.Settling? ==> w.next.Handed? || w.next == Waiting || w.next == Flushed }

  // ----- order -----

  /** The positions of the spans among some items. */
  function Places(q: seq<Item>): (r: seq<nat>)
  {
    if q == [] then [] else (if q[0].SpanItem? then [q[0].at] else []) + Places(q[1..])
  }

  lemma {:induction false} PlacesConcat(p: seq<Item>, q: seq<Item>)
    ensures Places(p + q) == Places(p) + Places(q)
  {
    if p == [] {
      assert p + q == q;
    } else {
      var first := if p[0].SpanItem? then [p[0].at] else [];
      assert (p + q)[0] == p[0] && (p + q)[1..] == p[1..] + q;
      PlacesConcat(p[1..], q);
      assert first + Places(p[1..]) + Places(q) == first + (Places(p[1..]) + Places(q));
    }
  }

  /** The worker has taken the close item. */
  predicate Closing(w: Worker)
  {
    match w
    case Received(item) => item.CloseItem?
    case Counted(item) => item.CloseItem?
    case Settling(_, _, next) => next == Flushed
    case Flushed => true
    case Stopped => true
    case _ => false
  }

  /** The spans the worker has taken and not yet given to the sender. */
  function InHand(w: Worker): (r: seq<nat>)
  {
    match w
    case Received(SpanItem(_, at)) => [at]
    case Counted(SpanItem(_, at)) => [at]
    case _ => []
  }

  /** The spans the sender has let go whose metrics are not updated yet. */
  function Unsettled(w: Worker): (r: seq<nat>) { if w.Settling? then w.left else [] }

  predicate CloseSent(c: Closer) { c == Queued || c == Blocked || c == Returned }

  ghost predicate LogInv(s: State)
  {
    s.taken <= |s.entered| && s.queue == s.entered[s.taken..]
    && (forall i :: 0 <= i < |s.entered| && s.entered[i].SpanItem? ==> s.entered[i].at == i)
    && (forall i :: 0 <= i < |s.entered| && s.entered[i].CloseItem? ==> CloseSent(s.closer) && s.closeAt == i)
    && (CloseSent(s.closer) ==> s.closeAt < |s.entered| && s.entered[s.closeAt].CloseItem?)
  }

  ghost predicate StageInv(s: State)
  {
    s.taken <= |s.entered|
    && (Closing(s.worker) <==> CloseSent(s.closer) && s.closeAt < s.taken)
    && (Closing(s.worker) ==> s.closeAt == s.taken - 1)
    && (s.worker.Received? || s.worker.Counted? ==> s.taken > 0 && s.worker.item == s.entered[s.taken - 1])
    && (s.closed <==> s.closer != NotCalled)
    && (s.closer == Returned ==> s.worker == Stopped)
    && (s.worker == Flushed || s.worker == Stopped || (s.worker.Settling? && s.worker.next == Flushed)
        ==> s.sender.buffer == [])
    && NextOk(s.worker)
  }

  ghost predicate OrderInv(s: State) { LogInv(s) && StageInv(s) }

  lemma OrderOwnStep(s: State, o: Obj, step: OwnStep)
    requires OrderInv(s) && OwnEnabled(s, o, step)
    ensures OrderInv(OwnNext(s, o, step))
  {
    if step != Send {
      OwnFrame(s, o, step);
      hide OwnNext;
    }
  }

  lemma OrderSendClose(s: State)
    requires OrderInv(s) && CloseEnabled(s, SendClose)
    ensures OrderInv(CloseNext(s, SendClose))
  {
    var t := CloseNext(s, SendClose);
    assert LogInv(t);
    hide LogInv;
  }

  lemma OrderCloseStep(s: State, call: CloseStep)
    requires OrderInv(s) && CloseEnabled(s, call)
    ensures OrderInv(CloseNext(s, call))
  {
    if call == SendClose {
      OrderSendClose(s);
    } else {
      var t := CloseNext(s, call);
      assert t == s.(closed := t.closed, closer := t.closer, queueLength := t.queueLength);
      hide CloseNext;
    }
  }

  lemma OrderReceive(s: State)
    requires OrderInv(s) && WorkEnabled(s, Receive)
    ensures OrderInv(WorkNext(s, Receive))
  {
  }

  lemma OrderWorkStep(s: State, job: WorkStep)
    requires OrderInv(s) && WorkEnabled(s, job)
    ensures OrderInv(WorkNext(s, job))
  {
    if job == Receive {
      OrderReceive(s);
    } else {
      var t := WorkNext(s, job);
      assert t.entered == s.entered && t.taken == s.taken && t.queue == s.queue && t.closer == s.closer
             && t.closeAt == s.closeAt && t.closed == s.closed;
      assert LogInv(t);
      hide LogInv;
      StageWorkStep(s, job);
    }
  }

  lemma StageWorkStep(s: State, job: WorkStep)
    requires StageInv(s) && WorkEnabled(s, job) && job != Receive
    ensures StageInv(WorkNext(s, job))
  {
    hide Left, SenderSpec.Append, SenderSpec.WithProcess;
  }

  lemma OrderStep(s: State, a: Action)
    requires OrderInv(s) && Enabled(s, a)
    ensures OrderInv(Next(s, a))
  {
    hide OrderInv, OwnEnabled, OwnNext, CloseEnabled, CloseNext, WorkEnabled, WorkNext;
    match a
    case Own(o, step) => OrderOwnStep(s, o, step);
    case Close(call) => OrderCloseStep(s, call);
    case Work(job) => OrderWorkStep(s, job);
  }

  /** Every span taken from the queue is in exactly one place. */
  ghost predicate PlaceInv(s: State)
  {
    s.taken <= |s.entered|
    && Shared(s.entered[..s.taken], s.delivered, s.failed, Unsettled(s.worker), s.sender.buffer, InHand(s.worker))
    && s.success == |s.delivered| && s.failure == |s.failed|
  }

  /** The spans among the items, each as often as it occurs, are shared out between five places. */
  ghost predicate Shared(items: seq<Item>, delivered: seq<nat>, failed: seq<nat>, unsettled: seq<nat>, buffer: seq<nat>,
                         inHand: seq<nat>)
  {
    multiset(Places(items))
    == multiset(delivered) + multiset(failed) + multiset(unsettled) + multiset(buffer) + multiset(inHand)
  }

  lemma AppendKeeps(s: SenderSpec.Sender<nat>, x: nat, size: nat, accepted: bool)
    ensures var r := SenderSpec.Append(s, x, size, accepted);
            multiset(Left(s.buffer, x, size, s.limit, r.n)) + multiset(r.after.buffer) == multiset(s.buffer) + multiset{x}
  {
    var r := SenderSpec.Append(s, x, size, accepted);
    if size <= s.limit {
      assert (s.buffer + [x])[..|s.buffer|] == s.buffer;
      assert (s.buffer + [x])[..|s.buffer| + 1] == s.buffer + [x];
    }
  }

  lemma PlacesOne(item: Item)
    ensures Places([item]) == if item.SpanItem? then [item.at] else []
  {
  }

  lemma SharedReceive(items: seq<Item>, item: Item, d: seq<nat>, f: seq<nat>, b: seq<nat>)
    requires Shared(items, d, f, [], b, [])
    ensures Shared(items + [item], d, f, [], b, InHand(Received(item)))
  {
    PlacesConcat(items, [item]);
    PlacesOne(item);
    assert InHand(Received(item)) == Places([item]);
  }

  lemma SharedAppend(items: seq<Item>, d: seq<nat>, f: seq<nat>, s: SenderSpec.Sender<nat>, x: nat, size: nat,
                     accepted: bool)
    requires Shared(items, d, f, [], s.buffer, [x])
    ensures var r := SenderSpec.Append(s, x, size, accepted);
            Shared(items, d, f, Left(s.buffer, x, size, s.limit, r.n), r.after.buffer, [])
  {
    hide Left, SenderSpec.Append, Places;
    AppendKeeps(s, x, size, accepted);
    var r := SenderSpec.Append(s, x, size, accepted);
    assert multiset([x]) == multiset{x};
    assert multiset(Places(items)) == multiset(d) + multiset(f) + (multiset(s.buffer) + multiset{x});
    assert multiset(d) + multiset(f) + (multiset(Left(s.buffer, x, size, s.limit, r.n)) + multiset(r.after.buffer))
      == multiset(d) + multiset(f) + multiset(Left(s.buffer, x, size, s.limit, r.n)) + multiset(r.after.buffer)
         + multiset([]);
  }

  lemma SharedSettle(items: seq<Item>, d: seq<nat>, f: seq<nat>, u: seq<nat>, b: seq<nat>)
    requires Shared(items, d, f, u, b, [])
    ensures Shared(items, d + u, f, [], b, []) && Shared(items, d, f + u, [], b, [])
  {
  }

  lemma PlaceReceive(s: State)
    requires OrderInv(s) && PlaceInv(s) && WorkEnabled(s, Receive)
    ensures PlaceInv(WorkNext(s, Receive))
  {
    hide Shared;
    var item := s.queue[0];
    assert item == s.entered[s.taken];
    hide OrderInv;
    assert s.entered[..s.taken + 1] == s.entered[..s.taken] + [item];
    SharedReceive(s.entered[..s.taken], item, s.delivered, s.failed, s.sender.buffer);
  }

  lemma PlaceAppend(s: State, processSize: nat, size: nat, accepted: bool)
    requires PlaceInv(s) && WorkEnabled(s, Append(processSize, size, accepted))
    ensures PlaceInv(WorkNext(s, Append(processSize, size, accepted)))
  {
    hide Left, SenderSpec.Append, Shared;
    SharedAppend(s.entered[..s.taken], s.delivered, s.failed, SenderSpec.WithProcess(s.sender, processSize),
                 s.worker.item.at, size, accepted);
  }

  lemma PlaceFlush(s: State, accepted: bool, next: Worker)
    requires PlaceInv(s) && InHand(s.worker) == [] && Unsettled(s.worker) == []
    ensures PlaceInv(FlushNext(s, accepted, next))
  {
  }

  lemma PlaceSettle(s: State)
    requires PlaceInv(s) && NextOk(s.worker) && s.worker.Settling?
    ensures PlaceInv(SettleNext(s, s.worker.left, s.worker.ok, s.worker.next))
  {
    hide Shared;
    SharedSettle(s.entered[..s.taken], s.delivered, s.failed, s.worker.left, s.sender.buffer);
  }

  predicate Moves(job: WorkStep) { job == Receive || job.Append? || job.Tick? || job.LastFlush? || job == Settle }

  lemma PlaceStay(s: State, job: WorkStep)
    requires PlaceInv(s) && NextOk(s.worker) && WorkEnabled(s, job) && !Moves(job)
    ensures PlaceInv(WorkNext(s, job))
  {
    hide Shared;
    var t := WorkNext(s, job);
    assert InHand(t.worker) == InHand(s.worker) && Unsettled(t.worker) == Unsettled(s.worker);
    assert t == s.(spans := t.spans, queueLength := t.queueLength, worker := t.worker);
  }

  lemma PlaceWorkStep(s: State, job: WorkStep)
    requires OrderInv(s) && PlaceInv(s) && WorkEnabled(s, job)
    ensures PlaceInv(WorkNext(s, job))
  {
    hide PlaceInv, LogInv, AppendNext, FlushNext, SettleNext;
    match job
    case Receive => PlaceReceive(s);
    case Append(processSize, size, accepted) => PlaceAppend(s, processSize, size, accepted);
    case Tick(accepted) => PlaceFlush(s, accepted, Waiting);
    case LastFlush(accepted) => PlaceFlush(s, accepted, Flushed);
    case Settle => PlaceSettle(s);
    case _ => PlaceStay(s, job);
  }

  lemma PlaceStep(s: State, a: Action)
    requires OrderInv(s) && PlaceInv(s) && Enabled(s, a)
    ensures PlaceInv(Next(s, a))
  {
    hide Shared, OrderInv, WorkNext, WorkEnabled, InHand, Unsettled;
    match a
    case Own(o, step) =>
      if step == Send { assert Next(s, a).entered[..s.taken] == s.entered[..s.taken]; } else { OwnFrame(s, o, step); }
    case Close(_) => assert Next(s, a).entered[..s.taken] == s.entered[..s.taken];
    case Work(job) => PlaceWorkStep(s, job);
  }

  // ----- counters -----

  function Calling(spans: map<Obj, SpanState>): (r: set<Obj>)
  {
    set o | o in spans && InCall(spans[o].phase)
  }

  function Uncounted(spans: map<Obj, SpanState>): (r: set<Obj>)
  {
    set o | o in spans && spans[o].phase == Sent
  }

  predicate InCall(p: Phase) { p == Reporting || p == Retained || p == Dropping }

  ghost predicate CountInv(s: State)
  {
    s.reports == |Calling(s.spans)| + s.dropped + |Places(s.entered)|
    && s.queueLength
       == |s.queue| - |Uncounted(s.spans)| - (if s.closer == Queued then 1 else 0)
          + (if s.worker.Received? then 1 else 0)
  }

  lemma SetsAfter(spans: map<Obj, SpanState>, o: Obj, x: SpanState)
    ensures var p := if o in spans then spans[o].phase else Pooled;
            |Calling(spans[o := x])| == |Calling(spans)| - (if InCall(p) then 1 else 0) + (if InCall(x.phase) then 1 else 0)
            && |Uncounted(spans[o := x])|
               == |Uncounted(spans)| - (if p == Sent then 1 else 0) + (if x.phase == Sent then 1 else 0)
  {
    MembershipAfter(Calling(spans), Calling(spans[o := x]), o);
    MembershipAfter(Uncounted(spans), Uncounted(spans[o := x]), o);
  }

  lemma MembershipAfter(was: set<Obj>, now: set<Obj>, o: Obj)
    requires forall p :: p != o ==> (p in was <==> p in now)
    ensures |now| == |was| - (if o in was then 1 else 0) + (if o in now then 1 else 0)
  {
    assert was - {o} == now - {o};
    if o in was { assert was == (was - {o}) + {o}; }
    if o in now { assert now == (now - {o}) + {o}; }
  }

  lemma CountOwnStep(s: State, o: Obj, step: OwnStep)
    requires CountInv(s) && OwnEnabled(s, o, step)
    ensures CountInv(OwnNext(s, o, step))
  {
    hide Calling, Uncounted, Places;
    SetsAfter(s.spans, o, OwnNext(s, o, step).spans[o]);
    if step != Send {
      OwnFrame(s, o, step);
    } else {
      PlacesConcat(s.entered, [SpanItem(o, |s.entered|)]);
      PlacesOne(SpanItem(o, |s.entered|));
    }
  }

  lemma CountCloseStep(s: State, call: CloseStep)
    requires (s.closed <==> s.closer != NotCalled) && CountInv(s) && CloseEnabled(s, call)
    ensures CountInv(CloseNext(s, call))
  {
    hide Calling, Uncounted, Places;
    PlacesConcat(s.entered, [CloseItem]);
    PlacesOne(CloseItem);
  }

  lemma CountWorkStep(s: State, job: WorkStep)
    requires NextOk(s.worker) && RefInv(s) && CountInv(s) && WorkEnabled(s, job)
    ensures CountInv(WorkNext(s, job))
  {
    hide Left, CountOf, Calling, Uncounted, Places, SenderSpec.Append, SenderSpec.WithProcess, SenderSpec.Flush;
    if job == WorkerRelease || job == WorkerPut {
      assert RefOk(s, s.worker.span);
      hide RefInv;
      SetsAfter(s.spans, s.worker.span, WorkNext(s, job).spans[s.worker.span]);
    } else {
      hide RefInv;
    }
  }

  lemma CountStep(s: State, a: Action)
    requires OrderInv(s) && RefInv(s) && CountInv(s) && Enabled(s, a)
    ensures CountInv(Next(s, a))
  {
    hide CountInv, RefInv, OwnEnabled, OwnNext, CloseEnabled, CloseNext, WorkEnabled, WorkNext;
    match a
    case Own(o, step) => CountOwnStep(s, o, step);
    case Close(call) => CountCloseStep(s, call);
    case Work(job) => CountWorkStep(s, job);
  }

  // ----- every run -----

  ghost predicate Inv(s: State) { RefInv(s) && OrderInv(s) && PlaceInv(s) && CountInv(s) && |s.queue| <= s.capacity }

  lemma StartInv(capacity: nat, limit: int)
    ensures Inv(Start(capacity, limit))
  {
  }

  lemma QueueBounded(s: State, a: Action)
    requires |s.queue| <= s.capacity && Enabled(s, a)
    ensures Next(s, a).capacity == s.capacity && |Next(s, a).queue| <= s.capacity
  {
    hide Left, SenderSpec.Append, SenderSpec.WithProcess, SenderSpec.Flush;
    if a.Own? && a.step != Send { OwnFrame(s, a.o, a.step); }
  }

  lemma {:induction false} InvRun(s: State, acts: seq<Action>, t: State)
    requires Inv(s) && Runs(s, acts, t)
    ensures Inv(t)
    decreases |acts|
  {
    hide RefInv, OrderInv, PlaceInv, CountInv, Next, Enabled;
    if acts != [] {
      InvStep(s, acts[0]);
      InvRun(Next(s, acts[0]), acts[1..], t);
    }
  }

  lemma InvStep(s: State, a: Action)
    requires Inv(s) && Enabled(s, a)
    ensures Inv(Next(s, a))
  {
    assert NextOk(s.worker);
    hide RefInv, OrderInv, PlaceInv, CountInv, Next, Enabled;
    RefStep(s, a);
    OrderStep(s, a);
    PlaceStep(s, a);
    CountStep(s, a);
    QueueBounded(s, a);
  }

  lemma ReachableInv(capacity: nat, limit: int, s: State)
    requires Reachable(capacity, limit, s)
    ensures Inv(s)
  {
    hide Inv, Runs;
    StartInv(capacity, limit);
    var acts :| Runs(Start(capacity, limit), acts, s);
    InvRun(Start(capacity, limit), acts, s);
  }

  /**
   Every call of Report is accounted for in every state: still running, counted as dropped, on the queue, in the worker's
   hands, counted as a success or a failure, or in the sender's buffer.
   */
  lemma Accounting(capacity: nat, limit: int, s: State)
    requires Reachable(capacity, limit, s)
    ensures s.reports == |Calling(s.spans)| + s.dropped + |Places(s.queue)| + |InHand(s.worker)|
                         + |Unsettled(s.worker)| + s.success + s.failure + |s.sender.buffer|
  {
    ReachableInv(capacity, limit, s);
    hide Calling, InHand, Unsettled, RefInv, Places, Uncounted;
    assert s.entered == s.entered[..s.taken] + s.queue;
    PlacesConcat(s.entered[..s.taken], s.queue);
    assert |multiset(Places(s.entered[..s.taken]))| == |Places(s.entered[..s.taken])|;
  }

  /** queueLength differs from the length of the queue by the increments and decrements still to come. */
  lemma QueueLength(capacity: nat, limit: int, s: State)
    requires Reachable(capacity, limit, s)
    ensures s.queueLength == |s.queue| - |Uncounted(s.spans)| - (if s.closer == Queued then 1 else 0)
                             + (if s.worker.Received? then 1 else 0)
  {
    ReachableInv(capacity, limit, s);
  }

  /** The counter of a span in use, exactly. */
  lemma References(capacity: nat, limit: int, s: State, o: Obj)
    requires Reachable(capacity, limit, s) && o in s.spans && s.spans[o].phase != Pooled
    ensures s.spans[o].counter + 1
         == OwnerRefs(s.spans[o].phase) + CountOf(s.queue, o) + WorkerRefs(s.worker, o) + s.spans[o].drops
  {
    ReachableInv(capacity, limit, s);
    assert RefOk(s, o);
  }

  /** A step that gives the span to the pool. */
  predicate Puts(s: State, a: Action, o: Obj)
  {
    a == Own(o, Put) || (a == Work(WorkerPut) && s.worker == Returning(o))
  }

  lemma LastReference(s: State, a: Action, o: Obj)
    requires RefOk(s, o) && Enabled(s, a) && Puts(s, a, o)
    ensures o in s.spans && s.spans[o].gets == s.spans[o].puts + 1 && s.spans[o].drops == 0
    ensures CountOf(s.queue, o) == 0 && Held(s.worker) != [o]
    ensures (s.spans[o].phase == Putting && s.worker != Returning(o))
            || (s.spans[o].phase == Gone && s.worker == Returning(o))
  {
    hide CountOf;
  }

  /** Put runs once for a Get, when nothing else refers to the span, and never for a span that was dropped. */
  lemma PutSafe(capacity: nat, limit: int, s: State, a: Action, o: Obj)
    requires Reachable(capacity, limit, s) && Enabled(s, a) && Puts(s, a, o)
    ensures o in s.spans && s.spans[o].gets == s.spans[o].puts + 1 && s.spans[o].drops == 0
    ensures CountOf(s.queue, o) == 0 && Held(s.worker) != [o]
    ensures (s.spans[o].phase == Putting && s.worker != Returning(o))
            || (s.spans[o].phase == Gone && s.worker == Returning(o))
  {
    ReachableInv(capacity, limit, s);
    assert RefOk(s, o);
    hide Reachable, Inv;
    LastReference(s, a, o);
  }

  /** A span its owner is done with is on its way to the pool, or refused by a full queue some time before. */
  lemma NotForgotten(capacity: nat, limit: int, s: State, o: Obj)
    requires Reachable(capacity, limit, s) && o in s.spans
    ensures s.spans[o].puts <= s.spans[o].gets <= s.spans[o].puts + 1
    ensures s.spans[o].phase == Gone
            ==> (s.spans[o].drops > 0 || CountOf(s.queue, o) > 0 || Held(s.worker) == [o] || s.worker == Returning(o))
  {
    ReachableInv(capacity, limit, s);
    assert RefOk(s, o);
  }

  predicate DroppedAndGone(s: State, o: Obj) { o in s.spans && s.spans[o].phase == Gone && s.spans[o].drops > 0 }

  /** A dropped span never comes back: its extra reference is not released in any run. */
  lemma {:induction false} DroppedForGood(s: State, o: Obj, acts: seq<Action>, t: State)
    requires Inv(s) && Runs(s, acts, t)
    requires DroppedAndGone(s, o)
    ensures DroppedAndGone(t, o) && t.spans[o].drops == s.spans[o].drops && t.spans[o].puts == s.spans[o].puts
    decreases |acts|
  {
    hide RefInv, OrderInv, PlaceInv, CountInv, Next, Enabled;
    if acts != [] {
      InvStep(s, acts[0]);
      DroppedStep(s, o, acts[0]);
      DroppedForGood(Next(s, acts[0]), o, acts[1..], t);
    }
  }

  lemma DroppedStep(s: State, o: Obj, a: Action)
    requires RefInv(s) && Enabled(s, a) && DroppedAndGone(s, o)
    ensures var t := Next(s, a);
            DroppedAndGone(t, o) && t.spans[o].drops == s.spans[o].drops && t.spans[o].puts == s.spans[o].puts
  {
    assert RefOk(s, o);
    hide RefInv;
    match a
    case Own(p, step) => if step != Send { OwnFrame(s, p, step); }
    case Close(_) =>
    case Work(_) =>
  }

  lemma {:induction false} RunsOneMore(s: State, acts: seq<Action>, t: State, a: Action)
    requires Runs(s, acts, t) && Enabled(t, a)
    ensures Runs(s, acts + [a], Next(t, a))
    decreases |acts|
  {
    hide Enabled, Next;
    if acts == [] {
      assert acts + [a] == [a] && [a][1..] == [];
      assert Runs(Next(t, a), [], Next(t, a));
    } else {
      assert (acts + [a])[1..] == acts[1..] + [a];
      RunsOneMore(Next(s, acts[0]), acts[1..], t, a);
    }
  }

  lemma ReachableNext(capacity: nat, limit: int, s: State, a: Action)
    requires Reachable(capacity, limit, s) && Enabled(s, a)
    ensures Reachable(capacity, limit, Next(s, a))
  {
    hide Enabled, Next, Runs;
    var acts :| Runs(Start(capacity, limit), acts, s);
    RunsOneMore(Start(capacity, limit), acts, s, a);
  }

  /** A new span is started, finished and retained. */
  function Reported(s: State, o: Obj): (t: State)
    requires o !in s.spans
    ensures t.queue == s.queue && t.capacity == s.capacity
    ensures t.spans == s.spans[o := SpanState(1, Retained, 0, 1, 0)]
  {
    Next(Next(Next(s, Own(o, Get)), Own(o, Finish(true))), Own(o, Retain))
  }

  lemma ReportedReachable(capacity: nat, limit: int, s: State, o: Obj)
    requires Reachable(capacity, limit, s) && o !in s.spans
    ensures Reachable(capacity, limit, Reported(s, o))
  {
    hide Reachable;
    ReachableNext(capacity, limit, s, Own(o, Get));
    var got := Next(s, Own(o, Get));
    ReachableNext(capacity, limit, got, Own(o, Finish(true)));
    var finished := Next(got, Own(o, Finish(true)));
    ReachableNext(capacity, limit, finished, Own(o, Retain));
  }

  /** Spans 0 to k - 1 have been put on the queue. */
  function QueueWith(capacity: nat, limit: int, k: nat): (s: State)
    requires k <= capacity
    ensures |s.queue| == k && s.capacity == capacity && forall o: Obj :: o in s.spans ==> o < k
  {
    if k == 0 then Start(capacity, limit)
    else Next(Reported(QueueWith(capacity, limit, k - 1), k - 1), Own(k - 1, Send))
  }

  lemma {:induction false} QueueFills(capacity: nat, limit: int, k: nat)
    requires k <= capacity
    ensures Reachable(capacity, limit, QueueWith(capacity, limit, k))
  {
    if k == 0 {
      assert Runs(Start(capacity, limit), [], Start(capacity, limit));
    } else {
      hide Reachable;
      QueueFills(capacity, limit, k - 1);
      var s := QueueWith(capacity, limit, k - 1);
      ReportedReachable(capacity, limit, s, k - 1);
      hide Reported;
      ReachableNext(capacity, limit, Reported(s, k - 1), Own(k - 1, Send));
    }
  }

  /** A retained span that finds the queue full is dropped, counted and let go of. */
  function DroppedFrom(s: State, o: Obj): (t: State)
    requires o in s.spans && s.spans[o] == SpanState(1, Retained, 0, 1, 0) && |s.queue| >= s.capacity
    ensures DroppedAndGone(t, o)
  {
    Next(Next(Next(s, Own(o, Drop)), Own(o, CountDrop)), Own(o, Release))
  }

  lemma DroppedReachable(capacity: nat, limit: int, s: State, o: Obj)
    requires o in s.spans && s.spans[o] == SpanState(1, Retained, 0, 1, 0) && |s.queue| >= s.capacity
    requires Reachable(capacity, limit, s)
    ensures Reachable(capacity, limit, DroppedFrom(s, o))
  {
    hide Reachable;
    ReachableNext(capacity, limit, s, Own(o, Drop));
    var dropping := Next(s, Own(o, Drop));
    ReachableNext(capacity, limit, dropping, Own(o, CountDrop));
    var dropped := Next(dropping, Own(o, CountDrop));
    ReachableNext(capacity, limit, dropped, Own(o, Release));
  }

  /** For every capacity such a span is reachable. */
  lemma DropHappens(capacity: nat, limit: int)
    ensures exists s: State, o: Obj :: Reachable(capacity, limit, s) && DroppedAndGone(s, o)
  {
    hide Reachable, DroppedAndGone, QueueWith, Reported, DroppedFrom;
    QueueFills(capacity, limit, capacity);
    var full := QueueWith(capacity, limit, capacity);
    ReportedReachable(capacity, limit, full, capacity);
    DroppedReachable(capacity, limit, Reported(full, capacity), capacity);
    assert DroppedAndGone(DroppedFrom(Reported(full, capacity), capacity), capacity);
  }

  // ----- what becomes of the spans -----

  /** The spans that leave the sender at a step, or are refused by it: what was there and is not any more. */
  function Leaving(s: State, a: Action): (gone: seq<nat>)
    requires Enabled(s, a)
  {
    if a.Work? && (a.job.Tick? || a.job.LastFlush?) then s.sender.buffer
    else if a.Work? && a.job.Append? && a.job.size > s.sender.limit then [s.worker.item.at]
    else if a.Work? && a.job.Append? then
      var all, stays := s.sender.buffer + [s.worker.item.at], Next(s, a).sender.buffer;
      if |stays| <= |all| then all[..|all| - |stays|] else []
    else []
  }

  /** The network takes a batch sent at this step, and the span that makes it leave is not too large. */
  predicate Accepts(s: State, a: Action)
  {
    a.Work?
    && match a.job
       case Append(_, size, accepted) => accepted && size <= s.sender.limit
       case Tick(accepted) => accepted
       case LastFlush(accepted) => accepted
       case _ => true
  }

  /** All that left at steps that were accepted, or all that left at the others, in order. */
  function Fate(s: State, acts: seq<Action>, accepted: bool): (gone: seq<nat>)
    decreases |acts|
  {
    if acts == [] || !Enabled(s, acts[0]) then []
    else (if Accepts(s, acts[0]) == accepted then Leaving(s, acts[0]) else []) + Fate(Next(s, acts[0]), acts[1..], accepted)
  }

  /** What has been counted as delivered or failed, or is about to be. */
  function Settled(s: State, ok: bool): (gone: seq<nat>)
  {
    (if ok then s.delivered else s.failed) + if s.worker.Settling? && s.worker.ok == ok then s.worker.left else []
  }

  lemma AppendLeaves(s: State, processSize: nat, size: nat, accepted: bool)
    requires Enabled(s, Work(Append(processSize, size, accepted)))
    ensures var a := Work(Append(processSize, size, accepted));
            var t := Next(s, a);
            t.delivered == s.delivered && t.failed == s.failed && t.worker.Settling? && t.worker.left == Leaving(s, a)
            && (Leaving(s, a) != [] ==> (t.worker.ok <==> Accepts(s, a)))
  {
    var before := SenderSpec.WithProcess(s.sender, processSize);
    SenderSpec.Conservation(before, s.worker.item.at, size, accepted);
    SenderSpec.ErrorExactly(before, s.worker.item.at, size, accepted);
    hide SenderSpec.Append;
  }

  lemma SettledStep(s: State, a: Action, ok: bool)
    requires Enabled(s, a) && NextOk(s.worker)
    ensures Settled(Next(s, a), ok) == Settled(s, ok) + if Accepts(s, a) == ok then Leaving(s, a) else []
  {
    var t := Next(s, a);
    assert Settled(s, ok) + [] == Settled(s, ok);
    match a
    case Own(o, step) => if step != Send { OwnFrame(s, o, step); }
    case Close(_) =>
    case Work(job) => SettledWorkStep(s, job, ok);
  }

  lemma SettledWorkStep(s: State, job: WorkStep, ok: bool)
    requires WorkEnabled(s, job) && NextOk(s.worker)
    ensures var a := Work(job);
            Settled(WorkNext(s, job), ok) == Settled(s, ok) + if Accepts(s, a) == ok then Leaving(s, a) else []
  {
    var t := WorkNext(s, job);
    hide SenderSpec.Append, SenderSpec.WithProcess, Left;
    assert Settled(s, ok) + [] == Settled(s, ok);
    match job
    case Append(processSize, size, accepted) => AppendLeaves(s, processSize, size, accepted);
    case Settle => assert Settled(t, ok) == Settled(s, ok);
    case Tick(accepted) => assert s.sender.buffer == [] || (t.worker.ok <==> accepted);
    case LastFlush(accepted) => assert s.sender.buffer == [] || (t.worker.ok <==> accepted);
    case _ => assert Settled(t, ok) == Settled(s, ok);
  }

  lemma {:induction false} SettledRun(s: State, acts: seq<Action>, t: State, ok: bool)
    requires Inv(s) && Runs(s, acts, t)
    ensures Settled(t, ok) == Settled(s, ok) + Fate(s, acts, ok)
    decreases |acts|
  {
    if acts == [] {
      assert Settled(s, ok) + [] == Settled(s, ok);
    } else {
      InvStep(s, acts[0]);
      SettledStep(s, acts[0], ok);
      hide Inv, Settled, Next, Enabled, Accepts, Leaving;
      SettledRun(Next(s, acts[0]), acts[1..], t, ok);
      Assoc(Settled(s, ok), if Accepts(s, acts[0]) == ok then Leaving(s, acts[0]) else [],
            Fate(Next(s, acts[0]), acts[1..], ok));
    }
  }

  /**
   A span counts as a success if it left in a batch the network took, and as a failure if its batch was refused or it was
   too large itself: the lists of both, with those about to be counted, are what left at such steps of the run, in order.
   */
  lemma CountedByFate(capacity: nat, limit: int, acts: seq<Action>, s: State)
    requires Runs(Start(capacity, limit), acts, s)
    ensures Settled(s, true) == Fate(Start(capacity, limit), acts, true)
    ensures Settled(s, false) == Fate(Start(capacity, limit), acts, false)
    ensures s.success == |s.delivered| && s.failure == |s.failed|
  {
    StartInv(capacity, limit);
    InvRun(Start(capacity, limit), acts, s);
    hide RefInv, OrderInv, CountInv;
    assert s.success == |s.delivered| && s.failure == |s.failed|;
    hide Inv, Runs, Fate;
    SettledRun(Start(capacity, limit), acts, s, true);
    SettledRun(Start(capacity, limit), acts, s, false);
    assert [] + Fate(Start(capacity, limit), acts, true) == Fate(Start(capacity, limit), acts, true);
    assert [] + Fate(Start(capacity, limit), acts, false) == Fate(Start(capacity, limit), acts, false);
  }

  /** The network takes every batch and no span is too large, or it takes none. */
  ghost predicate Always(acts: seq<Action>, limit: int, accepted: bool)
  {
    forall a <- acts :: a.Work? ==>
      (a.job.Append? ==> a.job.accepted == accepted && (accepted ==> a.job.size <= limit))
      && (a.job.Tick? || a.job.LastFlush? ==> a.job.accepted == accepted)
  }

  lemma {:induction false} NoOtherFate(s: State, acts: seq<Action>, accepted: bool)
    requires Always(acts, s.sender.limit, accepted)
    ensures Fate(s, acts, !accepted) == []
    decreases |acts|
  {
    if acts != [] && Enabled(s, acts[0]) {
      assert acts[0] in acts && forall a <- acts[1..] :: a in acts;
      assert Always(acts[1..], s.sender.limit, accepted);
      SameLimit(s, acts[0]);
      assert Accepts(s, acts[0]) != accepted ==> Leaving(s, acts[0]) == [];
      hide Next, Enabled, Accepts, Leaving, Always;
      NoOtherFate(Next(s, acts[0]), acts[1..], accepted);
    }
  }

  lemma SameLimit(s: State, a: Action)
    requires Enabled(s, a)
    ensures Next(s, a).sender.limit == s.sender.limit
  {
    if a.Own? && a.step != Send { OwnFrame(s, a.o, a.step); }
  }

  /** With a network that takes everything nothing fails; with one that takes nothing, nothing succeeds. */
  lemma FailuresComeFromTheNetwork(capacity: nat, limit: int, acts: seq<Action>, s: State)
    requires Runs(Start(capacity, limit), acts, s)
    ensures Always(acts, limit, true) ==> s.failure == 0
    ensures Always(acts, limit, false) ==> s.success == 0
  {
    CountedByFate(capacity, limit, acts, s);
    if Always(acts, limit, true) { NoOtherFate(Start(capacity, limit), acts, true); }
    if Always(acts, limit, false) { NoOtherFate(Start(capacity, limit), acts, false); }
    hide Runs, Fate;
  }

  // ----- who is reported and who is dropped -----

  function Sampled(acts: seq<Action>): (n: nat)
  {
    if acts == [] then 0 else (if acts[0].Own? && acts[0].step == Finish(true) then 1 else 0) + Sampled(acts[1..])
  }

  /** A report is made for each finished span that is sampled, and for no other. */
  lemma {:induction false} ReportedExactly(s: State, acts: seq<Action>, t: State)
    requires Runs(s, acts, t)
    ensures t.reports == s.reports + Sampled(acts)
    decreases |acts|
  {
    if acts != [] {
      ReportedExactly(Next(s, acts[0]), acts[1..], t);
    }
  }

  /** A report whose span is retained has one way to go: onto the queue while there is room, and nowhere otherwise. */
  lemma DroppedOnlyWhenFull(capacity: nat, limit: int, s: State, o: Obj)
    requires Reachable(capacity, limit, s) && At(s, o, Retained)
    ensures Enabled(s, Own(o, Send)) <==> |s.queue| < capacity
    ensures Enabled(s, Own(o, Drop)) <==> |s.queue| == capacity
  {
    ReachableInv(capacity, limit, s);
    hide RefInv, OrderInv, PlaceInv, CountInv;
    assert |s.queue| <= s.capacity;
    hide Inv, Runs;
    var acts :| Runs(Start(capacity, limit), acts, s);
    SameCapacity(Start(capacity, limit), acts, s);
  }

  lemma {:induction false} SameCapacity(s: State, acts: seq<Action>, t: State)
    requires Runs(s, acts, t) && |s.queue| <= s.capacity
    ensures t.capacity == s.capacity
    decreases |acts|
  {
    if acts != [] {
      QueueBounded(s, acts[0]);
      hide Next, Enabled;
      SameCapacity(Next(s, acts[0]), acts[1..], t);
    }
  }

  /** Whoever has a span in hand can go on, in every state, and Close can be called in every state. */
  lemma NobodyIsStuck(s: State, o: Obj)
    ensures o in s.spans && s.spans[o].phase != Gone ==> exists step :: Enabled(s, Own(o, step))
    ensures o !in s.spans ==> Enabled(s, Own(o, Get))
    ensures Enabled(s, Close(CallClose))
  {
    if o in s.spans {
      match s.spans[o].phase
      case Pooled => assert Enabled(s, Own(o, Get));
      case Live => assert Enabled(s, Own(o, Finish(true)));
      case Reporting => assert Enabled(s, Own(o, Retain));
      case Retained => assert Enabled(s, Own(o, Send)) || Enabled(s, Own(o, Drop));
      case Sent => assert Enabled(s, Own(o, CountSend));
      case Dropping => assert Enabled(s, Own(o, CountDrop));
      case Finished => assert Enabled(s, Own(o, Release));
      case Putting => assert Enabled(s, Own(o, Put));
      case Gone =>
    }
  }

  // ----- Close -----

  /** Positions tell the spans apart, so none is settled twice. */
  lemma {:induction false} PlacesExact(q: seq<Item>, from: nat, i: nat)
    requires forall k :: 0 <= k < |q| && q[k].SpanItem? ==> q[k].at == from + k
    ensures multiset(Places(q))[i] == if from <= i < from + |q| && q[i - from].SpanItem? then 1 else 0
  {
    if q != [] {
      PlacesExact(q[1..], from + 1, i);
      var first := if q[0].SpanItem? then [q[0].at] else [];
      assert multiset(Places(q)) == multiset(first) + multiset(Places(q[1..]));
    }
  }

  /** In every state a span is counted in delivered and failed at most once, however the run went. */
  lemma SettledOnce(capacity: nat, limit: int, s: State, i: nat)
    requires Reachable(capacity, limit, s)
    ensures multiset(s.delivered)[i] + multiset(s.failed)[i] <= 1
  {
    ReachableInv(capacity, limit, s);
    hide RefInv, CountInv, Places;
    PlacesExact(s.entered[..s.taken], 0, i);
  }

  /**
   When Close returns, each span that was put on the queue before the close item has been handed to the network or
   counted as failed, exactly once, and nothing is left in the sender.
   */
  lemma CloseDrains(capacity: nat, limit: int, s: State)
    requires Reachable(capacity, limit, s) && s.closer == Returned
    ensures s.closeAt < |s.entered| && s.entered[s.closeAt].CloseItem? && s.sender.buffer == []
    ensures forall i: nat :: multiset(s.delivered)[i] + multiset(s.failed)[i] == if i < s.closeAt then 1 else 0
  {
    ReachableInv(capacity, limit, s);
    hide RefInv, CountInv, OrderInv, PlaceInv;
    ClosedShared(s);
    SharedOnce(s.entered[..s.closeAt], s.delivered, s.failed);
  }

  lemma SharedOnce(items: seq<Item>, d: seq<nat>, f: seq<nat>)
    requires Shared(items, d, f, [], [], [])
    requires forall j :: 0 <= j < |items| ==> items[j].SpanItem? && items[j].at == 0 + j
    ensures forall i: nat :: multiset(d)[i] + multiset(f)[i] == if i < |items| then 1 else 0
  {
    hide Places;
    forall i: nat ensures multiset(d)[i] + multiset(f)[i] == if i < |items| then 1 else 0 {
      PlacesExact(items, 0, i);
    }
  }

  lemma ClosedShared(s: State)
    requires OrderInv(s) && PlaceInv(s) && s.closer == Returned
    ensures s.closeAt < |s.entered| && s.entered[s.closeAt].CloseItem? && s.sender.buffer == []
    ensures var items := s.entered[..s.closeAt];
            Shared(items, s.delivered, s.failed, [], [], [])
            && forall j :: 0 <= j < |items| ==> items[j].SpanItem? && items[j].at == 0 + j
  {
    hide Places, Shared;
    var items := s.entered[..s.closeAt];
    assert s.entered[..s.taken] == items + [CloseItem];
    assert Shared(items + [CloseItem], s.delivered, s.failed, [], [], []);
    SharedClose(items, s.delivered, s.failed);
  }

  lemma SharedClose(items: seq<Item>, d: seq<nat>, f: seq<nat>)
    requires Shared(items + [CloseItem], d, f, [], [], [])
    ensures Shared(items, d, f, [], [], [])
  {
    hide Places;
    PlacesConcat(items, [CloseItem]);
    PlacesOne(CloseItem);
    assert Places(items) + [] == Places(items);
  }

  /** Steps of its own the worker is at most away from waiting for an item again, ticks aside. */
  function StepsLeft(w: Worker): (n: nat)
  {
    match w
    case Received(_) => 7
    case Counted(_) => 6
    case Settling(_, _, next) => if next == Waiting then 1 else 5
    case Handed(_) => 4
    case Returning(_) => 3
    case Flushed => 4
    case _ => 0
  }

  /** How far the worker is from letting Close return. */
  function Distance(s: State): (d: int) { 8 * (s.closeAt + 1 - s.taken) + StepsLeft(s.worker) }

  /** How far it is from having emptied the queue. */
  function Backlog(s: State): (d: nat) { 8 * |s.queue| + StepsLeft(s.worker) }

  /**
   While the close item waits for room it can enter, or else the worker can take a step that is not a tick. Every such step
   works off the backlog, and of the others only one that puts a span on the queue adds to it.
   */
  lemma CloseCanEnter(capacity: nat, limit: int, s: State)
    requires Reachable(capacity, limit, s) && s.closer == Sending && s.capacity > 0
    ensures CloseEnabled(s, SendClose) || exists job: WorkStep :: !job.Tick? && WorkEnabled(s, job)
    ensures forall job: WorkStep :: !job.Tick? && WorkEnabled(s, job) ==> Backlog(WorkNext(s, job)) < Backlog(s)
    ensures forall o: Obj, step: OwnStep :: step != Send && OwnEnabled(s, o, step) ==>
              Backlog(OwnNext(s, o, step)) == Backlog(s)
  {
    ReachableInv(capacity, limit, s);
    if s.queue != [] || s.worker != Waiting { WorkerBusy(s); }
    forall job: WorkStep | !job.Tick? && WorkEnabled(s, job) ensures Backlog(WorkNext(s, job)) < Backlog(s) {
      WorkerGetsNearer(s, job);
    }
    forall o: Obj, step: OwnStep | step != Send && OwnEnabled(s, o, step)
      ensures Backlog(OwnNext(s, o, step)) == Backlog(s)
    {
      OwnFrame(s, o, step);
    }
  }

  /**
   Close is never stuck: while it waits, the worker can take a step that is not a tick; every such step brings it nearer
   and no other goroutine's step takes it further away.
   */
  lemma CloseProgress(capacity: nat, limit: int, s: State)
    requires Reachable(capacity, limit, s) && CloseSent(s.closer) && s.worker != Stopped
    ensures Distance(s) > 0
    ensures exists job: WorkStep :: !job.Tick? && WorkEnabled(s, job)
    ensures forall job: WorkStep :: !job.Tick? && WorkEnabled(s, job) ==> Distance(WorkNext(s, job)) < Distance(s)
    ensures forall a: Action :: !a.Work? && Enabled(s, a) ==> Distance(Next(s, a)) == Distance(s)
  {
    ReachableInv(capacity, limit, s);
    WorkerCanStep(s);
    forall job: WorkStep | !job.Tick? && WorkEnabled(s, job) ensures Distance(WorkNext(s, job)) < Distance(s) {
      WorkerGetsNearer(s, job);
    }
    forall a: Action | !a.Work? && Enabled(s, a) ensures Distance(Next(s, a)) == Distance(s) {
      OthersKeepDistance(s, a);
    }
  }

  lemma WorkerCanStep(s: State)
    requires RefInv(s) && OrderInv(s) && CloseSent(s.closer) && s.worker != Stopped
    ensures Distance(s) > 0
    ensures exists job: WorkStep :: !job.Tick? && WorkEnabled(s, job)
  {
    hide PlaceInv, CountInv;
    WorkerBusy(s);
  }

  lemma WorkerBusy(s: State)
    requires RefInv(s) && s.worker != Stopped && (s.queue != [] || s.worker != Waiting)
    ensures exists job: WorkStep :: !job.Tick? && WorkEnabled(s, job)
  {
    match s.worker
    case Waiting => assert WorkEnabled(s, Receive);
    case Received(_) => assert WorkEnabled(s, CountReceive);
    case Counted(item) => assert WorkEnabled(s, if item.SpanItem? then Append(0, 0, true) else LastFlush(true));
    case Settling(_, _, _) => assert WorkEnabled(s, Settle);
    case Handed(o) =>
      assert RefOk(s, o);
      assert WorkEnabled(s, WorkerRelease);
    case Returning(o) =>
      assert RefOk(s, o);
      assert WorkEnabled(s, WorkerPut);
    case Flushed => assert WorkEnabled(s, WakeCloser);
  }

  lemma WorkerGetsNearer(s: State, job: WorkStep)
    requires NextOk(s.worker) && WorkEnabled(s, job) && !job.Tick?
    ensures Distance(WorkNext(s, job)) < Distance(s) && Backlog(WorkNext(s, job)) < Backlog(s)
  {
    hide Left, SenderSpec.Append, SenderSpec.WithProcess;
  }

  lemma OthersKeepDistance(s: State, a: Action)
    requires StageInv(s) && CloseSent(s.closer) && !a.Work? && Enabled(s, a)
    ensures Distance(Next(s, a)) == Distance(s)
  {
    match a
    case Own(o, step) => OwnKeepsDistance(s, o, step);
    case Close(_) =>
  }

  lemma OwnKeepsDistance(s: State, o: Obj, step: OwnStep)
    requires OwnEnabled(s, o, step)
    ensures Distance(OwnNext(s, o, step)) == Distance(s)
  {
    if step != Send {
      OwnFrame(s, o, step);
      hide OwnNext;
    }
  }
}
