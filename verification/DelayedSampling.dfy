/**
 Delayed sampling (span.go, span_context.go, tracer.go): the spans of a trace in one process share a sampling state, and
 until it is final each write to a span gives the sampler another chance. Any number of goroutines work on the spans at
 once; each operation is a list of atomic steps.
 */
module DelayedSampling {
  datatype Tag = Tag(key: string, value: string)

  datatype Decision = Decision(sample: bool, retryable: bool, tags: seq<Tag>)

  /** What SetTag finds in its arguments, for the key sampling.priority. */
  datatype Priority =
    | NotPriority
    | Zero
    | Forced        // positive, debug allowed
    | ForcedNoDebug // positive, under noDebugFlagOnForcedSampling
    | Refused       // not a uint16, or positive with debug not allowed

  datatype Operation =
    | SetTag(tag: Tag, priority: Priority) | SetOperationName | Finish | EnableFirehose
    | StartLocal                      // new span of the trace, tags aside
    | StartRemote                     // the same with a parent in another process
    | StartDebug(debugTag: Tag)       // new trace asked for by a debug id

  datatype Flags = Flags(sampled: bool, debug: bool, firehose: bool)

  /** The atomic steps operations are made of. */
  datatype Micro =
    | TestFinal                       // go on to the sampler if the state is not final
    | Consult
    | SetFinal
    | Raise(flags: Flags)             // a completed setFlag
    | ClearSampled                    // a completed unsetFlag(flagSampled)
    | AddSamplerTags(tags: seq<Tag>)
    | TestWriteable(tag: Tag)         // first half of isWriteable: final
    | TestSampled(tag: Tag)           // second half: sampled
    | Write(tag: Tag)
    | AddInternal(tag: Tag)

  function Program(op: Operation): (todo: seq<Micro>)
  {
    match op
    case SetTag(tag, NotPriority) => [TestFinal, TestWriteable(tag)]
    case SetTag(tag, Zero) => [ClearSampled, SetFinal, TestFinal, TestWriteable(tag)]
    case SetTag(tag, Forced) => [Raise(Flags(true, true, false)), SetFinal, TestFinal, TestWriteable(tag)]
    case SetTag(tag, ForcedNoDebug) => [Raise(Flags(true, false, false)), SetFinal, TestFinal, TestWriteable(tag)]
    case SetTag(_, Refused) => []
    case SetOperationName => [TestFinal]
    case Finish => [TestFinal]
    case EnableFirehose => [Raise(Flags(false, false, true))]
    case StartLocal => [TestFinal]
    case StartRemote => [SetFinal, TestFinal]
    case StartDebug(tag) => [Raise(Flags(true, true, false)), TestFinal, AddInternal(tag)]
  }

  /** applySamplingDecision */
  function Apply(d: Decision): (todo: seq<Micro>)
  {
    (if d.retryable then [] else [SetFinal])
    + (if d.sample then [Raise(Flags(true, false, false)), AddSamplerTags(d.tags)] else [])
  }

  /** The goroutine is working on `span` and has `todo` left of its operation. */
  datatype Thread = Thread(span: nat, todo: seq<Micro>)

  datatype Entry = FromUser(tag: Tag) | FromSampler(tag: Tag) | Internal(tag: Tag)

  /** A tag whose fate SetTag has decided. */
  datatype Outcome = Outcome(tag: Tag, written: bool)

  /** decided is history. */
  datatype State = State(
    flags: Flags,
    final: bool,
    threads: map<nat, Thread>,
    tags: map<nat, seq<Entry>>,
    decided: map<nat, seq<Outcome>>)

  function Start(flags: Flags): (s: State) { State(flags, false, map[], map[], map[]) }

  datatype Action = Begin(t: nat, span: nat, op: Operation) | Step(t: nat, answer: Decision)

  predicate Enabled(s: State, a: Action)
  {
    match a
    case Begin(t, _, _) => t in s.threads ==> s.threads[t].todo == []
    case Step(t, _) => t in s.threads && s.threads[t].todo != []
  }

  function TagsOf(s: State, span: nat): (tags: seq<Entry>) { if span in s.tags then s.tags[span] else [] }

  function DecidedOf(s: State, span: nat): (decided: seq<Outcome>)
  {
    if span in s.decided then s.decided[span] else []
  }

  function AddTags(s: State, span: nat, entries: seq<Entry>): (r: State)
  {
    s.(tags := s.tags[span := TagsOf(s, span) + entries])
  }

  function Decide(s: State, span: nat, outcome: Outcome): (r: State)
  {
    s.(decided := s.decided[span := DecidedOf(s, span) + [outcome]])
  }

  function Sampler(tags: seq<Tag>): (entries: seq<Entry>) { seq(|tags|, i requires 0 <= i < |tags| => FromSampler(tags[i])) }

  function Raised(f: Flags, g: Flags): (r: Flags)
  {
    Flags(f.sampled || g.sampled, f.debug || g.debug, f.firehose || g.firehose)
  }

  /** What a step leaves to do in front of the rest of the operation. */
  function Follow(flags: Flags, final: bool, m: Micro, answer: Decision): (todo: seq<Micro>)
  {
    match m
    case TestFinal => if final then [] else [Consult]
    case Consult => Apply(answer)
    case TestWriteable(tag) => if final then [TestSampled(tag)] else [Write(tag)]
    case TestSampled(tag) => if flags.sampled then [Write(tag)] else []
    case _ => []
  }

  function Effect(s: State, span: nat, m: Micro): (r: State)
  {
    match m
    case SetFinal => s.(final := true)
    case Raise(flags) => s.(flags := Raised(s.flags, flags))
    case ClearSampled => s.(flags := s.flags.(sampled := false))
    case AddSamplerTags(tags) => AddTags(s, span, Sampler(tags))
    case AddInternal(tag) => AddTags(s, span, [Internal(tag)])
    case TestSampled(tag) => if s.flags.sampled then s else Decide(s, span, Outcome(tag, false))
    case Write(tag) => Decide(AddTags(s, span, [FromUser(tag)]), span, Outcome(tag, true))
    case _ => s
  }

  function Next(s: State, a: Action): (r: State)
    requires Enabled(s, a)
  {
    match a
    case Begin(t, span, op) => s.(threads := s.threads[t := Thread(span, Program(op))])
    case Step(t, answer) =>
      var th := s.threads[t];
      var todo := Follow(s.flags, s.final, th.todo[0], answer) + th.todo[1..];
      Effect(s, th.span, th.todo[0]).(threads := s.threads[t := th.(todo := todo)])
  }

  ghost predicate Runs(s: State, acts: seq<Action>, t: State)
    decreases |acts|
  {
    if acts == [] then s == t else Enabled(s, acts[0]) && Runs(Next(s, acts[0]), acts[1..], t)
  }

  /** A new state is open: the first operation that can ask the sampler does, and goes on as the answer says. */
  lemma FirstOperationAsks(flags: Flags, t: nat, span: nat, op: Operation, answer: Decision)
    requires op == SetOperationName || op == Finish || op == StartLocal || (op.SetTag? && op.priority == NotPriority)
    ensures var begun := Next(Start(flags), Begin(t, span, op));
            Enabled(Start(flags), Begin(t, span, op)) && Enabled(begun, Step(t, answer))
            && var asking := Next(begun, Step(t, answer));
               asking.flags == flags && asking.threads[t].todo != [] && asking.threads[t].todo[0] == Consult
               && !asking.final
  {
  }

  // ----- what never goes back -----

  predicate ClearsSampled(s: State, a: Action) { a.Step? && Enabled(s, a) && s.threads[a.t].todo[0] == ClearSampled }

  /** One step: final, debug and firehose stay set; sampled is cleared by priority 0 and nothing else. */
  lemma StepKeeps(s: State, a: Action)
    requires Enabled(s, a)
    ensures var r := Next(s, a);
            (s.final ==> r.final) && (s.flags.debug ==> r.flags.debug) && (s.flags.firehose ==> r.flags.firehose)
            && (s.flags.sampled && !r.flags.sampled ==> ClearsSampled(s, a))
  {
  }

  predicate Begins(a: Action, p: Priority) { a.Begin? && a.op.SetTag? && a.op.priority == p }

  /** The steps a goroutine may still take that would clear the flag. */
  predicate Clearing(th: Thread) { ClearSampled in th.todo }

  ghost predicate NothingClears(s: State) { forall t <- s.threads :: !Clearing(s.threads[t]) }

  lemma ClearingStep(s: State, a: Action)
    requires NothingClears(s) && Enabled(s, a) && !Begins(a, Zero)
    ensures NothingClears(Next(s, a)) && !ClearsSampled(s, a)
  {
  }

  /** Once positive, the decision stands for good unless somebody sets sampling.priority to 0. */
  lemma {:induction false} PositiveStands(s: State, acts: seq<Action>, t: State)
    requires NothingClears(s) && Runs(s, acts, t) && (forall a <- acts :: !Begins(a, Zero))
    ensures s.flags.sampled ==> t.flags.sampled
    decreases |acts|
  {
    if acts != [] {
      assert acts[0] in acts;
      ClearingStep(s, acts[0]);
      StepKeeps(s, acts[0]);
      hide Next, NothingClears, Enabled;
      PositiveStands(Next(s, acts[0]), acts[1..], t);
    }
  }

  /** final, debug and firehose never revert, in any run. */
  lemma {:induction false} NeverReverts(s: State, acts: seq<Action>, t: State)
    requires Runs(s, acts, t)
    ensures (s.final ==> t.final) && (s.flags.debug ==> t.flags.debug) && (s.flags.firehose ==> t.flags.firehose)
    decreases |acts|
  {
    if acts != [] {
      StepKeeps(s, acts[0]);
      hide Next;
      NeverReverts(Next(s, acts[0]), acts[1..], t);
    }
  }

  // ----- the sampler after the end -----

  predicate AboutToConsult(th: Thread) { Consult in th.todo }

  predicate Consults(s: State, a: Action) { a.Step? && Enabled(s, a) && s.threads[a.t].todo[0] == Consult }

  /**
   Once the state is final, a goroutine that has not already found it otherwise never calls the sampler again, whatever
   operations it and the others go on to.
   */
  lemma {:induction false} NoConsultAfterFinal(s: State, acts: seq<Action>, r: State, t: nat)
    requires s.final && Runs(s, acts, r) && (t in s.threads ==> !AboutToConsult(s.threads[t]))
    ensures r.final && (t in r.threads ==> !AboutToConsult(r.threads[t]))
    ensures forall answer: Decision :: !Consults(r, Step(t, answer))
    decreases |acts|
  {
    if acts != [] {
      ConsultStep(s, acts[0], t);
      hide Next, Enabled, AboutToConsult;
      NoConsultAfterFinal(Next(s, acts[0]), acts[1..], r, t);
    }
  }

  lemma ConsultStep(s: State, a: Action, t: nat)
    requires s.final && Enabled(s, a) && (t in s.threads ==> !AboutToConsult(s.threads[t]))
    ensures var r := Next(s, a); r.final && (t in r.threads ==> !AboutToConsult(r.threads[t]))
  {
  }

  // ----- a settled decision -----

  predicate ChangesFlags(m: Micro) { m.Raise? || m == ClearSampled }

  predicate Harmless(th: Thread) { Consult !in th.todo && forall m <- th.todo :: !ChangesFlags(m) }

  ghost predicate AllHarmless(s: State) { forall t <- s.threads :: Harmless(s.threads[t]) }

  predicate Plain(op: Operation)
  {
    match op
    case SetTag(_, p) => p == NotPriority || p == Refused
    case EnableFirehose => false
    case StartDebug(_) => false
    case _ => true
  }

  /**
   A final decision with no sampler call and no change of flags under way is settled: no operation other than one that
   sets sampling.priority or a flag outright changes any flag.
   */
  lemma {:induction false} SettledDecision(s: State, acts: seq<Action>, r: State)
    requires s.final && AllHarmless(s) && Runs(s, acts, r) && (forall a <- acts :: a.Begin? ==> Plain(a.op))
    ensures r.flags == s.flags && r.final
    decreases |acts|
  {
    if acts != [] {
      assert acts[0] in acts;
      SettledStep(s, acts[0]);
      hide Next, Enabled, AllHarmless;
      SettledDecision(Next(s, acts[0]), acts[1..], r);
    }
  }

  lemma SettledStep(s: State, a: Action)
    requires s.final && AllHarmless(s) && Enabled(s, a) && (a.Begin? ==> Plain(a.op))
    ensures var r := Next(s, a); r.final && r.flags == s.flags && AllHarmless(r)
  {
    var r := Next(s, a);
    if a.Step? {
      assert Harmless(s.threads[a.t]);
      assert s.threads[a.t].todo[0] in s.threads[a.t].todo;
    }
    forall t <- r.threads ensures Harmless(r.threads[t]) {
      if t != a.t {
        assert r.threads[t] == s.threads[t];
      } else if a.Step? {
        assert forall m <- s.threads[t].todo[1..] :: m in s.threads[t].todo;
      }
    }
  }

  // ----- tags -----

  function UserTags(entries: seq<Entry>): (tags: seq<Tag>)
  {
    if entries == [] then []
    else
      var n := |entries| - 1;
      UserTags(entries[..n]) + (if entries[n].FromUser? then [entries[n].tag] else [])
  }

  function Written(outcomes: seq<Outcome>): (tags: seq<Tag>)
  {
    if outcomes == [] then []
    else
      var n := |outcomes| - 1;
      Written(outcomes[..n]) + (if outcomes[n].written then [outcomes[n].tag] else [])
  }

  lemma WrittenAppend(outcomes: seq<Outcome>, o: Outcome)
    ensures Written(outcomes + [o]) == Written(outcomes) + if o.written then [o.tag] else []
  {
  }

  lemma {:induction false} UserTagsAppend(entries: seq<Entry>, more: seq<Entry>)
    requires (forall e <- more :: !e.FromUser?) || |more| == 1
    ensures UserTags(entries + more) == UserTags(entries) + if more != [] && more[0].FromUser? then [more[0].tag] else []
    decreases |more|
  {
    if more == [] {
      assert entries + more == entries;
    } else {
      var n := |more| - 1;
      assert (entries + more)[..|entries| + n] == entries + more[..n];
      UserTagsAppend(entries, more[..n]);
      assert entries + [] == entries;
    }
  }

  ghost predicate Pending(th: Thread) { exists tag: Tag :: TestSampled(tag) in th.todo }

  /**
   The span's user tags are those decided to be written, in order; a tag is turned down only once the state is final.
   */
  ghost predicate SpanTags(entries: seq<Entry>, decided: seq<Outcome>, final: bool)
  {
    UserTags(entries) == Written(decided) && (!final ==> forall i: nat :: i < |decided| ==> decided[i].written)
  }

  ghost predicate TagInv(s: State)
  {
    (forall span: nat :: SpanTags(TagsOf(s, span), DecidedOf(s, span), s.final))
    && (!s.final ==> forall t <- s.threads :: !Pending(s.threads[t]))
  }

  /** The entries a step adds to the span it works on. */
  function NewEntries(m: Micro): (entries: seq<Entry>)
  {
    match m
    case AddSamplerTags(tags) => Sampler(tags)
    case AddInternal(tag) => [Internal(tag)]
    case Write(tag) => [FromUser(tag)]
    case _ => []
  }

  /** The decision a step takes. */
  function NewOutcomes(m: Micro, sampled: bool): (outcomes: seq<Outcome>)
  {
    match m
    case TestSampled(tag) => if sampled then [] else [Outcome(tag, false)]
    case Write(tag) => [Outcome(tag, true)]
    case _ => []
  }

  lemma SpanTagsStep(entries: seq<Entry>, decided: seq<Outcome>, final: bool, m: Micro, sampled: bool)
    requires SpanTags(entries, decided, final) && (m.TestSampled? ==> final)
    ensures SpanTags(entries + NewEntries(m), decided + NewOutcomes(m, sampled), final)
  {
    UserTagsAppend(entries, NewEntries(m));
    if NewOutcomes(m, sampled) == [] {
      assert decided + [] == decided;
    } else {
      WrittenAppend(decided, NewOutcomes(m, sampled)[0]);
    }
    hide UserTags, Written;
  }

  lemma EffectTags(s: State, span: nat, m: Micro, other: nat)
    requires SpanTags(TagsOf(s, other), DecidedOf(s, other), s.final) && (m.TestSampled? ==> s.final)
    ensures var r := Effect(s, span, m); SpanTags(TagsOf(r, other), DecidedOf(r, other), r.final)
  {
    if other == span {
      EffectHere(s, span, m);
      SpanTagsStep(TagsOf(s, span), DecidedOf(s, span), s.final, m, s.flags.sampled);
    } else {
      EffectElsewhere(s, span, m, other);
    }
    hide Effect, TagsOf, DecidedOf, NewEntries, NewOutcomes, UserTags, Written;
  }

  lemma EffectHere(s: State, span: nat, m: Micro)
    ensures var r := Effect(s, span, m);
            TagsOf(r, span) == TagsOf(s, span) + NewEntries(m)
            && DecidedOf(r, span) == DecidedOf(s, span) + NewOutcomes(m, s.flags.sampled)
            && (s.final ==> r.final)
  {
    hide Sampler;
    assert TagsOf(s, span) + [] == TagsOf(s, span) && DecidedOf(s, span) + [] == DecidedOf(s, span);
  }

  lemma EffectElsewhere(s: State, span: nat, m: Micro, other: nat)
    requires other != span
    ensures var r := Effect(s, span, m);
            TagsOf(r, other) == TagsOf(s, other) && DecidedOf(r, other) == DecidedOf(s, other) && (s.final ==> r.final)
  {
    hide Sampler;
  }

  lemma TagStep(s: State, a: Action)
    requires TagInv(s) && Enabled(s, a)
    ensures TagInv(Next(s, a))
  {
    PendingStep(s, a);
    var r := Next(s, a);
    hide SpanTags, Effect;
    if a.Step? {
      var th := s.threads[a.t];
      if th.todo[0].TestSampled? { assert Pending(th); }
      forall span: nat ensures SpanTags(TagsOf(r, span), DecidedOf(r, span), r.final) {
        EffectTags(s, th.span, th.todo[0], span);
      }
    } else {
      assert r.tags == s.tags && r.decided == s.decided;
      forall span: nat ensures SpanTags(TagsOf(r, span), DecidedOf(r, span), r.final) {
        assert SpanTags(TagsOf(s, span), DecidedOf(s, span), s.final);
      }
    }
  }

  lemma NoPending(flags: Flags, final: bool, th: Thread, answer: Decision)
    requires th.todo != [] && !final && !Pending(th)
    ensures !Pending(th.(todo := Follow(flags, final, th.todo[0], answer) + th.todo[1..]))
  {
    assert th.todo[0] in th.todo && forall m <- th.todo[1..] :: m in th.todo;
  }

  lemma EffectThreads(s: State, span: nat, m: Micro)
    ensures Effect(s, span, m).threads == s.threads
  {
    hide Sampler;
  }

  lemma PendingStep(s: State, a: Action)
    requires TagInv(s) && Enabled(s, a)
    ensures var r := Next(s, a); !r.final ==> forall t <- r.threads :: !Pending(r.threads[t])
  {
    if a.Step? && !s.final {
      var th := s.threads[a.t];
      NoPending(s.flags, s.final, th, a.answer);
      EffectThreads(s, th.span, th.todo[0]);
      hide Effect, Follow, Pending, SpanTags;
    } else {
      StepKeeps(s, a);
      hide SpanTags;
    }
  }

  lemma {:induction false} TagRun(s: State, acts: seq<Action>, t: State)
    requires TagInv(s) && Runs(s, acts, t)
    ensures TagInv(t)
    decreases |acts|
  {
    if acts != [] {
      TagStep(s, acts[0]);
      hide TagInv, Next, Enabled;
      TagRun(Next(s, acts[0]), acts[1..], t);
    }
  }

  function AllTags(outcomes: seq<Outcome>): (tags: seq<Tag>)
  {
    seq(|outcomes|, i requires 0 <= i < |outcomes| => outcomes[i].tag)
  }

  lemma {:induction false} WrittenAll(outcomes: seq<Outcome>)
    requires forall i: nat :: i < |outcomes| ==> outcomes[i].written
    ensures Written(outcomes) == AllTags(outcomes)
  {
    if outcomes != [] {
      WrittenAll(outcomes[..|outcomes| - 1]);
    }
  }

  /** While the state is not final, every tag that was set is on its span, in the order it was set. */
  lemma TagsKeptInOrder(flags: Flags, acts: seq<Action>, s: State, span: nat)
    requires Runs(Start(flags), acts, s) && !s.final
    ensures UserTags(TagsOf(s, span)) == AllTags(DecidedOf(s, span))
  {
    assert TagInv(Start(flags));
    TagRun(Start(flags), acts, s);
    WrittenAll(DecidedOf(s, span));
  }

  /** A tag that is on a span stays where it is. */
  lemma {:induction false} TagsOnlyGrow(s: State, acts: seq<Action>, t: State, span: nat)
    requires Runs(s, acts, t)
    ensures TagsOf(s, span) <= TagsOf(t, span)
    decreases |acts|
  {
    if acts != [] {
      var a := acts[0];
      if a.Step? { EffectGrows(s, s.threads[a.t].span, s.threads[a.t].todo[0], span); }
      hide Effect;
      TagsOnlyGrow(Next(s, a), acts[1..], t, span);
    }
  }

  lemma EffectGrows(s: State, span: nat, m: Micro, other: nat)
    ensures TagsOf(s, other) <= TagsOf(Effect(s, span, m), other)
  {
  }

  /** The goroutine has yet to decide whether the tag is written. */
  predicate Owes(th: Thread, span: nat, tag: Tag)
  {
    th.span == span && th.todo != []
    && var last := th.todo[|th.todo| - 1];
       last == TestWriteable(tag) || last == TestSampled(tag) || last == Write(tag)
  }

  ghost predicate DecidedSince(s: State, span: nat, tag: Tag, from: nat)
  {
    exists i: nat :: from <= i < |DecidedOf(s, span)| && DecidedOf(s, span)[i].tag == tag
  }

  /** No tag is forgotten: when SetTag is over, its tag has been written or turned down. */
  lemma {:induction false} NoTagForgotten(s: State, acts: seq<Action>, r: State, t: nat, span: nat, tag: Tag, from: nat)
    requires Runs(s, acts, r) && from <= |DecidedOf(s, span)|
    requires (t in s.threads && Owes(s.threads[t], span, tag)) || DecidedSince(s, span, tag, from)
    ensures (t in r.threads && Owes(r.threads[t], span, tag)) || DecidedSince(r, span, tag, from)
    decreases |acts|
  {
    if acts != [] {
      OwesStep(s, acts[0], t, span, tag, from);
      hide Next, Owes, DecidedSince, Enabled;
      NoTagForgotten(Next(s, acts[0]), acts[1..], r, t, span, tag, from);
    }
  }

  lemma DecidedGrows(s: State, a: Action, span: nat)
    requires Enabled(s, a)
    ensures DecidedOf(s, span) <= DecidedOf(Next(s, a), span)
  {
  }

  lemma OwesStep(s: State, a: Action, t: nat, span: nat, tag: Tag, from: nat)
    requires Enabled(s, a) && from <= |DecidedOf(s, span)|
    requires (t in s.threads && Owes(s.threads[t], span, tag)) || DecidedSince(s, span, tag, from)
    ensures from <= |DecidedOf(Next(s, a), span)|
    ensures var r := Next(s, a);
            (t in r.threads && Owes(r.threads[t], span, tag)) || DecidedSince(r, span, tag, from)
  {
    var r := Next(s, a);
    DecidedGrows(s, a, span);
    if DecidedSince(s, span, tag, from) {
      hide Next;
      var i: nat :| from <= i < |DecidedOf(s, span)| && DecidedOf(s, span)[i].tag == tag;
      assert DecidedOf(r, span)[i].tag == tag;
    } else if a.Step? && a.t == t && |s.threads[t].todo| == 1 {
      LastMicro(s, a, span, tag);
      hide Next;
      if DecidedOf(r, span) != DecidedOf(s, span) {
        assert DecidedOf(r, span)[|DecidedOf(s, span)|].tag == tag;
      }
    }
  }

  lemma LastMicro(s: State, a: Action, span: nat, tag: Tag)
    requires Enabled(s, a) && a.Step? && |s.threads[a.t].todo| == 1 && Owes(s.threads[a.t], span, tag)
    ensures var r := Next(s, a);
            (DecidedOf(r, span) == DecidedOf(s, span) && a.t in r.threads && Owes(r.threads[a.t], span, tag))
            || exists w: bool :: DecidedOf(r, span) == DecidedOf(s, span) + [Outcome(tag, w)]
  {
  }

  lemma SetTagDecides(s: State, t: nat, acts: seq<Action>, r: State, span: nat, tag: Tag, p: Priority)
    requires p != Refused && Enabled(s, Begin(t, span, SetTag(tag, p)))
    requires Runs(Next(s, Begin(t, span, SetTag(tag, p))), acts, r) && t in r.threads && r.threads[t].todo == []
    ensures DecidedSince(r, span, tag, |DecidedOf(s, span)|)
  {
    var begun := Next(s, Begin(t, span, SetTag(tag, p)));
    assert Owes(begun.threads[t], span, tag);
    NoTagForgotten(begun, acts, r, t, span, tag, |DecidedOf(s, span)|);
  }

  // ----- an operation left alone -----

  /** What a goroutine sees of the state when it works on a span undisturbed. */
  datatype View = View(flags: Flags, final: bool, entries: seq<Entry>)

  function ViewOf(s: State, span: nat): (v: View) { View(s.flags, s.final, TagsOf(s, span)) }

  function ViewAfter(v: View, m: Micro): (r: View)
  {
    match m
    case SetFinal => v.(final := true)
    case Raise(flags) => v.(flags := Raised(v.flags, flags))
    case ClearSampled => v.(flags := v.flags.(sampled := false))
    case AddSamplerTags(tags) => v.(entries := v.entries + Sampler(tags))
    case AddInternal(tag) => v.(entries := v.entries + [Internal(tag)])
    case Write(tag) => v.(entries := v.entries + [FromUser(tag)])
    case _ => v
  }

  function Cost(m: Micro): (n: nat)
  {
    match m case TestFinal => 5 case Consult => 4 case TestWriteable(_) => 3 case TestSampled(_) => 2 case _ => 1
  }

  function Costs(todo: seq<Micro>): (n: nat) { if todo == [] then 0 else Cost(todo[0]) + Costs(todo[1..]) }

  lemma {:induction false} CostsConcat(p: seq<Micro>, q: seq<Micro>)
    ensures Costs(p + q) == Costs(p) + Costs(q)
  {
    if p == [] {
      assert p + q == q;
    } else {
      assert (p + q)[1..] == p[1..] + q;
      CostsConcat(p[1..], q);
    }
  }

  lemma CostOfOne(m: Micro)
    ensures Costs([m]) == Cost(m)
  {
  }

  lemma ApplyCosts(answer: Decision)
    ensures Costs(Apply(answer)) <= 3
  {
    var raise, add := Raise(Flags(true, false, false)), AddSamplerTags(answer.tags);
    CostOfOne(SetFinal);
    CostOfOne(raise);
    CostOfOne(add);
    CostsConcat([raise], [add]);
    assert [raise] + [add] == [raise, add];
    CostsConcat(if answer.retryable then [] else [SetFinal], if answer.sample then [raise, add] else []);
  }

  lemma FollowCosts(flags: Flags, final: bool, m: Micro, answer: Decision)
    ensures Costs(Follow(flags, final, m, answer)) < Cost(m)
  {
    match m
    case Consult => ApplyCosts(answer);
    case TestFinal => CostOfOne(Consult);
    case TestWriteable(tag) =>
      CostOfOne(TestSampled(tag));
      CostOfOne(Write(tag));
    case TestSampled(tag) => CostOfOne(Write(tag));
    case _ =>
  }

  /** The view after the whole list, if nobody else takes a step. */
  function Alone(v: View, todo: seq<Micro>, answer: Decision): (r: View)
    decreases Costs(todo)
  {
    if todo == [] then v
    else
      FollowCosts(v.flags, v.final, todo[0], answer);
      CostsConcat(Follow(v.flags, v.final, todo[0], answer), todo[1..]);
      Alone(ViewAfter(v, todo[0]), Follow(v.flags, v.final, todo[0], answer) + todo[1..], answer)
  }

  lemma EffectView(s: State, span: nat, m: Micro)
    ensures ViewOf(Effect(s, span, m), span) == ViewAfter(ViewOf(s, span), m)
    ensures Effect(s, span, m).threads == s.threads
  {
  }

  /** Alone is what the steps of one goroutine do. */
  lemma {:induction false} AloneIsRun(s: State, t: nat, answer: Decision) returns (acts: seq<Action>, r: State)
    requires t in s.threads
    ensures Runs(s, acts, r) && t in r.threads && r.threads[t].todo == []
    ensures ViewOf(r, s.threads[t].span) == Alone(ViewOf(s, s.threads[t].span), s.threads[t].todo, answer)
    decreases Costs(s.threads[t].todo)
  {
    var th := s.threads[t];
    if th.todo == [] {
      acts, r := [], s;
    } else {
      var next := Next(s, Step(t, answer));
      FollowCosts(s.flags, s.final, th.todo[0], answer);
      CostsConcat(Follow(s.flags, s.final, th.todo[0], answer), th.todo[1..]);
      EffectView(s, th.span, th.todo[0]);
      hide ViewAfter, Follow, Effect;
      var rest;
      rest, r := AloneIsRun(next, t, answer);
      acts := [Step(t, answer)] + rest;
      assert acts[1..] == rest;
    }
  }

  /** The sampler is asked unless the state is final; a positive answer counts even if it is retryable. */
  function Asked(v: View, answer: Decision): (r: View)
  {
    if v.final then v
    else
      View(v.flags.(sampled := v.flags.sampled || answer.sample), !answer.retryable,
           v.entries + if answer.sample then Sampler(answer.tags) else [])
  }

  function Prioritized(v: View, p: Priority): (r: View)
  {
    match p
    case Zero => v.(flags := v.flags.(sampled := false), final := true)
    case Forced => v.(flags := v.flags.(sampled := true, debug := true), final := true)
    case ForcedNoDebug => v.(flags := v.flags.(sampled := true), final := true)
    case _ => v
  }

  lemma AloneNext(v: View, todo: seq<Micro>, answer: Decision)
    requires todo != []
    ensures Alone(v, todo, answer)
         == Alone(ViewAfter(v, todo[0]), Follow(v.flags, v.final, todo[0], answer) + todo[1..], answer)
  {
  }

  /** The consultation, wherever it comes in an operation. */
  lemma AskedAlone(v: View, rest: seq<Micro>, answer: Decision)
    ensures Alone(v, [TestFinal] + rest, answer) == Alone(Asked(v, answer), rest, answer)
  {
    hide Alone;
    var todo := [TestFinal] + rest;
    AloneNext(v, todo, answer);
    assert todo[1..] == rest && [] + rest == rest;
    if !v.final {
      ApplyAlone(v, rest, answer);
      assert ([Consult] + rest)[1..] == rest;
      AloneNext(v, [Consult] + rest, answer);
    }
  }

  lemma ApplyAlone(v: View, rest: seq<Micro>, answer: Decision)
    requires !v.final
    ensures Alone(v, Apply(answer) + rest, answer) == Alone(Asked(v, answer), rest, answer)
  {
    hide Alone;
    var raise := [Raise(Flags(true, false, false)), AddSamplerTags(answer.tags)];
    var second := if answer.sample then raise else [];
    var w := v.(final := !answer.retryable);
    if !answer.retryable {
      AloneNext(v, [SetFinal] + second + rest, answer);
      assert ([SetFinal] + second + rest)[1..] == second + rest && [] + (second + rest) == second + rest;
      assert Apply(answer) + rest == [SetFinal] + second + rest;
    } else {
      assert Apply(answer) == second;
    }
    assert Alone(v, Apply(answer) + rest, answer) == Alone(w, second + rest, answer);
    if answer.sample {
      AloneNext(w, raise + rest, answer);
      var tail := [AddSamplerTags(answer.tags)] + rest;
      assert (raise + rest)[1..] == tail && [] + tail == tail;
      AloneNext(ViewAfter(w, raise[0]), tail, answer);
      assert tail[1..] == rest && [] + rest == rest;
    } else {
      assert second + rest == rest && v.entries + [] == v.entries;
    }
  }

  lemma WriteAlone(v: View, tag: Tag, answer: Decision)
    ensures Alone(v, [TestWriteable(tag)], answer)
         == if !v.final || v.flags.sampled then v.(entries := v.entries + [FromUser(tag)]) else v
  {
    assert [TestWriteable(tag)][1..] == [] && [TestSampled(tag)][1..] == [] && [Write(tag)][1..] == [];
    AloneNext(v, [TestWriteable(tag)], answer);
    AloneNext(v, [TestSampled(tag)], answer);
    AloneNext(v, [Write(tag)], answer);
    assert [Write(tag)] + [] == [Write(tag)] && [TestSampled(tag)] + [] == [TestSampled(tag)];
    var none: seq<Micro> := [];
    assert none + none == none;
  }

  /**
   SetTag undisturbed: priority first, then the sampler, then the tag, which is dropped only if the answer is a final
   no.
   */
  lemma SetTagAlone(v: View, tag: Tag, p: Priority, answer: Decision)
    ensures var asked := Asked(Prioritized(v, p), answer);
            Alone(v, Program(SetTag(tag, p)), answer)
            == if p == Refused then v
               else if !asked.final || asked.flags.sampled then asked.(entries := asked.entries + [FromUser(tag)])
               else asked
  {
    var rest := [TestFinal] + [TestWriteable(tag)];
    AskedAlone(Prioritized(v, p), [TestWriteable(tag)], answer);
    WriteAlone(Asked(Prioritized(v, p), answer), tag, answer);
    if p == NotPriority {
      assert Program(SetTag(tag, p)) == rest;
    } else if p != Refused {
      PriorityAlone(v, tag, p, answer);
    }
  }

  lemma PriorityAlone(v: View, tag: Tag, p: Priority, answer: Decision)
    requires p != Refused && p != NotPriority
    ensures Alone(v, Program(SetTag(tag, p)), answer)
         == Alone(Prioritized(v, p), [TestFinal] + [TestWriteable(tag)], answer)
  {
    hide Alone;
    var todo, rest := Program(SetTag(tag, p)), [TestFinal] + [TestWriteable(tag)];
    AloneNext(v, todo, answer);
    var w := ViewAfter(v, todo[0]);
    assert todo[1..] == [SetFinal] + rest && [] + ([SetFinal] + rest) == [SetFinal] + rest;
    AloneNext(w, [SetFinal] + rest, answer);
    assert ([SetFinal] + rest)[1..] == rest && [] + rest == rest;
    assert ViewAfter(w, SetFinal) == Prioritized(v, p);
  }

  /** What the other operations do undisturbed: they ask the sampler, or set a flag outright, or both. */
  lemma OthersAlone(v: View, op: Operation, answer: Decision)
    requires !op.SetTag?
    ensures Alone(v, Program(op), answer)
         == match op
            case SetOperationName => Asked(v, answer)
            case Finish => Asked(v, answer)
            case StartLocal => Asked(v, answer)
            case StartRemote => v.(final := true)
            case EnableFirehose => v.(flags := v.flags.(firehose := true))
            case StartDebug(tag) =>
              var asked := Asked(v.(flags := v.flags.(sampled := true, debug := true)), answer);
              asked.(entries := asked.entries + [Internal(tag)])
  {
    hide Alone;
    var none: seq<Micro> := [];
    assert none + none == none;
    match op
    case StartRemote =>
      assert Program(op) == [SetFinal] + [TestFinal] && ([SetFinal] + [TestFinal])[1..] == [TestFinal] + none;
      assert none + ([TestFinal] + none) == [TestFinal] + none;
      AloneNext(v, [SetFinal] + [TestFinal], answer);
      AskedAlone(v.(final := true), none, answer);
      AloneDone(v.(final := true), answer);
    case EnableFirehose =>
      var todo := Program(op);
      assert todo[1..] == none;
      AloneNext(v, todo, answer);
      AloneDone(ViewAfter(v, todo[0]), answer);
    case StartDebug(tag) => DebugAlone(v, tag, answer);
    case SetOperationName => OneQuestion(v, answer);
    case Finish => OneQuestion(v, answer);
    case StartLocal => OneQuestion(v, answer);
    case SetTag(_, _) =>
  }

  lemma OneQuestion(v: View, answer: Decision)
    ensures Alone(v, [TestFinal], answer) == Asked(v, answer)
  {
    hide Alone;
    assert [TestFinal] + [] == [TestFinal];
    AskedAlone(v, [], answer);
    AloneDone(Asked(v, answer), answer);
  }

  lemma AloneDone(v: View, answer: Decision)
    ensures Alone(v, [], answer) == v
  {
  }

  lemma DebugAlone(v: View, tag: Tag, answer: Decision)
    ensures var asked := Asked(v.(flags := v.flags.(sampled := true, debug := true)), answer);
            Alone(v, Program(StartDebug(tag)), answer) == asked.(entries := asked.entries + [Internal(tag)])
  {
    hide Alone;
    var todo, add := Program(StartDebug(tag)), [AddInternal(tag)];
    var none: seq<Micro> := [];
    var w := v.(flags := v.flags.(sampled := true, debug := true));
    assert todo[1..] == [TestFinal] + add && none + ([TestFinal] + add) == [TestFinal] + add;
    AloneNext(v, todo, answer);
    AskedAlone(w, add, answer);
    assert add[1..] == none && none + none == none;
    AloneNext(Asked(w, answer), add, answer);
    AloneDone(ViewAfter(Asked(w, answer), add[0]), answer);
  }

  /**
   Asking for a debug trace and then setting the priority to 0 leaves the trace unsampled but marked for debugging.
   */
  lemma DebugOutlivesZero(v: View, one: Tag, zero: Tag, answer: Decision)
    ensures var forced := Alone(v, Program(SetTag(one, Forced)), answer);
            var r := Alone(forced, Program(SetTag(zero, Zero)), answer);
            r.flags == Flags(false, true, v.flags.firehose) && r.final
            && r.entries == v.entries + [FromUser(one)]
  {
    SetTagAlone(v, one, Forced, answer);
    var forced := Alone(v, Program(SetTag(one, Forced)), answer);
    SetTagAlone(forced, zero, Zero, answer);
    hide Alone, Program;
  }
}
