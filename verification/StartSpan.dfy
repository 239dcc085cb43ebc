/**
 Starting spans (tracer.go): which reference becomes the parent, and how spans come to share a sampling state. Sampling
 states are known by their number in order of creation.
 */
module StartSpan {
  import opened TextContext

  datatype RefType = ChildOf | FollowsFrom | SelfRef

  datatype SpanContext = SpanContext(
    traceID: TraceID,
    spanID: nat,
    parentID: nat,
    baggage: map<string, string>,
    debugID: string,
    state: nat,
    remote: bool)

  datatype Reference = Reference(kind: RefType, context: SpanContext)

  const EMPTY: SpanContext := SpanContext(TraceID(0, 0), 0, 0, map[], "", 0, false)

  predicate TraceValid(t: TraceID) { t.high != 0 || t.low != 0 }

  predicate IsValid(c: SpanContext) { TraceValid(c.traceID) && c.spanID != 0 }

  predicate DebugOnly(c: SpanContext) { !TraceValid(c.traceID) && c.debugID != "" }

  predicate IsEmpty(c: SpanContext) { !IsValid(c) && !DebugOnly(c) && |c.baggage| == 0 }

  // ----- the parent -----

  /** The references that can be a parent, in order. */
  function Candidates(refs: seq<Reference>): (r: seq<Reference>)
  {
    if refs == [] then []
    else
      var n := |refs| - 1;
      Candidates(refs[..n]) + if IsEmpty(refs[n].context) || refs[n].kind == SelfRef then [] else [refs[n]]
  }

  function ValidOnly(refs: seq<Reference>): (r: seq<Reference>)
  {
    if refs == [] then []
    else
      var n := |refs| - 1;
      ValidOnly(refs[..n]) + if IsValid(refs[n].context) then [refs[n]] else []
  }

  /** The last self reference that is not empty decides the context. */
  predicate LastSelf(refs: seq<Reference>, isSelfRef: bool, ctx: SpanContext)
  {
    if isSelfRef then
      exists i :: 0 <= i < |refs| && refs[i].kind == SelfRef && !IsEmpty(refs[i].context) && refs[i].context == ctx
                  && forall j :: i < j < |refs| ==> refs[j].kind != SelfRef || IsEmpty(refs[j].context)
    else
      ctx == EMPTY && forall j :: 0 <= j < |refs| ==> refs[j].kind != SelfRef || IsEmpty(refs[j].context)
  }

  /** The parent is the first ChildOf among the candidates or, failing that, the last candidate. */
  ghost predicate ParentOf(candidates: seq<Reference>, parent: SpanContext)
  {
    if exists i :: 0 <= i < |candidates| && candidates[i].kind == ChildOf then
      exists i :: 0 <= i < |candidates| && candidates[i].kind == ChildOf && candidates[i].context == parent
                  && forall j :: 0 <= j < i ==> candidates[j].kind != ChildOf
    else if candidates == [] then parent == EMPTY
    else candidates[|candidates| - 1].context == parent
  }

  method ChooseParent(refs: seq<Reference>)
    returns (references: seq<Reference>, parent: SpanContext, hasParent: bool, ctx: SpanContext, isSelfRef: bool)
    ensures LastSelf(refs, isSelfRef, ctx)
    ensures references == ValidOnly(Candidates(refs))
    ensures hasParent <==> Candidates(refs) != []
    ensures ParentOf(Candidates(refs), parent)
    ensures !hasParent ==> parent == SpanContext(TraceID(0, 0), 0, 0, map[], "", 0, false)
    ensures !isSelfRef ==> ctx == SpanContext(TraceID(0, 0), 0, 0, map[], "", 0, false)
  {
    NoReferences();
    hide LastSelf, ParentOf, Candidates, ValidOnly;
    references, parent, hasParent, ctx, isSelfRef := [], EMPTY, false, EMPTY, false;
    assert refs[..0] == [];
    for i := 0 to |refs|
      invariant LastSelf(refs[..i], isSelfRef, ctx) && (!isSelfRef ==> ctx == EMPTY)
      invariant references == ValidOnly(Candidates(refs[..i]))
      invariant hasParent <==> exists k :: 0 <= k < |Candidates(refs[..i])| && Candidates(refs[..i])[k].kind == ChildOf
      invariant ParentOf(Candidates(refs[..i]), parent)
      invariant if Candidates(refs[..i]) == [] then parent == EMPTY else !IsEmpty(parent)
    {
      var ref := refs[i];
      ghost var before := refs[..i];
      ghost var was := Candidates(before);
      assert refs[..i + 1] == before + [ref];
      CandidatesAppend(before, ref);
      if IsEmpty(ref.context) {
        assert was + [] == was;
        LastSelfAppend(before, ref, isSelfRef, ctx);
        continue;
      }
      LastSelfAppend(before, ref, isSelfRef, ctx);
      if ref.kind == SelfRef {
        assert was + [] == was;
        isSelfRef, ctx := true, ref.context;
        continue;
      }
      ValidAppend(was, ref);
      ParentAppend(was, ref, parent);
      if IsValid(ref.context) {
        references := references + [ref];
      }
      if !hasParent {
        parent := ref.context;
        hasParent := ref.kind == ChildOf;
      }
    }
    assert refs[..|refs|] == refs;
    if !hasParent && !IsEmpty(parent) {
      hasParent := true;
    }
  }

  lemma NoReferences()
    ensures LastSelf([], false, EMPTY) && Candidates([]) == [] && ValidOnly([]) == [] && ParentOf([], EMPTY)
  {
  }

  lemma CandidatesAppend(refs: seq<Reference>, r: Reference)
    ensures Candidates(refs + [r]) == Candidates(refs) + if IsEmpty(r.context) || r.kind == SelfRef then [] else [r]
  {
  }

  lemma ValidAppend(refs: seq<Reference>, r: Reference)
    ensures ValidOnly(refs + [r]) == ValidOnly(refs) + if IsValid(r.context) then [r] else []
  {
  }

  lemma LastSelfAppend(refs: seq<Reference>, r: Reference, isSelfRef: bool, ctx: SpanContext)
    requires LastSelf(refs, isSelfRef, ctx)
    ensures if r.kind == SelfRef && !IsEmpty(r.context) then LastSelf(refs + [r], true, r.context)
            else LastSelf(refs + [r], isSelfRef, ctx)
  {
    var all := refs + [r];
    if r.kind == SelfRef && !IsEmpty(r.context) {
      assert all[|refs|] == r;
    } else if isSelfRef {
      var i :| 0 <= i < |refs| && refs[i].kind == SelfRef && !IsEmpty(refs[i].context) && refs[i].context == ctx
               && forall j :: i < j < |refs| ==> refs[j].kind != SelfRef || IsEmpty(refs[j].context);
      assert all[i] == refs[i];
    }
  }

  lemma ParentAppend(candidates: seq<Reference>, r: Reference, parent: SpanContext)
    requires ParentOf(candidates, parent)
    ensures var all := candidates + [r];
            if exists i :: 0 <= i < |candidates| && candidates[i].kind == ChildOf then
              ParentOf(all, parent) && exists i :: 0 <= i < |all| && all[i].kind == ChildOf
            else ParentOf(all, r.context) && (r.kind == ChildOf <==> exists i :: 0 <= i < |all| && all[i].kind == ChildOf)
  {
    var all := candidates + [r];
    assert all[|candidates|] == r;
    if i :| 0 <= i < |candidates| && candidates[i].kind == ChildOf && candidates[i].context == parent
            && forall j :: 0 <= j < i ==> candidates[j].kind != ChildOf {
      assert all[i] == candidates[i];
    }
  }

  /** A reference counts if it has a trace and a span, or a debug id instead of a trace, or baggage. */
  lemma Counts(c: SpanContext)
    ensures Candidates([Reference(ChildOf, c)]) == [Reference(ChildOf, c)]
       <==> (c.traceID != TraceID(0, 0) && c.spanID != 0) || (c.traceID == TraceID(0, 0) && c.debugID != "")
            || c.baggage != map[]
    ensures ValidOnly([Reference(ChildOf, c)]) == [Reference(ChildOf, c)] <==> c.traceID != TraceID(0, 0) && c.spanID != 0
  {
    assert [Reference(ChildOf, c)][..0] == [];
  }

  // ----- sampling states -----

  /** home is history: the trace the state was made for. */
  datatype SamplingState = SamplingState(localRootSpan: nat, final: bool, debug: bool, fromRemote: bool, home: TraceID)

  /** All the contexts handed out so far, and all sampling states. */
  datatype World = World(contexts: set<SpanContext>, states: seq<SamplingState>)

  datatype Ids = Ids(traceID: TraceID, spanID: nat)

  /**
   The context of a new span: `ids` are the fresh random ones, of which a child uses the span id alone; `debug` says that a
   debug id came along and is allowed; `shared` that the caller's span is joined (Zipkin's one span for both sides).
   */
  function NewContext(w: World, parent: SpanContext, hasParent: bool, ids: Ids, shared: bool): (c: SpanContext)
  {
    var baggage := if hasParent then parent.baggage else map[];
    if !hasParent || !IsValid(parent) then SpanContext(ids.traceID, ids.traceID.low, 0, baggage, "", |w.states|, false)
    else if shared then SpanContext(parent.traceID, parent.spanID, parent.parentID, baggage, "", parent.state, false)
    else SpanContext(parent.traceID, ids.spanID, parent.spanID, baggage, "", parent.state, false)
  }

  function StartFrom(w: World, parent: SpanContext, hasParent: bool, ids: Ids, shared: bool, debug: bool): (r: World)
    requires hasParent && IsValid(parent) ==> parent.state < |w.states|
  {
    var c := NewContext(w, parent, hasParent, ids, shared);
    var states :=
      if !hasParent || !IsValid(parent) then
        w.states + [SamplingState(c.spanID, false, hasParent && DebugOnly(parent) && debug, false, c.traceID)]
      else if parent.remote then
        w.states[parent.state := w.states[parent.state].(final := true, localRootSpan := c.spanID)]
      else w.states;
    World(w.contexts + {c}, states)
  }

  /** Extract makes a context with a state of its own. */
  function Extracted(w: World, c: SpanContext, final: bool, debug: bool): (r: World)
  {
    World(w.contexts + {c.(state := |w.states|, remote := true)},
          w.states + [SamplingState(0, final, debug, true, c.traceID)])
  }

  /** An empty value takes the item away; where there is none the context stays as it is, debug id included. */
  function WithBaggageItem(c: SpanContext, key: string, value: string): (r: SpanContext)
  {
    if value != "" then c.(baggage := c.baggage[key := value], debugID := "")
    else if key !in c.baggage then c
    else c.(baggage := c.baggage - {key}, debugID := "")
  }

  datatype Action =
    | Start(parent: SpanContext, hasParent: bool, ids: Ids, shared: bool, debug: bool)
    | Extract(context: SpanContext, final: bool, debug: bool)
    | SetBaggage(context: SpanContext, key: string, value: string)

  predicate Enabled(w: World, a: Action)
  {
    match a
    case Start(parent, hasParent, ids, _, _) => (hasParent ==> parent in w.contexts) && ids.traceID.low != 0 && ids.spanID != 0
    case Extract(_, _, _) => true
    case SetBaggage(c, _, _) => c in w.contexts
  }

  ghost predicate Sound(w: World)
  {
    forall c <- w.contexts :: c.state < |w.states| && w.states[c.state].home == c.traceID
                              && (c.remote ==> w.states[c.state].fromRemote)
  }

  function Next(w: World, a: Action): (r: World)
    requires Enabled(w, a) && (a.Start? && a.hasParent ==> a.parent.state < |w.states|)
  {
    match a
    case Start(parent, hasParent, ids, shared, debug) => StartFrom(w, parent, hasParent, ids, shared, debug)
    case Extract(c, final, debug) => Extracted(w, c, final, debug)
    case SetBaggage(c, key, value) => w.(contexts := w.contexts + {WithBaggageItem(c, key, value)})
  }

  ghost predicate Runs(w: World, acts: seq<Action>, t: World)
    decreases |acts|
  {
    if acts == [] then w == t
    else Sound(w) && Enabled(w, acts[0]) && Runs(Next(w, acts[0]), acts[1..], t)
  }

  lemma SoundStep(w: World, a: Action)
    requires Sound(w) && Enabled(w, a)
    ensures Sound(Next(w, a)) && |w.states| <= |Next(w, a).states|
    ensures forall i :: 0 <= i < |w.states| ==>
              w.states[i].home == Next(w, a).states[i].home && w.states[i].fromRemote == Next(w, a).states[i].fromRemote
              && (!w.states[i].fromRemote ==> Next(w, a).states[i] == w.states[i])
  {
  }

  /**
   Contexts that share a sampling state belong to one trace, and a state made for a trace started here keeps its local root
   for good: only the states of extracted contexts get a new one, from each span started under them.
   */
  lemma {:induction false} StatesStayHome(w: World, acts: seq<Action>, t: World, state: nat)
    requires Sound(w) && Runs(w, acts, t) && state < |w.states|
    ensures Sound(t) && state < |t.states| && t.states[state].home == w.states[state].home
    ensures t.states[state].fromRemote == w.states[state].fromRemote
    ensures !w.states[state].fromRemote ==> t.states[state] == w.states[state]
    ensures forall c <- t.contexts, d <- t.contexts :: c.state == d.state ==> c.traceID == d.traceID
    decreases |acts|
  {
    if acts != [] {
      SoundStep(w, acts[0]);
      hide Sound, Next, Enabled;
      StatesStayHome(Next(w, acts[0]), acts[1..], t, state);
    }
  }

  /** A span started without a valid parent is the local root of its state for good. */
  lemma OneLocalRoot(w: World, a: Action, acts: seq<Action>, t: World)
    requires Sound(w) && Enabled(w, a) && a.Start? && (!a.hasParent || !IsValid(a.parent))
    requires Runs(Next(w, a), acts, t)
    ensures var c := NewContext(w, a.parent, a.hasParent, a.ids, a.shared);
            c in Next(w, a).contexts && c.state < |t.states| && t.states[c.state].localRootSpan == c.spanID
            && IsValid(c) && c.parentID == 0
  {
    SoundStep(w, a);
    StatesStayHome(Next(w, a), acts, t, |w.states|);
  }

  /** The random ids of a new span are not in use. */
  ghost predicate FreshIds(w: World, a: Action)
  {
    a.Start? ==> forall c <- w.contexts :: c.spanID != a.ids.spanID && c.spanID != a.ids.traceID.low
  }

  ghost predicate FreshRuns(w: World, acts: seq<Action>, t: World)
    decreases |acts|
  {
    if acts == [] then w == t
    else
      Sound(w) && Enabled(w, acts[0]) && FreshIds(w, acts[0]) && FreshRuns(Next(w, acts[0]), acts[1..], t)
  }

  /** The root's span id is in use, and only contexts without a parent have it. */
  ghost predicate RootAlone(w: World, state: nat, root: nat)
  {
    (exists c <- w.contexts :: c.spanID == root)
    && forall c <- w.contexts :: c.state == state && c.spanID == root ==> c.parentID == 0
  }

  lemma RootAloneStep(w: World, a: Action, state: nat, root: nat)
    requires Sound(w) && Enabled(w, a) && FreshIds(w, a) && RootAlone(w, state, root) && state < |w.states|
    ensures RootAlone(Next(w, a), state, root)
  {
    var c :| c in w.contexts && c.spanID == root;
    assert c in Next(w, a).contexts;
  }

  lemma {:induction false} RootStaysAlone(w: World, acts: seq<Action>, t: World, state: nat, root: nat)
    requires Sound(w) && FreshRuns(w, acts, t) && RootAlone(w, state, root) && state < |w.states|
    ensures RootAlone(t, state, root)
    decreases |acts|
  {
    if acts != [] {
      SoundStep(w, acts[0]);
      RootAloneStep(w, acts[0], state, root);
      hide Sound, Next, Enabled, FreshIds, RootAlone;
      RootStaysAlone(Next(w, acts[0]), acts[1..], t, state, root);
    }
  }

  /**
   A new trace begins with a local root, and with fresh ids no span started under it is ever taken for one: every context
   with its state and span id has no parent, so it is the root's, with whatever baggage, or that of the other side of its
   RPC.
   */
  lemma OnlyLocalRoot(w: World, a: Action, acts: seq<Action>, t: World)
    requires Sound(w) && Enabled(w, a) && a.Start? && (!a.hasParent || !IsValid(a.parent))
    requires FreshRuns(Next(w, a), acts, t)
    ensures var root := NewContext(w, a.parent, a.hasParent, a.ids, a.shared);
            root in Next(w, a).contexts && root.parentID == 0
            && forall c <- t.contexts :: c.state == root.state && c.spanID == root.spanID ==> c.parentID == 0
  {
    var root := NewContext(w, a.parent, a.hasParent, a.ids, a.shared);
    SoundStep(w, a);
    assert root in Next(w, a).contexts;
    RootStaysAlone(Next(w, a), acts, t, root.state, root.spanID);
  }

  // ----- parents -----

  /**
   What a start adds to the contexts: a root of a new trace if there is no valid parent; a child that names its parent's
   span as its own parent; or, for a shared span, the parent's identity once more.
   */
  lemma StartedContext(w: World, a: Action) returns (c: SpanContext)
    requires Enabled(w, a) && a.Start? && (a.hasParent ==> a.parent.state < |w.states|)
    ensures Next(w, a).contexts == w.contexts + {c} && !c.remote && c.debugID == ""
    ensures c.baggage == if a.hasParent then a.parent.baggage else map[]
    ensures a.hasParent && IsValid(a.parent) ==>
              c.traceID == a.parent.traceID && c.state == a.parent.state
              && if a.shared then c.spanID == a.parent.spanID && c.parentID == a.parent.parentID
                 else c.spanID == a.ids.spanID && c.parentID == a.parent.spanID
    ensures !(a.hasParent && IsValid(a.parent)) ==>
              c.traceID == a.ids.traceID && c.state == |w.states| && c.spanID == a.ids.traceID.low && c.parentID == 0
  {
    c := NewContext(w, a.parent, a.hasParent, a.ids, a.shared);
  }

  /**
   What it does to the sampling states: a new trace has a state of its own, open and with debug on only if a debug id asked
   for it; a parent from another process makes its state final and this span its local root; nothing else changes.
   */
  lemma StartedState(w: World, a: Action, i: nat)
    requires Enabled(w, a) && a.Start? && (a.hasParent ==> a.parent.state < |w.states|) && i < |Next(w, a).states|
    ensures var valid, t := a.hasParent && IsValid(a.parent), Next(w, a).states[i];
            |Next(w, a).states| == |w.states| + (if valid then 0 else 1)
            && if i == |w.states| then
                 !t.final && !t.fromRemote && t.localRootSpan == a.ids.traceID.low
                 && (t.debug <==> a.hasParent && a.parent.traceID == TraceID(0, 0) && a.parent.debugID != "" && a.debug)
               else if valid && a.parent.remote && i == a.parent.state then
                 t.final && t.localRootSpan == (if a.shared then a.parent.spanID else a.ids.spanID)
                 && t.debug == w.states[i].debug && t.fromRemote == w.states[i].fromRemote && t.home == w.states[i].home
               else t == w.states[i]
  {
  }

  /** What a baggage item reads as: an empty one as one that is not there. */
  function Item(c: SpanContext, key: string): (value: string) { if key in c.baggage then c.baggage[key] else "" }

  /** Setting an item changes how that one reads and no other, and nothing of the context's identity. */
  lemma ItemSet(c: SpanContext, key: string, value: string, other: string)
    ensures var r := WithBaggageItem(c, key, value);
            Item(r, other) == (if other == key then value else Item(c, other))
            && (value == "" ==> key !in r.baggage)
            && r == c.(baggage := r.baggage, debugID := r.debugID)
            && (r.debugID == if r == c then c.debugID else "")
  {
  }

  /** What an extraction adds: a remote context with a state of its own, with the flags that came with it. */
  lemma ExtractedContext(w: World, a: Action)
    requires a.Extract?
    ensures var t := Next(w, a);
            |t.states| == |w.states| + 1 && t.states[..|w.states|] == w.states
            && t.contexts == w.contexts + {a.context.(state := |w.states|, remote := true)}
            && var added := t.states[|w.states|];
               added.fromRemote && added.final == a.final && added.debug == a.debug && added.home == a.context.traceID
               && added.localRootSpan == 0
  {
  }

  /** From the context one comes to a root of its trace by going n times to a context with the parent's span id. */
  ghost predicate Descends(contexts: set<SpanContext>, c: SpanContext, root: nat, n: nat)
    decreases n
  {
    if n == 0 then c.spanID == root && c.parentID == 0
    else
      c.spanID != root && c.parentID != 0
      && exists d <- contexts :: d.traceID == c.traceID && d.state == c.state && d.spanID == c.parentID
                                 && Descends(contexts, d, root, n - 1)
  }

  lemma {:induction false} DescendsStays(contexts: set<SpanContext>, more: set<SpanContext>, c: SpanContext, root: nat,
                                         n: nat)
    requires Descends(contexts, c, root, n) && contexts <= more
    ensures Descends(more, c, root, n)
    decreases n
  {
    if n > 0 {
      var d :| d in contexts && d.traceID == c.traceID && d.state == c.state && d.spanID == c.parentID
               && Descends(contexts, d, root, n - 1);
      DescendsStays(contexts, more, d, root, n - 1);
    }
  }

  /** Every context of a state made here is part of a tree under the state's local root. */
  ghost predicate Trees(w: World)
  {
    forall c <- w.contexts :: c.state < |w.states| && !w.states[c.state].fromRemote ==>
      IsValid(c) && exists n: nat :: Descends(w.contexts, c, w.states[c.state].localRootSpan, n)
  }

  /** The local root of every state made here is among the contexts. */
  ghost predicate RootsUsed(w: World)
  {
    forall i :: 0 <= i < |w.states| && !w.states[i].fromRemote ==>
      exists c <- w.contexts :: c.spanID == w.states[i].localRootSpan
  }

  /** The way up depends on the ids of a context alone, not on its baggage. */
  lemma DescendsSame(contexts: set<SpanContext>, c: SpanContext, d: SpanContext, root: nat, n: nat)
    requires Descends(contexts, c, root, n)
    requires d.traceID == c.traceID && d.state == c.state && d.spanID == c.spanID && d.parentID == c.parentID
    ensures Descends(contexts, d, root, n)
  {
  }

  lemma RootsUsedStep(w: World, a: Action)
    requires Sound(w) && RootsUsed(w) && Enabled(w, a)
    ensures RootsUsed(Next(w, a))
  {
    var t := Next(w, a);
    SoundStep(w, a);
    forall i | 0 <= i < |t.states| && !t.states[i].fromRemote
      ensures exists c <- t.contexts :: c.spanID == t.states[i].localRootSpan
    {
      if i < |w.states| {
        var c :| c in w.contexts && c.spanID == w.states[i].localRootSpan;
        assert c in t.contexts;
      } else {
        assert NewContext(w, a.parent, a.hasParent, a.ids, a.shared) in t.contexts;
      }
    }
  }

  /** A child is one step further from the root than its parent. */
  lemma ChildDescends(contexts: set<SpanContext>, more: set<SpanContext>, parent: SpanContext, c: SpanContext, root: nat,
                      n: nat)
    requires Descends(contexts, parent, root, n) && contexts <= more && parent in more
    requires c.traceID == parent.traceID && c.state == parent.state && c.parentID == parent.spanID
    requires c.parentID != 0 && c.spanID != root
    ensures Descends(more, c, root, n + 1)
  {
    DescendsStays(contexts, more, parent, root, n);
  }

  /** The context a step adds, if its state was made here, is in a tree like the others. */
  lemma NewDescends(w: World, a: Action, c: SpanContext)
    requires Sound(w) && RootsUsed(w) && Trees(w) && Enabled(w, a) && FreshIds(w, a)
    requires c in Next(w, a).contexts && c !in w.contexts && !Next(w, a).states[c.state].fromRemote
    ensures IsValid(c) && exists n: nat :: Descends(Next(w, a).contexts, c, Next(w, a).states[c.state].localRootSpan, n)
  {
    SoundStep(w, a);
    match a
    case Start(_, _, _, _, _) => StartedDescends(w, a, c);
    case SetBaggage(d, key, value) =>
      hide Descends;
      var root := w.states[d.state].localRootSpan;
      var n: nat :| Descends(w.contexts, d, root, n);
      DescendsStays(w.contexts, Next(w, a).contexts, d, root, n);
      DescendsSame(Next(w, a).contexts, d, c, root, n);
    case Extract(_, _, _) =>
  }

  lemma StartedDescends(w: World, a: Action, c: SpanContext)
    requires Sound(w) && RootsUsed(w) && Trees(w) && Enabled(w, a) && FreshIds(w, a) && a.Start?
    requires c in Next(w, a).contexts && c !in w.contexts && !Next(w, a).states[c.state].fromRemote
    ensures IsValid(c) && exists n: nat :: Descends(Next(w, a).contexts, c, Next(w, a).states[c.state].localRootSpan, n)
  {
    var t := Next(w, a);
    SoundStep(w, a);
    var root := t.states[c.state].localRootSpan;
    if a.hasParent && IsValid(a.parent) {
      hide Descends;
      assert !w.states[a.parent.state].fromRemote;
      var n: nat :| Descends(w.contexts, a.parent, root, n);
      if a.shared {
        DescendsStays(w.contexts, t.contexts, a.parent, root, n);
        DescendsSame(t.contexts, a.parent, c, root, n);
      } else {
        ChildDescends(w.contexts, t.contexts, a.parent, c, root, n);
      }
    } else {
      assert Descends(t.contexts, c, root, 0);
    }
  }

  lemma TreesStep(w: World, a: Action)
    requires Sound(w) && RootsUsed(w) && Trees(w) && Enabled(w, a) && FreshIds(w, a)
    ensures Trees(Next(w, a))
  {
    var t := Next(w, a);
    SoundStep(w, a);
    forall c <- t.contexts | c.state < |t.states| && !t.states[c.state].fromRemote
      ensures IsValid(c) && exists n: nat :: Descends(t.contexts, c, t.states[c.state].localRootSpan, n)
    {
      if c in w.contexts {
        var n: nat :| Descends(w.contexts, c, w.states[c.state].localRootSpan, n);
        assert w.contexts <= t.contexts;
        DescendsStays(w.contexts, t.contexts, c, w.states[c.state].localRootSpan, n);
      } else {
        NewDescends(w, a, c);
      }
    }
  }

  lemma {:induction false} TreesRun(w: World, acts: seq<Action>, t: World)
    requires Sound(w) && RootsUsed(w) && Trees(w) && FreshRuns(w, acts, t)
    ensures Sound(t) && Trees(t)
    decreases |acts|
  {
    if acts != [] {
      SoundStep(w, acts[0]);
      RootsUsedStep(w, acts[0]);
      TreesStep(w, acts[0]);
      hide Sound, Next, Enabled, FreshIds, Trees, RootsUsed;
      TreesRun(Next(w, acts[0]), acts[1..], t);
    }
  }

  /**
   The tree of a trace: in any run with fresh ids, a context whose state was made here has no parent if and only if it is
   its state's local root, and from every other one the parent ids lead, through contexts of the same trace and state, to
   that root.
   */
  lemma ParentsLeadToRoot(acts: seq<Action>, t: World, c: SpanContext)
    requires FreshRuns(World({}, []), acts, t) && c in t.contexts
    ensures c.state < |t.states|
    ensures !t.states[c.state].fromRemote ==>
              var root := t.states[c.state].localRootSpan;
              (c.parentID == 0 <==> c.spanID == root) && exists n: nat :: Descends(t.contexts, c, root, n)
  {
    TreesRun(World({}, []), acts, t);
  }
}
