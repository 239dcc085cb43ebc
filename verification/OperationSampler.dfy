/**
 Per-operation sampling (sampler.go): a probability for each operation with a guaranteed lower bound, kept for a limited
 number of operations, and reconfigured in place without losing what the limiters have saved up. Rates are reals.
 */
module OperationSampler {
  import opened Widths
  import opened RateLimiter

  // ----- probability -----

  const MAX_RANDOM: nat := 0x7fff_ffff_ffff_ffff

  /** math.Max(0.0, math.Min(rate, 1.0)) */
  function Clamped(rate: real): (r: real)
    ensures 0.0 <= r <= 1.0
  {
    if rate > 1.0 then 1.0 else if rate < 0.0 then 0.0 else rate
  }

  function Boundary(rate: real): (b: int) { (MAX_RANDOM as real * Clamped(rate)).Floor }

  /** The decision depends on the low 63 bits of the trace id alone. */
  predicate Chosen(rate: real, low: uint64)
  {
    Boundary(rate) >= if low > MAX_RANDOM then low - MAX_RANDOM - 1 else low
  }

  /**
   What one rate samples a higher rate samples too, so services with different rates agree on the traces they share.
   */
  lemma HigherRateSamplesMore(rate: real, higher: real, low: uint64)
    requires rate <= higher && Chosen(rate, low)
    ensures Chosen(higher, low)
  {
  }

  /** The low 63 bits of a trace id. */
  function Low63(low: uint64): (n: nat) { low % 0x8000_0000_0000_0000 }

  /** What a rate means: the traces sampled are those whose low 63 bits are at most that part of the largest such number. */
  lemma ChosenExactly(rate: real, low: uint64)
    ensures 0.0 <= rate <= 1.0 ==> (Chosen(rate, low) <==> Low63(low) as real <= rate * 0x7fff_ffff_ffff_ffff as real)
    ensures rate > 1.0 ==> Chosen(rate, low)
    ensures rate < 0.0 ==> (Chosen(rate, low) <==> Low63(low) == 0)
  {
    if 0.0 <= rate <= 1.0 { AtMostFloor(Low63(low), MAX_RANDOM as real * rate); }
  }

  lemma AtMostFloor(n: int, x: real)
    ensures n <= x.Floor <==> n as real <= x
  {
  }

  /** At rate 1 everything is sampled; at rate 0 not nothing, but the ids whose low 63 bits are zero. */
  lemma ExtremeRates(low: uint64)
    ensures Chosen(1.0, low)
    ensures Chosen(0.0, low) <==> low == 0 || low == 0x8000_0000_0000_0000
  {
  }

  /** The 63-bit ids a rate samples. */
  ghost function Sampled(rate: real): (ids: set<nat>)
  {
    set low: uint64 | low < 0x8000_0000_0000_0000 && Chosen(rate, low)
  }

  lemma {:induction false} InitialSegment(ids: set<nat>, n: nat)
    requires forall k: nat :: k in ids <==> k < n
    ensures |ids| == n
  {
    if n > 0 {
      InitialSegment(ids - {n - 1}, n - 1);
    } else {
      assert ids == {};
    }
  }

  /** Of all 63-bit ids a rate samples that share, to within one. */
  lemma ShareSampled(rate: real)
    requires 0.0 <= rate <= 1.0
    ensures -1.0 < |Sampled(rate)| as real - rate * 0x8000_0000_0000_0000 as real <= 1.0
  {
    var top := (rate * 0x7fff_ffff_ffff_ffff as real).Floor;
    assert top <= 0x7fff_ffff_ffff_ffff by { AtMostFloor(0x8000_0000_0000_0000, rate * 0x7fff_ffff_ffff_ffff as real); }
    assert top >= 0 by { AtMostFloor(0, rate * 0x7fff_ffff_ffff_ffff as real); }
    hide Chosen;
    forall low: nat ensures low in Sampled(rate) <==> low < top + 1 {
      if low < 0x8000_0000_0000_0000 {
        ChosenExactly(rate, low);
        AtMostFloor(low, rate * 0x7fff_ffff_ffff_ffff as real);
      }
    }
    InitialSegment(Sampled(rate), top + 1);
  }

  // ----- one operation -----

  datatype Guaranteed = Guaranteed(samplingRate: real, lowerBound: real, limiter: Bucket)

  function AtLeastOne(x: real): (r: real) { if x > 1.0 then x else 1.0 }

  function NewGuaranteed(lowerBound: real, rate: real, now: real): (g: Guaranteed)
    ensures Fit(g)
  {
    Guaranteed(Clamped(rate), lowerBound, Full(lowerBound, AtLeastOne(lowerBound), now))
  }

  predicate Fit(g: Guaranteed)
  {
    g.limiter.rate == g.lowerBound && g.limiter.max == AtLeastOne(g.lowerBound)
  }

  function Reset(g: Guaranteed, lowerBound: real, rate: real, now: real): (r: Guaranteed)
    requires Fit(g)
    ensures Fit(r)
  {
    var limiter := if g.lowerBound == lowerBound then g.limiter
                   else Reconfigure(g.limiter, now, lowerBound, AtLeastOne(lowerBound));
    Guaranteed(Clamped(rate), lowerBound, limiter)
  }

  /** A second reset to the same bound changes the rate alone. */
  lemma ResetTwice(g: Guaranteed, lowerBound: real, rate: real, again: real, now: real)
    requires Fit(g)
    ensures Reset(Reset(g, lowerBound, rate, now), lowerBound, again, now) == Reset(g, lowerBound, again, now)
  {
  }

  /** The limiter is charged for every trace, so it adds traces only when the probability has left it credit. */
  function Sample(g: Guaranteed, low: uint64, now: real): (r: (bool, Guaranteed))
  {
    var v := Check(g.limiter, now, 1.0);
    (Chosen(g.samplingRate, low) || v.granted, g.(limiter := v.after))
  }

  datatype Request = Request(low: uint64, at: real)

  function Charges(requests: seq<Request>): (events: seq<Event>)
  {
    if requests == [] then [] else [RateLimiter.Request(requests[0].at, 1.0)] + Charges(requests[1..])
  }

  /** None of the requests is sampled. */
  predicate NoneSampled(g: Guaranteed, requests: seq<Request>)
    decreases |requests|
  {
    requests == []
    || (!Sample(g, requests[0].low, requests[0].at).0
        && NoneSampled(Sample(g, requests[0].low, requests[0].at).1, requests[1..]))
  }

  lemma {:induction false} NoneSampledNoneGranted(g: Guaranteed, requests: seq<Request>)
    requires NoneSampled(g, requests)
    ensures LazyGrants(g.limiter, Charges(requests)) == 0 && |Charges(requests)| == |requests|
    ensures requests != [] ==> Charges(requests)[|requests| - 1].at == requests[|requests| - 1].at
    decreases |requests|
  {
    if requests != [] {
      NoneSampledNoneGranted(Sample(g, requests[0].low, requests[0].at).1, requests[1..]);
      var e := RateLimiter.Request(requests[0].at, 1.0);
      assert ([e] + Charges(requests[1..]))[1..] == Charges(requests[1..]);
    }
  }

  lemma {:induction false} ChargesCostOne(requests: seq<Request>)
    ensures AllCost(Charges(requests), 1.0)
  {
    if requests != [] {
      ChargesCostOne(requests[1..]);
    }
  }

  /**
   The guarantee: whatever the trace ids and however low the rate, a stretch of requests none of which is sampled is over
   before the lower bound has earned one credit.
   */
  lemma {:induction false} LowerBoundHolds(g: Guaranteed, requests: seq<Request>)
    requires Fit(g) && Sound(g.limiter) && requests != [] && InOrder(Charges(requests), g.limiter.lastTick)
    requires NoneSampled(g, requests)
    ensures g.limiter.balance + Earned(g.lowerBound, requests[|requests| - 1].at - g.limiter.lastTick) < 1.0
  {
    NoneSampledNoneGranted(g, requests);
    ChargesCostOne(requests);
    DroughtBound(g.limiter, Charges(requests), 1.0);
  }

  /** How many of the requests are sampled, and how many of them by the probability. */
  function Taken(g: Guaranteed, requests: seq<Request>): (n: nat)
    decreases |requests|
  {
    if requests == [] then 0
    else
      var r := Sample(g, requests[0].low, requests[0].at);
      Count(r.0) + Taken(r.1, requests[1..])
  }

  function ByChance(rate: real, requests: seq<Request>): (n: nat)
  {
    if requests == [] then 0 else Count(Chosen(rate, requests[0].low)) + ByChance(rate, requests[1..])
  }

  /** The cost of what a limiter grants is what it grants, at one credit each. */
  lemma {:induction false} GrantedCount(b: Bucket, requests: seq<Request>)
    ensures Granted(b, Charges(requests)) == LazyGrants(b, Charges(requests)) as real
    ensures OnlyRequests(Charges(requests))
    decreases |requests|
  {
    if requests != [] {
      var e := RateLimiter.Request(requests[0].at, 1.0);
      GrantedCount(Check(b, e.at, 1.0).after, requests[1..]);
      assert ([e] + Charges(requests[1..]))[1..] == Charges(requests[1..]);
    }
  }

  /** The probability's choices are all sampled, and what the limiter grants too, and nothing else. */
  lemma {:induction false} TakenBetween(g: Guaranteed, requests: seq<Request>)
    ensures ByChance(g.samplingRate, requests) <= Taken(g, requests)
    ensures LazyGrants(g.limiter, Charges(requests)) <= Taken(g, requests)
    ensures Taken(g, requests) <= ByChance(g.samplingRate, requests) + LazyGrants(g.limiter, Charges(requests))
    decreases |requests|
  {
    if requests != [] {
      var e := RateLimiter.Request(requests[0].at, 1.0);
      TakenBetween(Sample(g, requests[0].low, requests[0].at).1, requests[1..]);
      assert ([e] + Charges(requests[1..]))[1..] == Charges(requests[1..]);
    }
  }

  /**
   What the lower bound costs: over any run every trace the probability chooses is sampled, and beyond those no more than
   the limiter has saved up and earns.
   */
  lemma ExtraTraces(g: Guaranteed, requests: seq<Request>)
    requires Fit(g) && Sound(g.limiter) && InOrder(Charges(requests), g.limiter.lastTick)
    ensures var extra := Taken(g, requests) - ByChance(g.samplingRate, requests);
            0 <= extra
            && extra as real <= g.limiter.balance
                                + Earned(g.lowerBound, Run(g.limiter, Charges(requests)).lastTick - g.limiter.lastTick)
  {
    TakenBetween(g, requests);
    GrantedCount(g.limiter, requests);
    RateBound(g.limiter, Charges(requests));
  }

  // ----- all operations -----

  datatype Strategy = Strategy(operation: string, rate: real)

  /** The rate given last for the operation, None if it is not mentioned. */
  function LastRate(strategies: seq<Strategy>, operation: string): (r: Option<real>)
  {
    if strategies == [] then None
    else
      var n := |strategies| - 1;
      if strategies[n].operation == operation then Some(strategies[n].rate) else LastRate(strategies[..n], operation)
  }

  ghost predicate AllFit(samplers: map<string, Guaranteed>) { forall op <- samplers :: Fit(samplers[op]) }

  /**
   What an update leaves for an operation: nothing if the strategies do not mention it, the old sampler reset if there was
   one, and else a new one.
   */
  function Expected(was: map<string, Guaranteed>, strategies: seq<Strategy>, lowerBound: real, now: real, op: string):
    (g: Option<Guaranteed>)
    requires op in was ==> Fit(was[op])
  {
    var rate := LastRate(strategies, op);
    if rate.None? then None
    else if op in was then Some(Reset(was[op], lowerBound, rate.value, now))
    else Some(NewGuaranteed(lowerBound, rate.value, now))
  }

  /** The sampler object that trySampling asks: an operation's own, or the shared default. */
  datatype Choice = Own(g: Guaranteed) | Default(rate: real)

  class PerOperationSampler {
    var samplers: map<string, Guaranteed>
    var defaultRate: real
    var lowerBound: real
    const maxOperations: nat

    ghost predicate Valid()
      reads this
    {
      AllFit(samplers) && 0.0 <= defaultRate <= 1.0 && maxOperations > 0
    }

    constructor (strategies: seq<Strategy>, defaultRate: real, lowerBound: real, maxOperations: int, now: real)
      ensures Valid() && this.lowerBound == lowerBound && this.defaultRate == Clamped(defaultRate)
      ensures this.maxOperations == (if maxOperations <= 0 then 2000 else maxOperations)
      ensures forall op :: (op in samplers) == Expected(map[], strategies, lowerBound, now, op).Some?
      ensures forall op <- samplers :: Some(samplers[op]) == Expected(map[], strategies, lowerBound, now, op)
      ensures |samplers| <= |strategies|
    {
      var made: map<string, Guaranteed> := map[];
      MatchesNothing(map[], lowerBound, now);
      hide NewGuaranteed, Fit, LastRate;
      assert strategies[..0] == [];
      for i := 0 to |strategies|
        invariant Matches(made, map[], strategies[..i], lowerBound, now) && |made| <= i
      {
        var s := strategies[i];
        assert strategies[..i + 1] == strategies[..i] + [s];
        LastRateAppend(strategies[..i], s);
        var g := NewGuaranteed(lowerBound, s.rate, now);
        CountAdd(made, s.operation, g);
        MatchesStep(made, map[], strategies[..i], s, lowerBound, now, g);
        made := made[s.operation := g];
      }
      assert strategies[..|strategies|] == strategies;
      samplers := made;
      this.defaultRate, this.lowerBound := Clamped(defaultRate), lowerBound;
      this.maxOperations := if maxOperations <= 0 then 2000 else maxOperations;
    }

    /** An operation seen for the first time gets a sampler of its own while there is room. */
    method GetSamplerForOperation(op: string, now: real) returns (choice: Choice)
      requires Valid()
      modifies `samplers
      ensures Valid()
      ensures op in old(samplers) ==> samplers == old(samplers) && choice == Own(samplers[op])
      ensures op !in old(samplers) && |old(samplers)| >= maxOperations ==>
                samplers == old(samplers) && choice == Default(defaultRate)
      ensures op !in old(samplers) && |old(samplers)| < maxOperations ==>
                choice == Own(NewGuaranteed(lowerBound, defaultRate, now)) && samplers == old(samplers)[op := choice.g]
                && |samplers| <= maxOperations
    {
      if op in samplers { return Own(samplers[op]); }
      if |samplers| >= maxOperations { return Default(defaultRate); }
      var g := NewGuaranteed(lowerBound, defaultRate, now);
      CountAdd(samplers, op, g);
      samplers := samplers[op := g];
      return Own(g);
    }

    /** The sampler is consulted, and charged, for the local root span only. */
    method TrySampling(op: string, low: uint64, localRoot: bool, now: real) returns (sampled: bool)
      requires Valid()
      modifies `samplers
      ensures Valid() && (!localRoot ==> !sampled)
      ensures !localRoot && op in old(samplers) ==> samplers == old(samplers)
      ensures !localRoot && op !in old(samplers) ==>
                samplers == if |old(samplers)| < maxOperations
                            then old(samplers)[op := NewGuaranteed(lowerBound, defaultRate, now)] else old(samplers)
      ensures forall other :: other != op ==>
                (other in samplers) == (other in old(samplers))
                && (other in samplers ==> samplers[other] == old(samplers)[other])
      ensures localRoot && op in old(samplers) ==>
                op in samplers && (sampled, samplers[op]) == Sample(old(samplers)[op], low, now)
      ensures localRoot && op !in old(samplers) && |old(samplers)| < maxOperations ==>
                op in samplers && (sampled, samplers[op]) == Sample(NewGuaranteed(lowerBound, defaultRate, now), low, now)
      ensures localRoot && op !in old(samplers) && |old(samplers)| >= maxOperations ==>
                sampled == Chosen(defaultRate, low) && op !in samplers
    {
      var choice := GetSamplerForOperation(op, now);
      sampled := false;
      if localRoot {
        match choice {
          case Default(rate) => sampled := Chosen(rate, low);
          case Own(g) =>
            var r := Sample(g, low, now);
            sampled := r.0;
            samplers := samplers[op := r.1];
        }
      }
    }

    /** The operations mentioned, and no others, have a sampler afterwards: the one they had, reset, or a new one. */
    method Update(strategies: seq<Strategy>, defaultRate: real, lowerBound: real, now: real)
      requires Valid()
      modifies this
      ensures Valid() && this.lowerBound == lowerBound && this.defaultRate == Clamped(defaultRate)
      ensures forall op :: (op in samplers) == Expected(old(samplers), strategies, lowerBound, now, op).Some?
      ensures forall op <- samplers :: Some(samplers[op]) == Expected(old(samplers), strategies, lowerBound, now, op)
      ensures |samplers| <= |strategies|
    {
      samplers := UpdatedSamplers(samplers, strategies, lowerBound, now);
      this.lowerBound := lowerBound;
      if this.defaultRate != defaultRate {
        this.defaultRate := Clamped(defaultRate);
      }
    }
  }

  /** The loop of update: `current` holds the old samplers, which are changed in place as their operations come up. */
  method UpdatedSamplers(was: map<string, Guaranteed>, strategies: seq<Strategy>, lowerBound: real, now: real)
    returns (newSamplers: map<string, Guaranteed>)
    requires AllFit(was)
    ensures Matches(newSamplers, was, strategies, lowerBound, now) && |newSamplers| <= |strategies|
  {
    var current := was;
    newSamplers := map[];
    MatchesNothing(was, lowerBound, now);
    hide Reset, NewGuaranteed, LastRate, Fit;
    assert strategies[..0] == [];
    for i := 0 to |strategies|
      invariant Matches(newSamplers, was, strategies[..i], lowerBound, now) && |newSamplers| <= i
      invariant current.Keys == was.Keys
      invariant forall op <- current :: current[op] == if op in newSamplers then newSamplers[op] else was[op]
    {
      var s := strategies[i];
      assert strategies[..i + 1] == strategies[..i] + [s];
      LastRateAppend(strategies[..i], s);
      var g;
      if s.operation in current {
        g := Reset(current[s.operation], lowerBound, s.rate, now);
        if s.operation in newSamplers {
          ResetTwice(was[s.operation], lowerBound, LastRate(strategies[..i], s.operation).value, s.rate, now);
        }
        current := current[s.operation := g];
      } else {
        g := NewGuaranteed(lowerBound, s.rate, now);
      }
      CountAdd(newSamplers, s.operation, g);
      MatchesStep(newSamplers, was, strategies[..i], s, lowerBound, now, g);
      newSamplers := newSamplers[s.operation := g];
    }
    assert strategies[..|strategies|] == strategies;
  }

  ghost predicate Matches(made: map<string, Guaranteed>, was: map<string, Guaranteed>, strategies: seq<Strategy>,
                          lowerBound: real, now: real)
    requires AllFit(was)
  {
    AllFit(made)
    && (forall op :: (op in made) == Expected(was, strategies, lowerBound, now, op).Some?)
    && (forall op <- made :: Some(made[op]) == Expected(was, strategies, lowerBound, now, op))
  }

  lemma MatchesNothing(was: map<string, Guaranteed>, lowerBound: real, now: real)
    requires AllFit(was)
    ensures Matches(map[], was, [], lowerBound, now)
  {
  }

  /** One more strategy. */
  lemma MatchesStep(made: map<string, Guaranteed>, was: map<string, Guaranteed>, strategies: seq<Strategy>, s: Strategy,
                    lowerBound: real, now: real, g: Guaranteed)
    requires AllFit(was) && Matches(made, was, strategies, lowerBound, now) && Fit(g)
    requires Some(g) == Expected(was, strategies + [s], lowerBound, now, s.operation)
    ensures Matches(made[s.operation := g], was, strategies + [s], lowerBound, now)
  {
  }

  lemma LastRateAppend(strategies: seq<Strategy>, s: Strategy)
    ensures LastRate(strategies + [s], s.operation) == Some(s.rate)
  {
  }

  lemma CountAdd(m: map<string, Guaranteed>, op: string, g: Guaranteed)
    ensures |m[op := g]| == |m| + if op in m then 0 else 1
  {
  }

  /**
   A new sampler decides by the rate it was given, clamped, has a full bucket of at least one credit, and so samples the
   first trace whatever its id.
   */
  lemma NewSampler(lowerBound: real, rate: real, now: real, low: uint64)
    ensures var g := NewGuaranteed(lowerBound, rate, now);
            (Chosen(g.samplingRate, low) <==> Chosen(rate, low)) && Sample(g, low, now).0
            && g.limiter == Bucket(lowerBound, g.limiter.max, g.limiter.max, now)
            && g.limiter.max >= 1.0 && g.limiter.max >= lowerBound && (g.limiter.max == 1.0 || g.limiter.max == lowerBound)
  {
  }

  /**
   What an update makes of an operation's sampler: it is there exactly if the operation is mentioned, decides by the rate
   given last, and has the new lower bound; one that was there keeps its limiter if the bound is the same and else the share
   it has saved up by now.
   */
  lemma UpdatedDecides(was: map<string, Guaranteed>, strategies: seq<Strategy>, lowerBound: real, now: real, op: string,
                       low: uint64)
    requires AllFit(was)
    ensures var g := Expected(was, strategies, lowerBound, now, op);
            (g.Some? <==> exists s <- strategies :: s.operation == op)
            && (g.Some? ==>
                  g.value.lowerBound == lowerBound && LastRate(strategies, op).Some?
                  && (Chosen(g.value.samplingRate, low) <==> Chosen(LastRate(strategies, op).value, low))
                  && if op !in was then g.value == NewGuaranteed(lowerBound, LastRate(strategies, op).value, now)
                     else if was[op].lowerBound == lowerBound then g.value.limiter == was[op].limiter
                     else g.value.limiter.lastTick == now && g.value.limiter.rate == lowerBound)
  {
    LastRateExists(strategies, op);
  }

  lemma {:induction false} LastRateExists(strategies: seq<Strategy>, op: string)
    ensures LastRate(strategies, op).Some? <==> exists s <- strategies :: s.operation == op
  {
    if strategies != [] {
      var n := |strategies| - 1;
      LastRateExists(strategies[..n], op);
      assert strategies == strategies[..n] + [strategies[n]];
    }
  }

  /** What an operation had saved up survives an update, as the same share of its bucket. */
  lemma UpdateKeepsBudget(g: Guaranteed, lowerBound: real, rate: real, now: real)
    requires Fit(g) && Sound(g.limiter) && g.limiter.lastTick <= now && lowerBound >= 0.0
    ensures var r := Reset(g, lowerBound, rate, now);
            Sound(r.limiter)
            && (g.lowerBound == lowerBound ==> r.limiter == g.limiter)
            && (g.lowerBound != lowerBound ==>
                  r.limiter.balance * g.limiter.max == Refill(g.limiter, now).balance * r.limiter.max)
  {
    ReconfigureKeepsShare(g.limiter, now, lowerBound, AtLeastOne(lowerBound));
  }
}
