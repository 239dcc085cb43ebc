/**
 The token bucket behind rate-limited sampling (utils/rate_limiter.go, sampler.go). Credits and seconds are reals. The
 bucket is lazy: it looks at the clock only when the balance is too small.
 */
module RateLimiter {
  datatype Bucket = Bucket(rate: real, balance: real, max: real, lastTick: real)

  function Full(rate: real, max: real, now: real): (b: Bucket) { Bucket(rate, max, max, now) }

  function Earned(rate: real, elapsed: real): (credits: real) { elapsed * rate }

  function Refill(b: Bucket, now: real): (r: Bucket)
    ensures r.rate == b.rate && r.max == b.max && r.lastTick == now
  {
    var topped := b.balance + Earned(b.rate, now - b.lastTick);
    b.(lastTick := now, balance := if topped > b.max then b.max else topped)
  }

  datatype Verdict = Verdict(granted: bool, after: Bucket)

  function Pay(b: Bucket, cost: real): (v: Verdict)
  {
    if b.balance >= cost then Verdict(true, b.(balance := b.balance - cost)) else Verdict(false, b)
  }

  function Check(b: Bucket, now: real, cost: real): (v: Verdict)
  {
    if b.balance >= cost then Pay(b, cost) else Pay(Refill(b, now), cost)
  }

  function Reconfigure(b: Bucket, now: real, rate: real, max: real): (r: Bucket)
    requires b.max != 0.0
  {
    var topped := Refill(b, now);
    Bucket(rate, topped.balance * max / topped.max, max, now)
  }

  class ReconfigurableRateLimiter {
    var creditsPerSecond: real
    var balance: real
    var maxBalance: real
    var lastTick: real
    /** balance is not a number: what floating point makes of an update of a limiter whose maximum is zero. */
    var isNaN: bool

    function Contents(): (b: Bucket)
      reads this
    {
      Bucket(creditsPerSecond, balance, maxBalance, lastTick)
    }

    constructor (creditsPerSecond: real, maxBalance: real, now: real)
      ensures Contents() == Full(creditsPerSecond, maxBalance, now) && !isNaN
    {
      this.creditsPerSecond, this.maxBalance, balance, lastTick := creditsPerSecond, maxBalance, maxBalance, now;
      isNaN := false;
    }

    /** Comparisons with what is not a number fail, so nothing is granted once the balance is none. */
    method CheckCredit(itemCost: real, now: real) returns (granted: bool)
      modifies this
      ensures isNaN == old(isNaN)
      ensures !isNaN ==> Verdict(granted, Contents()) == Check(old(Contents()), now, itemCost)
      ensures isNaN ==> !granted && creditsPerSecond == old(creditsPerSecond) && maxBalance == old(maxBalance)
    {
      if !isNaN && balance >= itemCost {
        balance := balance - itemCost;
        return true;
      }
      UpdateBalance(now);
      if !isNaN && balance >= itemCost {
        balance := balance - itemCost;
        return true;
      }
      return false;
    }

    method UpdateBalance(currentTime: real)
      modifies this
      ensures Contents() == Refill(old(Contents()), currentTime) && isNaN == old(isNaN)
    {
      var elapsedTime := currentTime - lastTick;
      lastTick := currentTime;
      balance := balance + elapsedTime * creditsPerSecond;
      if balance > maxBalance {
        balance := maxBalance;
      }
    }

    /** With a maximum of zero the balance is zero over zero, and stays so whatever comes later. */
    method Update(creditsPerSecond: real, maxBalance: real, now: real)
      requires this.maxBalance != 0.0 || (Sound(Contents()) && lastTick <= now)
      modifies this
      ensures isNaN == (old(isNaN) || old(this.maxBalance) == 0.0)
      ensures !isNaN ==> Contents() == Reconfigure(old(Contents()), now, creditsPerSecond, maxBalance)
      ensures this.creditsPerSecond == creditsPerSecond && this.maxBalance == maxBalance && lastTick == now
    {
      hide Refill;
      if this.maxBalance == 0.0 { RefillSound(Contents(), now); }
      UpdateBalance(now);
      if this.maxBalance == 0.0 {
        assert balance == 0.0;
        isNaN := true;
      } else {
        ghost var topped := Contents();
        balance := balance * maxBalance / this.maxBalance;
        assert balance == topped.balance * maxBalance / topped.max;
      }
      this.creditsPerSecond := creditsPerSecond;
      this.maxBalance := maxBalance;
    }
  }

  /** RateLimitingSampler: every trace costs one credit, and at least one credit can be saved up. */
  class RateLimitingSampler {
    const rateLimiter: ReconfigurableRateLimiter
    var maxTracesPerSecond: real

    ghost predicate Valid()
      reads this, rateLimiter
    {
      !rateLimiter.isNaN && rateLimiter.creditsPerSecond == maxTracesPerSecond
      && rateLimiter.maxBalance == if maxTracesPerSecond > 1.0 then maxTracesPerSecond else 1.0
    }

    constructor (maxTracesPerSecond: real, now: real)
      ensures Valid() && fresh(rateLimiter) && this.maxTracesPerSecond == maxTracesPerSecond
      ensures rateLimiter.balance == rateLimiter.maxBalance && rateLimiter.lastTick == now
    {
      this.maxTracesPerSecond := maxTracesPerSecond;
      rateLimiter := new ReconfigurableRateLimiter(maxTracesPerSecond,
                                                   if maxTracesPerSecond > 1.0 then maxTracesPerSecond else 1.0, now);
    }

    method IsSampled(now: real) returns (sampled: bool)
      requires Valid()
      modifies rateLimiter
      ensures Valid()
      ensures Verdict(sampled, rateLimiter.Contents()) == Check(old(rateLimiter.Contents()), now, 1.0)
    {
      sampled := rateLimiter.CheckCredit(1.0, now);
    }

    /** Nothing is lost by a new rate: the share of the bucket that is filled stays what it was. */
    method Update(maxTracesPerSecond: real, now: real)
      requires Valid()
      modifies this, rateLimiter
      ensures Valid() && this.maxTracesPerSecond == maxTracesPerSecond
      ensures maxTracesPerSecond == old(this.maxTracesPerSecond) ==>
                rateLimiter.Contents() == old(rateLimiter.Contents())
      ensures maxTracesPerSecond != old(this.maxTracesPerSecond) ==>
                var was := Refill(old(rateLimiter.Contents()), now);
                rateLimiter.balance * was.max == was.balance * rateLimiter.maxBalance && rateLimiter.lastTick == now
    {
      if this.maxTracesPerSecond != maxTracesPerSecond {
        rateLimiter.Update(maxTracesPerSecond, if maxTracesPerSecond > 1.0 then maxTracesPerSecond else 1.0, now);
        this.maxTracesPerSecond := maxTracesPerSecond;
      }
    }
  }

  // ----- any run -----

  predicate Sound(b: Bucket) { 0.0 <= b.balance <= b.max && b.rate >= 0.0 }

  datatype Event = Request(at: real, cost: real) | NewLimits(at: real, rate: real, max: real)

  /** The clock does not run backwards and limits make sense. */
  predicate InOrder(events: seq<Event>, since: real)
  {
    events == []
    || (events[0].at >= since && InOrder(events[1..], events[0].at)
        && match events[0]
           case Request(_, cost) => cost >= 0.0
           case NewLimits(_, rate, max) => rate >= 0.0 && max > 0.0)
  }

  function After(b: Bucket, e: Event): (r: Bucket)
  {
    match e
    case Request(at, cost) => Check(b, at, cost).after
    case NewLimits(at, rate, max) => if b.max == 0.0 then b else Reconfigure(b, at, rate, max)
  }

  function Run(b: Bucket, events: seq<Event>): (r: Bucket)
    decreases |events|
  {
    if events == [] then b else Run(After(b, events[0]), events[1..])
  }

  lemma ReconfigureKeepsShare(b: Bucket, now: real, rate: real, max: real)
    requires Sound(b) && b.max > 0.0 && max > 0.0 && rate >= 0.0 && now >= b.lastTick
    ensures var r := Reconfigure(b, now, rate, max);
            Sound(r) && r.balance * b.max == Refill(b, now).balance * max
  {
    RefillSound(b, now);
    hide Refill, Earned;
    ShareBounded(Refill(b, now).balance, b.max, max);
  }

  lemma ShareBounded(x: real, y: real, z: real)
    requires 0.0 <= x <= y && y > 0.0 && z > 0.0
    ensures 0.0 <= x * z / y <= z && (x * z / y) * y == x * z
  {
    var share := x * z / y;
    assert share * y == x * z;
    assert 0.0 <= x * z <= z * y;
    Cancel(0.0, share, y);
    Cancel(share, z, y);
  }

  lemma Cancel(a: real, b: real, y: real)
    requires y > 0.0 && a * y <= b * y
    ensures a <= b
  {
  }

  lemma RefillSound(b: Bucket, now: real)
    requires Sound(b) && now >= b.lastTick
    ensures Sound(Refill(b, now))
    ensures b.balance <= Refill(b, now).balance <= b.balance + Earned(b.rate, now - b.lastTick)
  {
    hide Earned;
    EarnedSplit(b.rate, now - b.lastTick, 0.0);
  }

  lemma EarnedSplit(rate: real, x: real, y: real)
    ensures Earned(rate, x + y) == Earned(rate, x) + Earned(rate, y)
    ensures rate >= 0.0 && x >= 0.0 ==> Earned(rate, x) >= 0.0
  {
  }

  /** 0 <= balance <= maxBalance in every run, whatever is asked of the limiter and however it is reconfigured. */
  lemma {:induction false} AlwaysSound(b: Bucket, events: seq<Event>)
    requires Sound(b) && b.max > 0.0 && InOrder(events, b.lastTick)
    ensures Sound(Run(b, events)) && Run(b, events).max > 0.0
    decreases |events|
  {
    if events != [] {
      var e := events[0];
      RefillSound(b, e.at);
      if e.NewLimits? { ReconfigureKeepsShare(b, e.at, e.rate, e.max); }
      var next := After(b, e);
      Earlier(events[1..], next.lastTick, e.at);
      AlwaysSound(next, events[1..]);
    }
  }

  lemma Earlier(events: seq<Event>, since: real, at: real)
    requires InOrder(events, at) && since <= at
    ensures InOrder(events, since)
  {
  }

  // ----- how much is granted -----

  /** The total cost of the requests granted. */
  function Granted(b: Bucket, events: seq<Event>): (g: real)
    decreases |events|
  {
    if events == [] then 0.0
    else
      (if events[0].Request? && Check(b, events[0].at, events[0].cost).granted then events[0].cost else 0.0)
      + Granted(After(b, events[0]), events[1..])
  }

  predicate OnlyRequests(events: seq<Event>) { forall e <- events :: e.Request? }

  /** Nothing is granted that was not saved up before or earned since, at the configured rate. */
  lemma {:induction false} RateBound(b: Bucket, events: seq<Event>)
    requires Sound(b) && InOrder(events, b.lastTick) && OnlyRequests(events)
    ensures var r := Run(b, events);
            Sound(r) && r.max == b.max && r.rate == b.rate && r.lastTick >= b.lastTick
            && Granted(b, events) + r.balance <= b.balance + Earned(b.rate, r.lastTick - b.lastTick)
    decreases |events|
  {
    hide Earned;
    EarnedSplit(b.rate, 0.0, 0.0);
    if events != [] {
      var e := events[0];
      var next := After(b, e);
      RefillSound(b, e.at);
      Earlier(events[1..], next.lastTick, e.at);
      RateBound(next, events[1..]);
      var r := Run(b, events);
      EarnedSplit(b.rate, r.lastTick - next.lastTick, next.lastTick - b.lastTick);
    }
  }

  /** A limiter that starts full: everything granted, with what is left, is at most maxBalance + rate times the time. */
  lemma RateBoundFromStart(rate: real, max: real, start: real, events: seq<Event>)
    requires rate >= 0.0 && max >= 0.0 && InOrder(events, start) && OnlyRequests(events)
    ensures var b := Full(rate, max, start);
            Granted(b, events) + Run(b, events).balance <= max + Earned(rate, Run(b, events).lastTick - start)
  {
    RateBound(Full(rate, max, start), events);
  }

  /** The requests do not come after the end of the window. */
  predicate Until(events: seq<Event>, end: real) { forall e <- events :: e.at <= end }

  /**
   Over a window of any run the limit is maxBalance higher: the bucket may enter the window full, and be found full again
   at the first refill because the clock was not looked at before.
   */
  lemma {:induction false} WindowBound(b: Bucket, events: seq<Event>, begin: real, end: real)
    requires Sound(b) && b.lastTick <= begin <= end && InOrder(events, begin) && OnlyRequests(events)
    requires Until(events, end)
    ensures Granted(b, events) <= b.balance + b.max + Earned(b.rate, end - begin)
    decreases |events|
  {
    hide Earned;
    EarnedSplit(b.rate, end - begin, 0.0);
    if events != [] {
      var e := events[0];
      assert e in events;
      assert Until(events[1..], end) && OnlyRequests(events[1..]);
      RefillSound(b, e.at);
      if b.balance >= e.cost {
        Earlier(events[1..], begin, e.at);
        WindowBound(After(b, e), events[1..], begin, end);
      } else {
        var next := After(b, e);
        RateBound(next, events[1..]);
        LastTickUntil(next, events[1..], end);
        var t := Run(next, events[1..]).lastTick;
        EarnedSplit(b.rate, t - e.at, (end - t) + (e.at - begin));
        EarnedSplit(b.rate, (end - t) + (e.at - begin), 0.0);
      }
    }
  }

  lemma {:induction false} LastTickUntil(b: Bucket, events: seq<Event>, end: real)
    requires b.lastTick <= end && Until(events, end)
    ensures Run(b, events).lastTick <= end
    decreases |events|
  {
    if events != [] {
      assert events[0] in events;
      assert Until(events[1..], end);
      LastTickUntil(After(b, events[0]), events[1..], end);
    }
  }

  /** In any part of a run at most 2 * maxBalance + rate * window is granted. */
  lemma WindowBoundInRun(rate: real, max: real, start: real, before: seq<Event>, window: seq<Event>, begin: real, end: real)
    requires rate >= 0.0 && max > 0.0 && InOrder(before, start) && OnlyRequests(before) && Until(before, begin)
    requires start <= begin <= end && InOrder(window, begin) && OnlyRequests(window) && Until(window, end)
    ensures Granted(Run(Full(rate, max, start), before), window) <= 2.0 * max + Earned(rate, end - begin)
  {
    hide Earned;
    var b := Full(rate, max, start);
    RateBound(b, before);
    LastTickUntil(b, before, begin);
    WindowBound(Run(b, before), window, begin, end);
  }

  /** The bound cannot be lowered: after a pause two full buckets are granted at one instant. */
  lemma WindowBoundTight(rate: real, max: real, start: real, pause: real)
    requires rate >= 0.0 && max > 0.0 && pause >= 0.0 && Earned(rate, pause) >= max
    ensures var at := start + pause;
            Granted(Full(rate, max, start), [Request(at, max), Request(at, max)]) == 2.0 * max
  {
    var at := start + pause;
    var r := Request(at, max);
    assert [r, r][1..] == [r] && [r][1..] == [];
    var once := After(Full(rate, max, start), r);
    assert once == Bucket(rate, 0.0, max, start);
    assert Refill(once, at).balance == max;
    assert Granted(once, [r]) == max;
  }

  // ----- limits that change -----

  /** What part of a full bucket this is. */
  function Share(credits: real, max: real): (share: real)
    requires max > 0.0
  {
    credits / max
  }

  lemma ShareSum(x: real, y: real, max: real)
    requires max > 0.0
    ensures Share(x + y, max) == Share(x, max) + Share(y, max) && Share(max, max) == 1.0
    ensures x <= y ==> Share(x, max) <= Share(y, max)
    ensures x >= 0.0 ==> Share(x, max) >= 0.0
  {
  }

  /** What is granted, each item measured by the bucket in force. */
  function GrantedShares(b: Bucket, events: seq<Event>): (g: real)
    decreases |events|
  {
    if events == [] || b.max <= 0.0 then 0.0
    else
      (if events[0].Request? && Check(b, events[0].at, events[0].cost).granted then Share(events[0].cost, b.max) else 0.0)
      + GrantedShares(After(b, events[0]), events[1..])
  }

  /** What is earned up to `end`, each second at the rate and by the bucket in force. */
  function EarnedShares(rate: real, max: real, since: real, events: seq<Event>, end: real): (g: real)
    requires max > 0.0
    decreases |events|
  {
    if events == [] then Share(Earned(rate, end - since), max)
    else if events[0].NewLimits? && events[0].max > 0.0 then
      Share(Earned(rate, events[0].at - since), max)
      + EarnedShares(events[0].rate, events[0].max, events[0].at, events[1..], end)
    else EarnedShares(rate, max, since, events[1..], end)
  }

  lemma {:induction false} EarnedLater(rate: real, max: real, since: real, later: real, events: seq<Event>, end: real)
    requires max > 0.0 && rate >= 0.0 && since <= later
    ensures EarnedShares(rate, max, since, events, end)
         == Share(Earned(rate, later - since), max) + EarnedShares(rate, max, later, events, end)
    ensures EarnedShares(rate, max, later, events, end) <= EarnedShares(rate, max, since, events, end)
    decreases |events|
  {
    hide Earned, Share;
    EarnedSplit(rate, later - since, 0.0);
    ShareSum(Earned(rate, later - since), 0.0, max);
    if events == [] || (events[0].NewLimits? && events[0].max > 0.0) {
      var to := if events == [] then end else events[0].at;
      EarnedSplit(rate, later - since, to - later);
      ShareSum(Earned(rate, later - since), Earned(rate, to - later), max);
    } else {
      EarnedLater(rate, max, since, later, events[1..], end);
    }
  }

  /** Over any run, however often the limits change, the shares granted were saved up before or earned since. */
  lemma {:induction false} ShareBound(b: Bucket, events: seq<Event>, end: real)
    requires Sound(b) && b.max > 0.0 && b.lastTick <= end && InOrder(events, b.lastTick) && Until(events, end)
    ensures GrantedShares(b, events) <= Share(b.balance, b.max) + EarnedShares(b.rate, b.max, b.lastTick, events, end)
    decreases |events|
  {
    hide Earned, Share;
    if events == [] {
      EarnedSplit(b.rate, end - b.lastTick, 0.0);
      ShareSum(b.balance, Earned(b.rate, end - b.lastTick), b.max);
      ShareSum(Earned(b.rate, end - b.lastTick), b.balance, b.max);
    } else {
      var e := events[0];
      var next := After(b, e);
      StepShare(b, e);
      assert e in events && Until(events[1..], end);
      Earlier(events[1..], next.lastTick, e.at);
      ShareBound(next, events[1..], end);
      if e.Request? { EarnedLater(b.rate, b.max, b.lastTick, next.lastTick, events[1..], end); }
    }
  }

  /** What one event leaves in the bucket, as a share. */
  lemma StepShare(b: Bucket, e: Event)
    requires Sound(b) && b.max > 0.0 && InOrder([e], b.lastTick)
    ensures var next := After(b, e);
            var spent := if e.Request? && Check(b, e.at, e.cost).granted then Share(e.cost, b.max) else 0.0;
            Sound(next) && next.max > 0.0 && b.lastTick <= next.lastTick <= e.at
            && (if e.Request? then next.rate == b.rate && next.max == b.max
                else next.rate == e.rate && next.max == e.max && next.lastTick == e.at)
            && spent + Share(next.balance, next.max)
               <= Share(b.balance, b.max) + Share(Earned(b.rate, next.lastTick - b.lastTick), b.max)
            && 0.0 <= Share(b.balance, b.max) && 0.0 <= Share(next.balance, next.max)
            && (next.lastTick != b.lastTick ==> spent + Share(next.balance, next.max) <= 1.0)
  {
    hide Earned, Share;
    RefillSound(b, e.at);
    EarnedSplit(b.rate, e.at - b.lastTick, 0.0);
    EarnedSplit(b.rate, 0.0, 0.0);
    var topped := Refill(b, e.at);
    ShareSum(b.balance, Earned(b.rate, e.at - b.lastTick), b.max);
    ShareSum(topped.balance, b.balance + Earned(b.rate, e.at - b.lastTick), b.max);
    ShareSum(topped.balance, b.max, b.max);
    ShareSum(0.0, 0.0, b.max);
    match e
    case Request(at, cost) =>
      var left := if b.balance >= cost then b.balance else topped.balance;
      ShareSum(cost, left - cost, b.max);
      ShareSum(left - cost, 0.0, b.max);
      ShareSum(left, 0.0, b.max);
      assert cost + (left - cost) == left;
    case NewLimits(at, rate, max) =>
      ReconfigureKeepsShare(b, at, rate, max);
      SameShare(After(b, e).balance, max, topped.balance, b.max);
  }

  lemma SameShare(x: real, max: real, y: real, max': real)
    requires max > 0.0 && max' > 0.0 && x * max' == y * max
    ensures Share(x, max) == Share(y, max')
  {
    var share := Share(y, max');
    assert share * max' == y;
    assert (share * max) * max' == x * max';
    Cancel(share * max, x, max');
    Cancel(x, share * max, max');
  }

  /** The bound over a window, in shares: one bucket more, for a bucket found full again at the first refill. */
  lemma {:induction false} ShareWindow(b: Bucket, events: seq<Event>, begin: real, end: real)
    requires Sound(b) && b.max > 0.0 && b.lastTick <= begin <= end && InOrder(events, begin) && Until(events, end)
    ensures GrantedShares(b, events) <= Share(b.balance, b.max) + 1.0 + EarnedShares(b.rate, b.max, begin, events, end)
    decreases |events|
  {
    hide Earned, Share;
    if events == [] {
      EarnedSplit(b.rate, end - begin, 0.0);
      ShareSum(Earned(b.rate, end - begin), 0.0, b.max);
      ShareSum(b.balance, 0.0, b.max);
    } else {
      var e := events[0];
      var next := After(b, e);
      Earlier([e], b.lastTick, begin);
      StepShare(b, e);
      assert e in events && Until(events[1..], end);
      if next.lastTick == b.lastTick {
        EarnedSplit(b.rate, 0.0, 0.0);
        ShareSum(0.0, 0.0, b.max);
        var from := if e.Request? then begin else e.at;
        Earlier(events[1..], from, e.at);
        ShareWindow(next, events[1..], from, end);
      } else {
        Earlier(events[1..], next.lastTick, e.at);
        ShareBound(next, events[1..], end);
        EarnedLater(b.rate, b.max, begin, next.lastTick, events[1..], end);
      }
    }
  }

  /**
   In any part of a run that may change the limits at any time, what is granted comes to two buckets and what was earned
   meanwhile, each item and each second measured by the limits in force.
   */
  lemma ShareWindowInRun(rate: real, max: real, start: real, before: seq<Event>, window: seq<Event>, begin: real, end: real)
    requires rate >= 0.0 && max > 0.0 && InOrder(before, start) && Until(before, begin)
    requires start <= begin <= end && InOrder(window, begin) && Until(window, end)
    ensures var b := Run(Full(rate, max, start), before);
            b.max > 0.0 && GrantedShares(b, window) <= 2.0 + EarnedShares(b.rate, b.max, begin, window, end)
  {
    hide Earned, Share;
    AlwaysSound(Full(rate, max, start), before);
    LastTickUntil(Full(rate, max, start), before, begin);
    var b := Run(Full(rate, max, start), before);
    ShareWindow(b, window, begin, end);
    ShareSum(b.balance, b.max, b.max);
  }

  // ----- the lower bound -----

  /** While everything is refused the credits add up, so a drought is shorter than the time to earn what is missing. */
  lemma {:induction false} DroughtBound(b: Bucket, events: seq<Event>, cost: real)
    requires Sound(b) && 0.0 <= cost <= b.max && InOrder(events, b.lastTick) && AllCost(events, cost)
    requires events != [] && LazyGrants(b, events) == 0
    ensures b.balance + Earned(b.rate, events[|events| - 1].at - b.lastTick) < cost
    decreases |events|
  {
    hide Earned;
    var e := events[0];
    assert e in events;
    RefillSound(b, e.at);
    if |events| > 1 {
      var next := Check(b, e.at, cost).after;
      assert AllCost(events[1..], cost);
      DroughtBound(next, events[1..], cost);
      EarnedSplit(b.rate, events[|events| - 1].at - e.at, e.at - b.lastTick);
    } else {
      assert LazyGrants(b, events) == Count(Check(b, e.at, cost).granted) + LazyGrants(Check(b, e.at, cost).after, []);
    }
  }

  // ----- lazy and eager -----

  /** The bucket the comment on the type describes: replenished at every call. */
  function EagerCheck(b: Bucket, now: real, cost: real): (v: Verdict) { Pay(Refill(b, now), cost) }

  function Count(granted: bool): (n: nat) { if granted then 1 else 0 }

  function LazyGrants(b: Bucket, events: seq<Event>): (n: nat)
    decreases |events|
  {
    if events == [] then 0
    else
      var v := Check(b, events[0].at, if events[0].Request? then events[0].cost else 0.0);
      Count(v.granted) + LazyGrants(v.after, events[1..])
  }

  function EagerGrants(b: Bucket, events: seq<Event>): (n: nat)
    decreases |events|
  {
    if events == [] then 0
    else
      var v := EagerCheck(b, events[0].at, if events[0].Request? then events[0].cost else 0.0);
      Count(v.granted) + EagerGrants(v.after, events[1..])
  }

  predicate AllCost(events: seq<Event>, cost: real) { forall e <- events :: e.Request? && e.cost == cost }

  function Dues(cost: real, n: int): (d: real) { cost * n as real }

  lemma DuesStep(cost: real, n: int)
    ensures Dues(cost, n + 1) == Dues(cost, n) + cost && Dues(cost, n - 1) == Dues(cost, n) - cost
    ensures cost >= 0.0 && n >= 0 ==> Dues(cost, n) >= 0.0
    ensures Dues(cost, 0) == 0.0
  {
  }

  /** The eager bucket is at most `ahead` items richer than the lazy one would be after a refill. */
  predicate Behind(eager: Bucket, lazy: Bucket, ahead: int, cost: real)
  {
    Sound(eager) && Sound(lazy) && eager.rate == lazy.rate && eager.max == lazy.max
    && lazy.lastTick <= eager.lastTick && ahead >= 0
    && eager.balance <= Refill(lazy, eager.lastTick).balance + Dues(cost, ahead)
  }

  /** Letting time pass for both keeps the relation. */
  lemma BehindLater(eager: Bucket, lazy: Bucket, ahead: int, cost: real, now: real)
    requires Behind(eager, lazy, ahead, cost) && eager.lastTick <= now && cost >= 0.0
    ensures Behind(Refill(eager, now), lazy, ahead, cost)
  {
    hide Earned, Dues;
    RefillSound(eager, now);
    RefillSound(lazy, eager.lastTick);
    RefillSound(lazy, now);
    EarnedSplit(lazy.rate, now - eager.lastTick, eager.lastTick - lazy.lastTick);
    DuesStep(cost, ahead);
  }

  /** Paying lowers what a later refill can reach by no more than the price. */
  lemma PayThenRefill(b: Bucket, now: real, cost: real)
    requires Sound(b) && 0.0 <= cost <= b.balance && b.lastTick <= now
    ensures Refill(Pay(b, cost).after, now).balance >= Refill(b, now).balance - cost
  {
    hide Earned;
  }

  /** One request: the lazy bucket stays at least as far ahead as it needs to be. */
  lemma BehindStep(eager: Bucket, lazy: Bucket, ahead: int, cost: real, now: real)
    requires Behind(eager, lazy, ahead, cost) && eager.lastTick <= now && cost >= 0.0
    ensures var e := EagerCheck(eager, now, cost);
            var l := Check(lazy, now, cost);
            Behind(e.after, l.after, ahead + Count(l.granted) - Count(e.granted), cost)
  {
    hide Earned, Dues;
    BehindLater(eager, lazy, ahead, cost, now);
    RefillSound(lazy, now);
    if lazy.balance >= cost { PayThenRefill(lazy, now, cost); }
    DuesStep(cost, ahead);
    SameInstant(lazy, now);
    SameInstant(Pay(lazy, cost).after, now);
  }

  lemma SameInstant(b: Bucket, now: real)
    requires Sound(b)
    ensures Refill(Refill(b, now), now).balance == Refill(b, now).balance
    ensures Refill(b.(lastTick := now), now) == b.(lastTick := now)
  {
  }

  /** Every item is free or has this cost. */
  predicate FreeOrCost(events: seq<Event>, cost: real)
  {
    forall e <- events :: e.Request? && (e.cost == cost || e.cost == 0.0)
  }

  /** A free item is granted by both, and changes nothing but the eager bucket's clock. */
  lemma FreeStep(eager: Bucket, lazy: Bucket, ahead: int, cost: real, now: real)
    requires Behind(eager, lazy, ahead, cost) && eager.lastTick <= now && cost >= 0.0
    ensures var e, l := EagerCheck(eager, now, 0.0), Check(lazy, now, 0.0);
            e.granted && l.granted && Behind(e.after, l.after, ahead, cost)
  {
    hide Earned, Dues;
    BehindLater(eager, lazy, ahead, cost, now);
    hide Behind;
    RefillSound(eager, now) by { assert Sound(eager) by { BehindSound(eager, lazy, ahead, cost); } }
    BehindSound(eager, lazy, ahead, cost);
    hide Refill;
    assert Refill(eager, now).(balance := Refill(eager, now).balance - 0.0) == Refill(eager, now);
    assert lazy.(balance := lazy.balance - 0.0) == lazy;
  }

  lemma BehindSound(eager: Bucket, lazy: Bucket, ahead: int, cost: real)
    requires Behind(eager, lazy, ahead, cost)
    ensures Sound(eager) && Sound(lazy)
  {
  }

  /** For items of one cost, free ones aside, the lazy bucket grants at least as many as the documented one. */
  lemma {:induction false} LazyGrantsAtLeastEager(
    eager: Bucket, lazy: Bucket, ahead: int, cost: real, events: seq<Event>)
    requires Behind(eager, lazy, ahead, cost) && cost >= 0.0
    requires InOrder(events, eager.lastTick) && FreeOrCost(events, cost)
    ensures LazyGrants(lazy, events) + ahead >= EagerGrants(eager, events)
    decreases |events|
  {
    if events != [] {
      var now := events[0].at;
      var each := events[0].cost;
      assert events[0] in events && forall e <- events[1..] :: e in events;
      if each == cost { BehindStep(eager, lazy, ahead, cost, now); } else { FreeStep(eager, lazy, ahead, cost, now); }
      var e, l := EagerCheck(eager, now, each), Check(lazy, now, each);
      hide Behind, Check, EagerCheck;
      LazyGrantsAtLeastEager(e.after, l.after, ahead + Count(l.granted) - Count(e.granted), cost, events[1..]);
    }
  }

  lemma LazyAtLeastDocumented(rate: real, max: real, start: real, cost: real, events: seq<Event>)
    requires rate >= 0.0 && max >= 0.0 && cost >= 0.0 && InOrder(events, start) && FreeOrCost(events, cost)
    ensures LazyGrants(Full(rate, max, start), events) >= EagerGrants(Full(rate, max, start), events)
  {
    RefillSound(Full(rate, max, start), start);
    DuesStep(cost, 0);
    LazyGrantsAtLeastEager(Full(rate, max, start), Full(rate, max, start), 0, cost, events);
  }

  // ----- for which costs -----

  predicate CostsIn(events: seq<Event>, costs: iset<real>) { forall e <- events :: e.Request? && e.cost in costs }

  /** Whatever the limiter and the stream, with these costs the lazy bucket grants no fewer items than the documented one. */
  ghost predicate NeverFewer(costs: iset<real>)
  {
    forall rate: real, max: real, start: real, events: seq<Event> ::
      rate >= 0.0 && max >= 0.0 && InOrder(events, start) && CostsIn(events, costs) ==>
        LazyGrants(Full(rate, max, start), events) >= EagerGrants(Full(rate, max, start), events)
  }

  /** It never grants fewer if and only if no two different positive costs occur. */
  lemma NeverFewerExactly(costs: iset<real>)
    ensures NeverFewer(costs) <==> forall c <- costs, d <- costs :: c > 0.0 && d > 0.0 ==> c == d
  {
    if lo, hi :| lo in costs && hi in costs && 0.0 < lo < hi {
      TwoCostsDiffer(lo, hi);
      var w := Witness(lo, hi);
      assert CostsIn(w.events, costs);
      assert !NeverFewer(costs);
    } else {
      forall rate: real, max: real, start: real, events: seq<Event>
        | rate >= 0.0 && max >= 0.0 && InOrder(events, start) && CostsIn(events, costs)
        ensures LazyGrants(Full(rate, max, start), events) >= EagerGrants(Full(rate, max, start), events)
      {
        OneCost(events, start, costs);
        var cost :| cost >= 0.0 && FreeOrCost(events, cost);
        LazyAtLeastDocumented(rate, max, start, cost, events);
      }
    }
  }

  lemma OneCost(events: seq<Event>, start: real, costs: iset<real>)
    requires InOrder(events, start) && CostsIn(events, costs)
    requires forall c <- costs, d <- costs :: c > 0.0 && d > 0.0 ==> c == d
    ensures exists cost :: cost >= 0.0 && FreeOrCost(events, cost)
  {
    CostsNotNegative(events, start);
    if e :| e in events && e.cost > 0.0 {
      assert FreeOrCost(events, e.cost);
    } else {
      assert FreeOrCost(events, 0.0);
    }
  }

  lemma CostsNotNegative(events: seq<Event>, start: real)
    requires InOrder(events, start)
    ensures forall e <- events :: e.Request? ==> e.cost >= 0.0
  {
  }

  datatype Scenario = Scenario(max: real, events: seq<Event>)

  /**
   Two costs lo < hi. A full bucket holds `spare` more than the dear item costs. Both buckets pay the first; the lazy one,
   which refills only then, pays the second too, while the other has lost the difference to the ceiling and is left with
   the credit for two cheap items.
   */
  function Witness(lo: real, hi: real): (w: Scenario)
    requires 0.0 < lo < hi
  {
    var spare := Spare(lo, hi);
    var p := hi - spare;
    var q := p + 2.0 * lo - spare;
    Scenario(hi + spare, [Request(p, hi)] + ([Request(p, hi)] + ([Request(p, lo)] + ([Request(q, lo)] + []))))
  }

  function Spare(lo: real, hi: real): (b: real)
    requires 0.0 < lo < hi
    ensures lo < b < hi && b < 2.0 * lo
  {
    if hi < 2.0 * lo then (lo + hi) / 2.0 else 1.5 * lo
  }

  lemma TwoCostsDiffer(lo: real, hi: real)
    requires 0.0 < lo < hi
    ensures var w := Witness(lo, hi);
            InOrder(w.events, 0.0) && CostsIn(w.events, iset{lo, hi})
            && LazyGrants(Full(1.0, w.max, 0.0), w.events) == 2 && EagerGrants(Full(1.0, w.max, 0.0), w.events) == 3
  {
    var b := Spare(lo, hi);
    var p := hi - b;
    var q := p + 2.0 * lo - b;
    var e4 := [Request(q, lo)] + [];
    var e3 := [Request(p, lo)] + e4;
    var e2 := [Request(p, hi)] + e3;
    OneMore(Request(q, lo), [], p);
    OneMore(Request(p, lo), e4, p);
    OneMore(Request(p, hi), e3, p);
    OneMore(Request(p, hi), e2, 0.0);
    hide InOrder, Spare, LazyGrants, EagerGrants;
    TwoCostsLazy(lo, hi, b);
    TwoCostsEager(lo, hi, b);
  }

  lemma OneMore(e: Event, rest: seq<Event>, since: real)
    requires e.Request? && e.cost >= 0.0 && e.at >= since && InOrder(rest, e.at)
    ensures InOrder([e] + rest, since)
  {
  }

  lemma TwoCostsLazy(lo: real, hi: real, b: real)
    requires 0.0 < lo < b < hi && b < 2.0 * lo
    ensures var p := hi - b;
            var q := p + 2.0 * lo - b;
            LazyGrants(Full(1.0, hi + b, 0.0),
                       [Request(p, hi)] + ([Request(p, hi)] + ([Request(p, lo)] + ([Request(q, lo)] + [])))) == 2
  {
    var p := hi - b;
    var q := p + 2.0 * lo - b;
    var full, spent := Full(1.0, hi + b, 0.0), Bucket(1.0, b, hi + b, 0.0);
    var none, late := Bucket(1.0, 0.0, hi + b, p), Bucket(1.0, 2.0 * lo - b, hi + b, q);
    hide LazyGrants;
    assert Check(full, p, hi) == Verdict(true, spent);
    assert Check(spent, p, hi) == Verdict(true, none);
    assert Check(none, p, lo) == Verdict(false, none);
    assert Check(none, q, lo) == Verdict(false, late);
    hide Check;
    NextLazy(late, [], Request(q, lo), none);
    NextLazy(none, [Request(q, lo)] + [], Request(p, lo), none);
    NextLazy(none, [Request(p, lo)] + ([Request(q, lo)] + []), Request(p, hi), spent);
    NextLazy(spent, [Request(p, hi)] + ([Request(p, lo)] + ([Request(q, lo)] + [])), Request(p, hi), full);
  }

  lemma TwoCostsEager(lo: real, hi: real, b: real)
    requires 0.0 < lo < b < hi && b < 2.0 * lo
    ensures var p := hi - b;
            var q := p + 2.0 * lo - b;
            EagerGrants(Full(1.0, hi + b, 0.0),
                        [Request(p, hi)] + ([Request(p, hi)] + ([Request(p, lo)] + ([Request(q, lo)] + [])))) == 3
  {
    var p := hi - b;
    var q := p + 2.0 * lo - b;
    var full, spent := Full(1.0, hi + b, 0.0), Bucket(1.0, b, hi + b, p);
    var left, none := Bucket(1.0, b - lo, hi + b, p), Bucket(1.0, 0.0, hi + b, q);
    hide EagerGrants;
    assert EagerCheck(full, p, hi) == Verdict(true, spent);
    assert EagerCheck(spent, p, hi) == Verdict(false, spent);
    assert EagerCheck(spent, p, lo) == Verdict(true, left);
    assert EagerCheck(left, q, lo) == Verdict(true, none);
    hide EagerCheck;
    NextEager(none, [], Request(q, lo), left);
    NextEager(left, [Request(q, lo)] + [], Request(p, lo), spent);
    NextEager(spent, [Request(p, lo)] + ([Request(q, lo)] + []), Request(p, hi), spent);
    NextEager(spent, [Request(p, hi)] + ([Request(p, lo)] + ([Request(q, lo)] + [])), Request(p, hi), full);
  }

  lemma NextLazy(after: Bucket, rest: seq<Event>, e: Event, b: Bucket)
    requires e.Request? && Check(b, e.at, e.cost).after == after
    ensures LazyGrants(b, [e] + rest) == Count(Check(b, e.at, e.cost).granted) + LazyGrants(after, rest)
    ensures LazyGrants(after, []) == 0
  {
  }

  lemma NextEager(after: Bucket, rest: seq<Event>, e: Event, b: Bucket)
    requires e.Request? && EagerCheck(b, e.at, e.cost).after == after
    ensures EagerGrants(b, [e] + rest) == Count(EagerCheck(b, e.at, e.cost).granted) + EagerGrants(after, rest)
    ensures EagerGrants(after, []) == 0
  {
  }
}
