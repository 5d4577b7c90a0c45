/** faim_native/cache/redis_client.py: the fixed-window limiter of `RedisCache` and
    `GlobalRateLimiter`, over one Redis counter. Times are real seconds. */
module RateLimit {

  type Positive = n: nat | n > 0 witness 1

  /** The counter key: absent, counting until it expires, or left without an expiry. */
  datatype Counter = Absent | Counting(count: Positive, expires: real) | Unexpiring(count: Positive) {
    function At(now: real): Counter {
      if Counting? && now >= expires then Absent else this
    }

    function Count(now: real): nat {
      match At(now)
      case Absent => 0
      case Counting(n, _) => n
      case Unexpiring(n) => n
    }

    /** `incr`, and `expire` when the count becomes 1. */
    function Incremented(now: real, window: real): Counter {
      match At(now)
      case Absent => Counting(1, now + window)
      case Counting(n, e) => Counting(n + 1, e)
      case Unexpiring(n) => Unexpiring(n + 1)
    }
  }

  /** Redis may be down for a call, or fail between `incr` and `expire`. */
  datatype Fault = Up | Down | ExpireFails

  datatype Call = Call(time: real, fault: Fault)

  function Next(c: Counter, call: Call, window: real): Counter {
    match call.fault
    case Up => c.Incremented(call.time, window)
    case Down => c
    case ExpireFails =>
      if c.At(call.time).Absent? then Unexpiring(1) else c.Incremented(call.time, window)
  }

  predicate Allowed(c: Counter, call: Call, limit: int) {
    match call.fault
    case Up => c.Count(call.time) + 1 <= limit
    case Down => true
    case ExpireFails => c.At(call.time).Absent? || c.Count(call.time) + 1 <= limit
  }

  function Remaining(c: Counter, now: real, limit: int): int {
    if c.At(now).Absent? then limit else if limit > c.Count(now) then limit - c.Count(now) else 0
  }

  class RateLimiter {
    var counter: Counter

    constructor ()
      ensures counter == Absent
    {
      counter := Absent;
    }

    /** `check_rate_limit`, command by command. */
    method CheckRateLimit(call: Call, limit: int, window: real) returns (allowed: bool)
      modifies this
      ensures counter == Next(old(counter), call, window)
      ensures allowed <==> Allowed(old(counter), call, limit)
    {
      if call.fault.Down? { return true; }
      counter := counter.At(call.time);
      var current := counter.Count(call.time) + 1;
      counter := match counter
                 case Absent => Unexpiring(1)
                 case Counting(n, e) => Counting(n + 1, e)
                 case Unexpiring(n) => Unexpiring(n + 1);
      if current == 1 {
        if call.fault.ExpireFails? { return true; }
        counter := Counting(current, call.time + window);
      }
      allowed := current <= limit;
    }

    /** `get_rate_limit_remaining` */
    method GetRateLimitRemaining(now: real, reachable: bool, limit: int) returns (remaining: int)
      ensures remaining == if reachable then Remaining(counter, now, limit) else limit
    {
      if !reachable { return limit; }
      var current := counter.Count(now);
      if current == 0 { return limit; }
      remaining := if limit - current > 0 then limit - current else 0;
    }
  }

  // ---- runs of calls

  ghost predicate Ordered(calls: seq<Call>) {
    forall i, j | 0 <= i < j < |calls| :: calls[i].time <= calls[j].time
  }

  /** No `expire` is ever lost. */
  ghost predicate AtomicExpiry(calls: seq<Call>) {
    forall x :: x in calls ==> !x.fault.ExpireFails?
  }

  /** The call reaches Redis at a time in [from, from + window) and is accepted. */
  predicate AcceptedIn(c: Counter, call: Call, limit: int, window: real, from: real) {
    call.fault.Up? && Allowed(c, call, limit) && from <= call.time < from + window
  }

  /** The accepted calls that reached Redis at a time in [from, from + window). */
  function Accepted(c: Counter, calls: seq<Call>, limit: int, window: real, from: real): nat
    decreases |calls|
  {
    if calls == [] then 0
    else
      (if AcceptedIn(c, calls[0], limit, window, from) then 1 else 0)
      + Accepted(Next(c, calls[0], window), calls[1..], limit, window, from)
  }

  function AtLeastZero(x: int): nat { if x > 0 then x else 0 }

  function AtMost(x: int, y: int): int { if x < y then x else y }

  /** What an observer of [from, from + window) knows after `seen` accepted calls in it, the
      last call being at `last`: the key's lifetime began at `expires - window`. */
  ghost predicate Accounted(c: Counter, seen: nat, last: real, limit: int, window: real, from: real) {
    && seen <= AtLeastZero(2 * limit - 1)
    && (last < from ==> seen == 0)
    && match c
       case Absent => seen == 0
       case Unexpiring(_) => false
       case Counting(n, e) =>
         var began := e - window;
         && began <= last
         && (began < from && limit > 0 ==> seen <= AtMost(n, limit) - 1)
         && (from <= began < from + window && limit > 0 ==> seen <= limit - 1 + AtMost(n, limit))
  }

  lemma AccountedStep(c: Counter, seen: nat, last: real, limit: int, window: real, from: real, call: Call)
    requires window > 0.0 && Accounted(c, seen, last, limit, window, from)
    requires last <= call.time && !call.fault.ExpireFails?
    ensures Accounted(Next(c, call, window),
                      seen + (if AcceptedIn(c, call, limit, window, from) then 1 else 0),
                      call.time, limit, window, from)
  {}

  lemma {:induction false} AccountedBounds(c: Counter, seen: nat, last: real, calls: seq<Call>,
                                           limit: int, window: real, from: real)
    requires window > 0.0 && Accounted(c, seen, last, limit, window, from)
    requires Ordered(calls) && AtomicExpiry(calls) && (calls != [] ==> last <= calls[0].time)
    ensures seen + Accepted(c, calls, limit, window, from) <= AtLeastZero(2 * limit - 1)
    decreases |calls|
  {
    if calls != [] {
      var call := calls[0];
      assert call in calls && forall x :: x in calls[1..] ==> x in calls;
      AccountedStep(c, seen, last, limit, window, from, call);
      var seen' := seen + if AcceptedIn(c, call, limit, window, from) then 1 else 0;
      AccountedBounds(Next(c, call, window), seen', call.time, calls[1..], limit, window, from);
    }
  }

  /** Every half-open interval of one window's length sees at most 2L - 1 accepted calls. */
  lemma WindowBound(calls: seq<Call>, limit: int, window: real, from: real)
    requires window > 0.0 && Ordered(calls) && AtomicExpiry(calls)
    ensures Accepted(Absent, calls, limit, window, from) <= AtLeastZero(2 * limit - 1)
  {
    if calls != [] { AccountedBounds(Absent, 0, AtMostReal(calls[0].time, from - 1.0), calls, limit, window, from); }
  }

  function AtMostReal(x: real, y: real): real { if x < y then x else y }

  // ---- the bound is reached

  function Burst(n: nat, time: real): seq<Call> {
    if n == 0 then [] else [Call(time, Up)] + Burst(n - 1, time)
  }

  lemma {:induction false} BurstIsOrdered(n: nat, time: real)
    ensures |Burst(n, time)| == n && forall x :: x in Burst(n, time) ==> x == Call(time, Up)
  {
    if n > 0 { BurstIsOrdered(n - 1, time); }
  }

  /** A burst inside a lifetime with room for it is all accepted. */
  lemma {:induction false} BurstAccepted(c: Counter, n: nat, time: real, rest: seq<Call>,
                                         limit: int, window: real, from: real)
    requires c.Counting? && time < c.expires && c.count + n <= limit && from <= time < from + window
    ensures Accepted(c, Burst(n, time) + rest, limit, window, from)
         == n + Accepted(Counting(c.count + n, c.expires), rest, limit, window, from)
    decreases n
  {
    if n == 0 {
      assert [] + rest == rest;
    } else {
      assert (Burst(n, time) + rest)[1..] == Burst(n - 1, time) + rest;
      BurstAccepted(Counting(c.count + 1, c.expires), n - 1, time, rest, limit, window, from);
    }
  }

  /** One early call, L - 1 calls halfway through its lifetime and L calls as it ends. */
  function WorstCase(limit: int, window: real): seq<Call>
    requires limit > 0
  {
    [Call(0.0, Up)] + (Burst(limit - 1, window / 2.0) + ([Call(window, Up)] + Burst(limit - 1, window)))
  }

  lemma WorstCaseCalls(limit: int, window: real)
    requires limit > 0
    ensures |WorstCase(limit, window)| == 2 * limit
    ensures forall i | 0 <= i < 2 * limit :: WorstCase(limit, window)[i]
              == Call(if i == 0 then 0.0 else if i < limit then window / 2.0 else window, Up)
  {
    var late, again, calls := Burst(limit - 1, window / 2.0), Burst(limit - 1, window), WorstCase(limit, window);
    BurstIsOrdered(limit - 1, window / 2.0);
    BurstIsOrdered(limit - 1, window);
    forall i | 0 <= i < 2 * limit
      ensures calls[i] == Call(if i == 0 then 0.0 else if i < limit then window / 2.0 else window, Up)
    {
      if 1 <= i < limit { assert calls[i] == late[i - 1] && late[i - 1] in late; }
      if i > limit { assert calls[i] == again[i - limit - 1] && again[i - limit - 1] in again; }
    }
  }

  lemma WorstCaseOrdered(limit: int, window: real)
    requires limit > 0 && window > 0.0
    ensures Ordered(WorstCase(limit, window)) && AtomicExpiry(WorstCase(limit, window))
  {
    WorstCaseCalls(limit, window);
  }

  /** As a full lifetime ends, L calls open and fill the next one. */
  lemma NextLifetimeFills(limit: int, window: real, from: real)
    requires limit > 0 && window > 0.0 && from <= window < from + window
    ensures Accepted(Counting(limit, window), [Call(window, Up)] + Burst(limit - 1, window), limit, window, from)
         == limit
  {
    var again := Burst(limit - 1, window);
    assert ([Call(window, Up)] + again)[1..] == again && again + [] == again;
    BurstAccepted(Counting(1, window + window), limit - 1, window, [], limit, window, from);
  }

  /** The bound is the best possible for every limit and window. */
  lemma WindowBoundIsReached(limit: int, window: real)
    requires limit > 0 && window > 0.0
    ensures Ordered(WorstCase(limit, window)) && AtomicExpiry(WorstCase(limit, window))
    ensures Accepted(Absent, WorstCase(limit, window), limit, window, window / 2.0) == 2 * limit - 1
  {
    var tail := [Call(window, Up)] + Burst(limit - 1, window);
    WorstCaseOrdered(limit, window);
    NextLifetimeFills(limit, window, window / 2.0);
    assert WorstCase(limit, window)[1..] == Burst(limit - 1, window / 2.0) + tail;
    BurstAccepted(Counting(1, window), limit - 1, window / 2.0, tail, limit, window, window / 2.0);
  }

  /** No interval of one window's length takes in more than the limit. */
  ghost predicate KeepsLimit(calls: seq<Call>, limit: int, window: real, from: real) {
    Ordered(calls) && AtomicExpiry(calls) ==> Accepted(Absent, calls, limit, window, from) <= AtLeastZero(limit)
  }

  /** The limiter keeps its limit in every sliding window exactly for limits of at most 1. */
  lemma SlidingLimitIff(limit: int, window: real)
    requires window > 0.0
    ensures (forall calls, from :: KeepsLimit(calls, limit, window, from)) <==> limit <= 1
  {
    if limit <= 1 {
      forall calls, from ensures KeepsLimit(calls, limit, window, from) {
        if Ordered(calls) && AtomicExpiry(calls) { WindowBound(calls, limit, window, from); }
      }
    } else {
      WindowBoundIsReached(limit, window);
      assert !KeepsLimit(WorstCase(limit, window), limit, window, window / 2.0);
    }
  }

  // ---- one lifetime of the key, and the reported remainder

  function Verdicts(c: Counter, calls: seq<Call>, limit: int, window: real): (r: seq<bool>)
    ensures |r| == |calls|
    decreases |calls|
  {
    if calls == [] then []
    else [Allowed(c, calls[0], limit)] + Verdicts(Next(c, calls[0], window), calls[1..], limit, window)
  }

  /** The calls reach Redis and fall in the lifetime that is current at `now`, or in the one
      the first of them opens. */
  ghost predicate SameLifetime(c: Counter, now: real, calls: seq<Call>, window: real) {
    && Ordered(calls)
    && (forall x :: x in calls ==> x.fault.Up? && now <= x.time)
    && match c.At(now)
       case Absent => forall x :: x in calls ==> x.time < calls[0].time + window
       case Counting(_, e) => forall x :: x in calls ==> x.time < e
       case Unexpiring(_) => true
  }

  lemma {:induction false} CountedOut(c: Counter, calls: seq<Call>, limit: int, window: real)
    requires !c.Absent? && forall x :: x in calls ==> x.fault.Up? && (c.Counting? ==> x.time < c.expires)
    ensures forall i | 0 <= i < |calls| :: Verdicts(c, calls, limit, window)[i] <==> c.count + 1 + i <= limit
    decreases |calls|
  {
    if calls != [] {
      assert calls[0] in calls && forall x :: x in calls[1..] ==> x in calls;
      CountedOut(Next(c, calls[0], window), calls[1..], limit, window);
    }
  }

  /** Of the further calls in the current lifetime, exactly the first `remaining` pass. So a
      lifetime accepts its first L calls and no more. */
  lemma RemainingIsExact(c: Counter, now: real, calls: seq<Call>, limit: int, window: real)
    requires window > 0.0 && SameLifetime(c, now, calls, window)
    ensures forall i | 0 <= i < |calls| :: Verdicts(c, calls, limit, window)[i] <==> i < Remaining(c, now, limit)
  {
    if calls != [] {
      assert calls[0] in calls && forall x :: x in calls[1..] ==> x in calls;
      if c.At(now).Absent? {
        assert c.At(calls[0].time).Absent?;
        CountedOut(Counting(1, calls[0].time + window), calls[1..], limit, window);
      } else {
        CountedOut(c, calls, limit, window);
      }
    }
  }

  /** If `expire` fails after the first `incr`, the key never expires: that call passes, then
      the next L - 1, whenever they come, and nothing ever again. */
  lemma LostExpiryNeverResets(first: Call, calls: seq<Call>, limit: int, window: real)
    requires first.fault.ExpireFails? && forall x :: x in calls ==> x.fault.Up?
    ensures var v := Verdicts(Absent, [first] + calls, limit, window);
            v[0] && forall i | 1 <= i <= |calls| :: v[i] <==> i + 1 <= limit
  {
    assert ([first] + calls)[1..] == calls;
    CountedOut(Unexpiring(1), calls, limit, window);
  }

  // ---- when the key loses its expiry

  /** The counter the calls leave. */
  function Final(c: Counter, calls: seq<Call>, window: real): Counter {
    if calls == [] then c else Next(Final(c, calls[..|calls| - 1], window), calls[|calls| - 1], window)
  }

  /** The i-th call starts a lifetime and then fails to give it an end. */
  predicate LosesExpiry(c: Counter, calls: seq<Call>, window: real, i: nat)
    requires i < |calls|
  {
    calls[i].fault.ExpireFails? && Final(c, calls[..i], window).At(calls[i].time).Absent?
  }

  /** The key is left without an expiry exactly when some call incremented an absent key and
      failed to expire it. */
  lemma {:induction false} UnexpiringIffLost(c: Counter, calls: seq<Call>, window: real)
    requires !c.Unexpiring?
    ensures Final(c, calls, window).Unexpiring? <==> exists i :: 0 <= i < |calls| && LosesExpiry(c, calls, window, i)
    decreases |calls|
  {
    if calls != [] {
      var n := |calls| - 1;
      var front := calls[..n];
      UnexpiringIffLost(c, front, window);
      assert forall i | 0 <= i < n :: front[i] == calls[i] && front[..i] == calls[..i];
      if Final(c, front, window).Unexpiring? {
        var i :| 0 <= i < n && LosesExpiry(c, front, window, i);
        assert LosesExpiry(c, calls, window, i);
      } else {
        assert Final(c, calls, window).Unexpiring? <==> LosesExpiry(c, calls, window, n);
        assert forall i | 0 <= i < n :: LosesExpiry(c, calls, window, i) ==> LosesExpiry(c, front, window, i);
      }
    }
  }

  /** From some time on a call is accepted whenever it comes first. */
  ghost predicate Reopens(c: Counter, limit: int) {
    exists from: real :: ReopensAt(c, limit, from)
  }

  ghost predicate ReopensAt(c: Counter, limit: int, from: real) {
    forall time :: time >= from ==> Allowed(c, Call(time, Up), limit)
  }

  /** A limiter reopens by itself exactly when its key expires or still has room. */
  lemma ReopensIff(c: Counter, limit: int)
    requires limit >= 1
    ensures Reopens(c, limit) <==> !(c.Unexpiring? && c.count >= limit)
  {
    if c.Unexpiring? && c.count >= limit {
      forall from: real ensures !ReopensAt(c, limit, from) {
        assert !Allowed(c, Call(from, Up), limit);
      }
    } else {
      assert ReopensAt(c, limit, if c.Counting? then c.expires else 0.0);
    }
  }

  /** After any run from a fresh key the limiter reopens, unless a call lost the expiry and the
      key has since counted up to the limit. */
  lemma RunReopensIff(calls: seq<Call>, limit: int, window: real)
    requires limit >= 1
    ensures Reopens(Final(Absent, calls, window), limit) <==>
              !((exists i :: 0 <= i < |calls| && LosesExpiry(Absent, calls, window, i))
                && forall time :: Final(Absent, calls, window).Count(time) >= limit)
  {
    UnexpiringIffLost(Absent, calls, window);
    var c := Final(Absent, calls, window);
    ReopensIff(c, limit);
    assert c.Unexpiring? ==> forall time :: c.Count(time) == c.count;
  }

  // ---- outages, lifetimes and the edge of the window

  /** During an outage every call passes and nothing is counted. */
  lemma OutageMeaning(c: Counter, call: Call, limit: int, window: real)
    requires call.fault == Down
    ensures Allowed(c, call, limit) && Next(c, call, window) == c
  {}

  /** A call that reaches Redis opens a lifetime of one window at an absent or expired key, and
      otherwise counts in the current one; it passes while the count stays within the limit. */
  lemma CallMeaning(c: Counter, call: Call, limit: int, window: real)
    requires call.fault == Up
    ensures c.Absent? || (c.Counting? && c.expires <= call.time) ==>
              Next(c, call, window) == Counting(1, call.time + window) && (Allowed(c, call, limit) <==> 1 <= limit)
    ensures c.Counting? && call.time < c.expires ==>
              && Next(c, call, window) == Counting(c.count + 1, c.expires)
              && (Allowed(c, call, limit) <==> c.count + 1 <= limit)
    ensures c.Unexpiring? ==>
              Next(c, call, window) == Unexpiring(c.count + 1) && (Allowed(c, call, limit) <==> c.count + 1 <= limit)
  {}

  /** When `expire` fails after the first increment the call passes, and the key has no end. */
  lemma LostExpiryMeaning(c: Counter, call: Call, limit: int, window: real)
    requires call.fault == ExpireFails && (c.Absent? || (c.Counting? && c.expires <= call.time))
    ensures Allowed(c, call, limit) && Next(c, call, window) == Unexpiring(1)
  {}
}
