/**
  The per-peer limiter of failed authentications: the check and the record are
  two separate critical sections over one shared map.
 */
module Limiter {
  import opened Wrappers

  type Ip = nat

  datatype FailureInfo = FailureInfo(failureCount: nat, lastFailure: nat)

  type Failures = map<Ip, FailureInfo>

  datatype Settings = Settings(limit: nat, timeout: nat)

  /** An entry is stale once strictly more than the timeout has passed. */
  predicate Expired(info: FailureInfo, timeout: nat, now: int) {
    now - info.lastFailure > timeout
  }

  /** The first critical section, `check_jwt_rate_limit`: may the request go on? */
  function Check(s: Settings, failures: Failures, ip: Ip, now: nat): (Failures, bool) {
    if ip !in failures then (failures, true)
    else if Expired(failures[ip], s.timeout, now) then (failures - {ip}, true)
    else (failures, failures[ip].failureCount < s.limit)
  }

  /** The second critical section: one more failure of the peer. */
  function Record(failures: Failures, ip: Ip, now: nat): Failures {
    var count := if ip in failures then failures[ip].failureCount else 0;
    failures[ip := FailureInfo(count + 1, now)]
  }

  // ----- requests handled one at a time

  datatype Request = Request(ip: Ip, now: nat, authorized: bool)

  datatype Verdict = Accepted | Unauthorized | RateLimited

  /** `jwt_auth` on one request. */
  function Handle(s: Settings, failures: Failures, req: Request): (Failures, Verdict) {
    var (checked, pass) := Check(s, failures, req.ip, req.now);
    if !pass then (checked, RateLimited)
    else if req.authorized then (checked, Accepted)
    else (Record(checked, req.ip, req.now), Unauthorized)
  }

  /** The failures of a peer that still count. */
  function Remembered(s: Settings, failures: Failures, ip: Ip, now: nat): nat {
    if ip in failures && now - failures[ip].lastFailure <= s.timeout then failures[ip].failureCount else 0
  }

  /** An unauthorized request adds one to the failures that still count; any other raises nobody's count. */
  ghost predicate CountsFailure(s: Settings, failures: Failures, req: Request, failures': Failures, verdict: Verdict) {
    if verdict == Unauthorized then
      failures' == failures[req.ip := FailureInfo(1 + Remembered(s, failures, req.ip, req.now), req.now)]
    else
      forall ip :: ip in failures' ==> ip in failures && failures'[ip].failureCount <= failures[ip].failureCount
  }

  lemma HandleCounts(s: Settings, failures: Failures, req: Request)
    ensures var (failures', verdict) := Handle(s, failures, req); CountsFailure(s, failures, req, failures', verdict)
  {
  }

  /** The state after a run of requests. */
  function Run(s: Settings, reqs: seq<Request>): Failures {
    if reqs == [] then map[]
    else Handle(s, Run(s, reqs[..|reqs| - 1]), reqs[|reqs| - 1]).0
  }

  /** The answer to request k of a run. */
  function VerdictAt(s: Settings, reqs: seq<Request>, k: nat): Verdict
    requires k < |reqs|
  {
    Handle(s, Run(s, reqs[..k]), reqs[k]).1
  }

  predicate NonDecreasing(reqs: seq<Request>) {
    forall k, l :: 0 <= k < l < |reqs| ==> reqs[k].now <= reqs[l].now
  }

  /** The length of the longest suffix of times whose neighbours are at most gap apart. */
  function Streak(times: seq<nat>, gap: nat): (n: nat)
    ensures n <= |times|
    ensures times != [] ==> n >= 1
  {
    if |times| <= 1 then |times|
    else if times[|times| - 1] - times[|times| - 2] > gap then 1
    else 1 + Streak(times[..|times| - 1], gap)
  }

  /** Streak is the longest such suffix: all gaps inside are small, the gap before it is not. */
  lemma {:induction false} StreakIsLongest(times: seq<nat>, gap: nat)
    ensures var n := Streak(times, gap);
            && (forall k :: |times| - n < k < |times| ==> times[k] - times[k - 1] <= gap)
            && (n < |times| ==> times[|times| - n] - times[|times| - n - 1] > gap)
  {
    if |times| > 1 && times[|times| - 1] - times[|times| - 2] <= gap {
      StreakIsLongest(times[..|times| - 1], gap);
    }
  }

  /** A peer is blocked when its current streak has reached the limit and has not expired. */
  predicate Blocked(s: Settings, times: seq<nat>, now: nat) {
    times != [] && Streak(times, s.timeout) >= s.limit && now - times[|times| - 1] <= s.timeout
  }

  /** The failures of a peer: its requests that do not authenticate and that its failures so far do not block. */
  function FailureTimes(s: Settings, reqs: seq<Request>, ip: Ip): seq<nat> {
    if reqs == [] then []
    else
      var n := |reqs| - 1;
      var before := FailureTimes(s, reqs[..n], ip);
      before + if IsFailure(s, before, reqs[n], ip) then [reqs[n].now] else []
  }

  predicate IsFailure(s: Settings, times: seq<nat>, req: Request, ip: Ip) {
    req.ip == ip && !req.authorized && !Blocked(s, times, req.now)
  }

  /** What the map holds for a peer whose failures happened at times, seen at clock. */
  ghost predicate Tracks(s: Settings, failures: Failures, ip: Ip, times: seq<nat>, clock: nat) {
    if ip in failures then
      times != [] && failures[ip] == FailureInfo(Streak(times, s.timeout), times[|times| - 1])
    else
      times == [] || clock - times[|times| - 1] > s.timeout
  }

  function Clock(reqs: seq<Request>): nat {
    if reqs == [] then 0 else reqs[|reqs| - 1].now
  }

  /** The answer that a peer's failures so far call for. */
  function Deserved(s: Settings, times: seq<nat>, req: Request): Verdict {
    if Blocked(s, times, req.now) then RateLimited else if req.authorized then Accepted else Unauthorized
  }

  lemma HandleTracks(s: Settings, failures: Failures, req: Request, ip: Ip, times: seq<nat>, clock: nat)
    requires Tracks(s, failures, ip, times, clock) && clock <= req.now
    requires times != [] ==> times[|times| - 1] <= clock
    ensures var (failures', verdict) := Handle(s, failures, req);
            && (req.ip == ip ==> verdict == Deserved(s, times, req))
            && var times' := if IsFailure(s, times, req, ip) then times + [req.now] else times;
               Tracks(s, failures', ip, times', req.now)
  {
    var times' := times + [req.now];
    assert times'[..|times'| - 1] == times;
  }

  lemma {:induction false} RunTracks(s: Settings, reqs: seq<Request>, ip: Ip)
    requires NonDecreasing(reqs)
    ensures Tracks(s, Run(s, reqs), ip, FailureTimes(s, reqs, ip), Clock(reqs))
    ensures var times := FailureTimes(s, reqs, ip); times != [] ==> times[|times| - 1] <= Clock(reqs)
  {
    if reqs != [] {
      var n := |reqs| - 1;
      assert forall k :: 0 <= k < n ==> reqs[..n][k] == reqs[k];
      RunTracks(s, reqs[..n], ip);
      HandleTracks(s, Run(s, reqs[..n]), reqs[n], ip, FailureTimes(s, reqs[..n], ip), Clock(reqs[..n]));
      assert FailureTimes(s, reqs, ip) == FailureTimes(s, reqs[..n], ip)
             || FailureTimes(s, reqs, ip) == FailureTimes(s, reqs[..n], ip) + [reqs[n].now];
    }
  }

  /**
    The limiter refines its history: over every run, the stored count is the
    length of the peer's latest failure streak. A request is limited exactly when
    that streak has reached the limit and its end is recent; otherwise it is
    accepted exactly if it authenticates.
   */
  lemma LimiterRefinesHistory(s: Settings, reqs: seq<Request>, k: nat)
    requires NonDecreasing(reqs) && k < |reqs|
    ensures var times := FailureTimes(s, reqs[..k], reqs[k].ip);
            && VerdictAt(s, reqs, k) == Deserved(s, times, reqs[k])
            && (reqs[k].ip in Run(s, reqs[..k]) ==>
                  Run(s, reqs[..k])[reqs[k].ip].failureCount == Streak(times, s.timeout))
            && (reqs[k].ip !in Run(s, reqs[..k]) ==>
                  times == [] || reqs[k].now - times[|times| - 1] > s.timeout)
  {
    var ip := reqs[k].ip;
    assert NonDecreasing(reqs[..k]);
    RunTracks(s, reqs[..k], ip);
    HandleTracks(s, Run(s, reqs[..k]), reqs[k], ip, FailureTimes(s, reqs[..k], ip), Clock(reqs[..k]));
  }

  /** After a run, a peer is let through the check exactly if its history does not block it. */
  lemma CheckRefinesHistory(s: Settings, reqs: seq<Request>, ip: Ip, now: nat)
    requires NonDecreasing(reqs) && Clock(reqs) <= now
    ensures Check(s, Run(s, reqs), ip, now).1 <==> !Blocked(s, FailureTimes(s, reqs, ip), now)
  {
    var req := Request(ip, now, true);
    RunTracks(s, reqs, ip);
    HandleTracks(s, Run(s, reqs), req, ip, FailureTimes(s, reqs, ip), Clock(reqs));
  }

  /** One more request at the end of a run. */
  lemma RunSnoc(s: Settings, reqs: seq<Request>, req: Request)
    requires NonDecreasing(reqs) && Clock(reqs) <= req.now
    ensures Run(s, reqs + [req]) == Handle(s, Run(s, reqs), req).0
    ensures NonDecreasing(reqs + [req]) && Clock(reqs + [req]) == req.now
  {
    assert (reqs + [req])[..|reqs|] == reqs;
    assert forall k :: 0 <= k < |reqs| ==> reqs[k].now <= Clock(reqs);
  }

  /** From request number start on, every request of the peer comes before its block expires. */
  ghost predicate BlockLasts(s: Settings, reqs: seq<Request>, start: nat, ip: Ip)
    requires start <= |reqs|
  {
    var times := FailureTimes(s, reqs[..start], ip);
    && times != [] && Streak(times, s.timeout) >= s.limit
    && forall j :: start <= j < |reqs| && reqs[j].ip == ip ==> reqs[j].now - times[|times| - 1] <= s.timeout
  }

  lemma LimitedIffBlocked(s: Settings, reqs: seq<Request>, k: nat)
    requires NonDecreasing(reqs) && k < |reqs|
    ensures VerdictAt(s, reqs, k) == RateLimited <==> Blocked(s, FailureTimes(s, reqs[..k], reqs[k].ip), reqs[k].now)
  {
    LimiterRefinesHistory(s, reqs, k);
  }

  lemma BlockedAddsNothing(s: Settings, reqs: seq<Request>, j: nat, ip: Ip, times: seq<nat>)
    requires j < |reqs| && times == FailureTimes(s, reqs[..j], ip)
    requires reqs[j].ip == ip ==> Blocked(s, times, reqs[j].now)
    ensures FailureTimes(s, reqs[..j + 1], ip) == times
  {
    assert reqs[..j + 1][..j] == reqs[..j];
  }

  /** Every later request of the peer comes while these failures block it. */
  ghost predicate BlocksFrom(s: Settings, reqs: seq<Request>, start: nat, ip: Ip, times: seq<nat>) {
    forall j :: start <= j < |reqs| && reqs[j].ip == ip ==> Blocked(s, times, reqs[j].now)
  }

  lemma {:induction false} KeptByEveryStep(h: nat -> seq<nat>, start: nat, j: nat)
    requires start <= j && forall k: nat :: start <= k < j && h(k) == h(start) ==> h(k + 1) == h(start)
    ensures h(j) == h(start)
    decreases j
  {
    if j > start {
      KeptByEveryStep(h, start, j - 1);
    }
  }

  ghost function HistoryAt(s: Settings, reqs: seq<Request>, ip: Ip): nat -> seq<nat> {
    (k: nat) => if k <= |reqs| then FailureTimes(s, reqs[..k], ip) else []
  }

  lemma FrozenStep(s: Settings, reqs: seq<Request>, start: nat, ip: Ip, times: seq<nat>, k: nat)
    requires NonDecreasing(reqs) && start <= k < |reqs| && BlocksFrom(s, reqs, start, ip, times)
    requires HistoryAt(s, reqs, ip)(k) == times
    ensures HistoryAt(s, reqs, ip)(k + 1) == times
  {
    BlockedAddsNothing(s, reqs, k, ip, times);
  }

  lemma FrozenHistory(s: Settings, reqs: seq<Request>, start: nat, ip: Ip, times: seq<nat>, j: nat)
    requires NonDecreasing(reqs) && start <= j <= |reqs| && BlocksFrom(s, reqs, start, ip, times)
    requires HistoryAt(s, reqs, ip)(start) == times
    ensures HistoryAt(s, reqs, ip)(j) == times
  {
    var h := HistoryAt(s, reqs, ip);
    forall k: nat | start <= k < j && h(k) == h(start)
      ensures h(k + 1) == h(start)
    {
      FrozenStep(s, reqs, start, ip, times, k);
    }
    KeptByEveryStep(h, start, j);
  }

  lemma HistoryFrozen(s: Settings, reqs: seq<Request>, start: nat, ip: Ip, j: nat)
    requires NonDecreasing(reqs) && start <= j <= |reqs| && BlockLasts(s, reqs, start, ip)
    ensures FailureTimes(s, reqs[..j], ip) == FailureTimes(s, reqs[..start], ip)
  {
    FrozenHistory(s, reqs, start, ip, FailureTimes(s, reqs[..start], ip), j);
  }

  /**
    While a block lasts every request of the peer is limited, whatever it
    carries, and none of them extends the block.
   */
  lemma LimitedRequestsDoNotExtend(s: Settings, reqs: seq<Request>, start: nat, ip: Ip)
    requires NonDecreasing(reqs) && start <= |reqs| && BlockLasts(s, reqs, start, ip)
    ensures FailureTimes(s, reqs, ip) == FailureTimes(s, reqs[..start], ip)
    ensures forall j :: start <= j < |reqs| && reqs[j].ip == ip ==> VerdictAt(s, reqs, j) == RateLimited
  {
    HistoryFrozen(s, reqs, start, ip, |reqs|);
    assert reqs[..|reqs|] == reqs;
    forall j | start <= j < |reqs| && reqs[j].ip == ip
      ensures VerdictAt(s, reqs, j) == RateLimited
    {
      HistoryFrozen(s, reqs, start, ip, j);
      LimitedIffBlocked(s, reqs, j);
    }
  }

  /** Once the timeout has passed, the next request of the peer is let through whatever happened in between. */
  lemma BlockEnds(s: Settings, reqs: seq<Request>, k: nat)
    requires NonDecreasing(reqs) && k < |reqs|
    requires var times := FailureTimes(s, reqs[..k], reqs[k].ip);
             times != [] && reqs[k].now - times[|times| - 1] > s.timeout
    ensures VerdictAt(s, reqs, k) == if reqs[k].authorized then Accepted else Unauthorized
  {
    LimiterRefinesHistory(s, reqs, k);
  }

  /** A limit of zero does not switch the limiter off: one failure blocks the peer. */
  lemma ZeroLimitBlocks(timeout: nat)
    ensures var reqs := [Request(0, 0, false), Request(0, timeout, true)];
            VerdictAt(Settings(0, timeout), reqs, 1) == RateLimited
  {
    var s := Settings(0, timeout);
    var reqs := [Request(0, 0, false), Request(0, timeout, true)];
    assert reqs[..1] == [reqs[0]];
    assert reqs[..1][..0] == [];
    assert Run(s, reqs[..1]) == Handle(s, map[], reqs[0]).0;
  }

  /** With limit zero a peer is limited exactly while it has a recent failure, over every run. */
  lemma ZeroLimitIff(s: Settings, reqs: seq<Request>, k: nat)
    requires s.limit == 0 && NonDecreasing(reqs) && k < |reqs|
    ensures var times := FailureTimes(s, reqs[..k], reqs[k].ip);
            VerdictAt(s, reqs, k) == RateLimited <==> times != [] && reqs[k].now - times[|times| - 1] <= s.timeout
  {
    LimiterRefinesHistory(s, reqs, k);
  }

  // ----- requests in flight concurrently

  /** The shared map and, per peer, how many requests passed the check and are not done yet. */
  datatype Shared = Shared(failures: Failures, inFlight: map<Ip, nat>)

  datatype Step =
    | CheckStep(ip: Ip, now: nat)   // first critical section of a new request
    | FailStep(ip: Ip, now: nat)    // second critical section of a request in flight
    | PassStep(ip: Ip)              // a request in flight that authenticates

  function InFlight(st: Shared, ip: Ip): nat {
    if ip in st.inFlight then st.inFlight[ip] else 0
  }

  function Count(st: Shared, ip: Ip): nat {
    if ip in st.failures then st.failures[ip].failureCount else 0
  }

  /** One atomic step, with at most maxInFlight requests of a peer between its two sections. */
  function Next(s: Settings, maxInFlight: nat, st: Shared, step: Step): Option<Shared> {
    match step
    case CheckStep(ip, now) =>
      if InFlight(st, ip) >= maxInFlight then None
      else
        var (failures, pass) := Check(s, st.failures, ip, now);
        Some(Shared(failures, if pass then st.inFlight[ip := InFlight(st, ip) + 1] else st.inFlight))
    case FailStep(ip, now) =>
      if InFlight(st, ip) == 0 then None
      else Some(Shared(Record(st.failures, ip, now), st.inFlight[ip := InFlight(st, ip) - 1]))
    case PassStep(ip) =>
      if InFlight(st, ip) == 0 then None
      else Some(Shared(st.failures, st.inFlight[ip := InFlight(st, ip) - 1]))
  }

  /** The state after an interleaving, if each step was possible. */
  function Interleave(s: Settings, maxInFlight: nat, steps: seq<Step>): Option<Shared> {
    if steps == [] then Some(Shared(map[], map[]))
    else
      match Interleave(s, maxInFlight, steps[..|steps| - 1])
      case None => None
      case Some(st) => Next(s, maxInFlight, st, steps[|steps| - 1])
  }

  /**
    Over all interleavings and clock readings, a peer never collects more than
    limit - 1 + maxInFlight failures, counting those still in flight.
   */
  lemma {:induction false} ConcurrentBound(s: Settings, maxInFlight: nat, steps: seq<Step>, ip: Ip)
    requires s.limit >= 1 && Interleave(s, maxInFlight, steps).Some?
    ensures var st := Interleave(s, maxInFlight, steps).value;
            InFlight(st, ip) <= maxInFlight && Count(st, ip) + InFlight(st, ip) <= s.limit - 1 + maxInFlight
  {
    if steps != [] {
      ConcurrentBound(s, maxInFlight, steps[..|steps| - 1], ip);
    }
  }

  /** k steps of the same kind. */
  function Repeat(step: Step, k: nat): seq<Step> {
    seq(k, i => step)
  }

  /** A run that extends a possible run by one possible step. */
  lemma InterleaveSnoc(s: Settings, maxInFlight: nat, steps: seq<Step>, step: Step)
    requires Interleave(s, maxInFlight, steps).Some?
    ensures Interleave(s, maxInFlight, steps + [step]) ==
            Next(s, maxInFlight, Interleave(s, maxInFlight, steps).value, step)
  {
    assert (steps + [step])[..|steps|] == steps;
  }

  /** Room for more requests in flight rules out no interleaving. */
  lemma {:induction false} MoreInFlight(s: Settings, maxInFlight: nat, more: nat, steps: seq<Step>)
    requires maxInFlight <= more && Interleave(s, maxInFlight, steps).Some?
    ensures Interleave(s, more, steps) == Interleave(s, maxInFlight, steps)
  {
    if steps != [] {
      MoreInFlight(s, maxInFlight, more, steps[..|steps| - 1]);
    }
  }

  /** The peer checks and fails k times in a row, all at time zero. */
  function Sequential(k: nat): seq<Step> {
    if k == 0 then [] else Sequential(k - 1) + [CheckStep(0, 0)] + [FailStep(0, 0)]
  }

  predicate At(st: Option<Shared>, count: nat, inFlight: nat) {
    && st.Some? && Count(st.value, 0) == count && InFlight(st.value, 0) == inFlight
    && (0 in st.value.failures ==> st.value.failures[0].lastFailure == 0)
  }

  lemma CheckAt(s: Settings, maxInFlight: nat, st: Shared, count: nat, inFlight: nat)
    requires At(Some(st), count, inFlight) && count < s.limit && inFlight < maxInFlight
    ensures At(Next(s, maxInFlight, st, CheckStep(0, 0)), count, inFlight + 1)
  {
  }

  lemma FailAt(s: Settings, maxInFlight: nat, st: Shared, count: nat, inFlight: nat)
    requires At(Some(st), count, inFlight) && inFlight > 0
    ensures At(Next(s, maxInFlight, st, FailStep(0, 0)), count + 1, inFlight - 1)
  {
  }

  lemma CheckThenFail(s: Settings, maxInFlight: nat, steps: seq<Step>, count: nat)
    requires At(Interleave(s, maxInFlight, steps), count, 0) && count < s.limit && maxInFlight >= 1
    ensures At(Interleave(s, maxInFlight, steps + [CheckStep(0, 0)] + [FailStep(0, 0)]), count + 1, 0)
  {
    var checked := steps + [CheckStep(0, 0)];
    InterleaveSnoc(s, maxInFlight, steps, CheckStep(0, 0));
    CheckAt(s, maxInFlight, Interleave(s, maxInFlight, steps).value, count, 0);
    InterleaveSnoc(s, maxInFlight, checked, FailStep(0, 0));
    FailAt(s, maxInFlight, Interleave(s, maxInFlight, checked).value, count, 1);
  }

  lemma {:induction false} SequentialReaches(s: Settings, maxInFlight: nat, k: nat)
    requires maxInFlight >= 1 && k <= s.limit
    ensures At(Interleave(s, maxInFlight, Sequential(k)), k, 0)
  {
    if k > 0 {
      SequentialReaches(s, maxInFlight, k - 1);
      CheckThenFail(s, maxInFlight, Sequential(k - 1), k - 1);
    }
  }

  lemma RepeatSnoc(steps: seq<Step>, step: Step, k: nat)
    requires k > 0
    ensures steps + Repeat(step, k) == steps + Repeat(step, k - 1) + [step]
  {
    assert Repeat(step, k) == Repeat(step, k - 1) + [step];
  }

  lemma {:induction false} ChecksPileUp(s: Settings, maxInFlight: nat, steps: seq<Step>, count: nat, k: nat)
    requires At(Interleave(s, maxInFlight, steps), count, 0) && count < s.limit && k <= maxInFlight
    ensures At(Interleave(s, maxInFlight, steps + Repeat(CheckStep(0, 0), k)), count, k)
  {
    if k == 0 {
      assert steps + Repeat(CheckStep(0, 0), k) == steps;
    } else {
      var before := steps + Repeat(CheckStep(0, 0), k - 1);
      ChecksPileUp(s, maxInFlight, steps, count, k - 1);
      InterleaveSnoc(s, maxInFlight, before, CheckStep(0, 0));
      CheckAt(s, maxInFlight, Interleave(s, maxInFlight, before).value, count, k - 1);
      RepeatSnoc(steps, CheckStep(0, 0), k);
    }
  }

  lemma {:induction false} FailuresLand(s: Settings, maxInFlight: nat, steps: seq<Step>, count: nat, inFlight: nat,
                                        k: nat)
    requires At(Interleave(s, maxInFlight, steps), count, inFlight) && k <= inFlight
    ensures At(Interleave(s, maxInFlight, steps + Repeat(FailStep(0, 0), k)), count + k, inFlight - k)
  {
    if k == 0 {
      assert steps + Repeat(FailStep(0, 0), k) == steps;
    } else {
      var before := steps + Repeat(FailStep(0, 0), k - 1);
      FailuresLand(s, maxInFlight, steps, count, inFlight, k - 1);
      InterleaveSnoc(s, maxInFlight, before, FailStep(0, 0));
      FailAt(s, maxInFlight, Interleave(s, maxInFlight, before).value, count + k - 1, inFlight - k + 1);
      RepeatSnoc(steps, FailStep(0, 0), k);
    }
  }

  /** The bound is tight: some interleaving records exactly that many failures. */
  lemma ConcurrentBoundIsReached(s: Settings, maxInFlight: nat)
    requires s.limit >= 1 && maxInFlight >= 1
    ensures var checks, failures := Repeat(CheckStep(0, 0), maxInFlight), Repeat(FailStep(0, 0), maxInFlight);
            var steps := Sequential(s.limit - 1) + checks + failures;
            At(Interleave(s, maxInFlight, steps), s.limit - 1 + maxInFlight, 0)
  {
    SequentialReaches(s, maxInFlight, s.limit - 1);
    ChecksPileUp(s, maxInFlight, Sequential(s.limit - 1), s.limit - 1, maxInFlight);
    FailuresLand(s, maxInFlight, Sequential(s.limit - 1) + Repeat(CheckStep(0, 0), maxInFlight),
                 s.limit - 1, maxInFlight, maxInFlight);
  }
}
