/**
  When header requests are sent: the budget of a request, and the schedule of
  repeated requests to one relay, with sleeps of exactly the asked length.
 */
module HeaderTiming {
  import opened Wrappers

  function SaturatingSub(a: nat, b: nat): nat {
    if a >= b then a - b else 0
  }

  function Min(a: nat, b: nat): nat {
    if a <= b then a else b
  }

  function CeilDiv(a: nat, b: nat): nat
    requires b > 0
  {
    (a + b - 1) / b
  }

  /** The time left for a header request that arrives msIntoSlot into its slot; zero means too late. */
  function MaxTimeout(timeoutGetHeaderMs: nat, lateInSlotTimeMs: nat, msIntoSlot: nat): nat {
    Min(timeoutGetHeaderMs, SaturatingSub(lateInSlotTimeMs, msIntoSlot))
  }

  datatype RelayTiming = RelayTiming(enabled: bool, targetFirstMs: Option<nat>, frequencyMs: Option<nat>)

  /** A request, by when it is sent after the call and how long it may take. */
  datatype Sent = Sent(offset: nat, timeout: nat)

  /** The wait before the first request. */
  function InitialDelay(timing: RelayTiming, msIntoSlot: nat): nat {
    if timing.enabled && timing.targetFirstMs.Some? then SaturatingSub(timing.targetFirstMs.value, msIntoSlot) else 0
  }

  /** How many requests fit a budget: one at least, then one per started period. */
  function RequestCount(timing: RelayTiming, budget: nat): (n: nat)
    requires timing.frequencyMs.Some? ==> timing.frequencyMs.value > 0
    ensures n >= 1
  {
    if timing.enabled && timing.frequencyMs.Some? then
      var n := CeilDiv(budget, timing.frequencyMs.value);
      if n == 0 then 1 else n
    else 1
  }

  /** Evenly spaced requests after the delay, each with what is then left of the budget. */
  ghost predicate IsSchedule(timing: RelayTiming, msIntoSlot: nat, maxTimeoutMs: nat, sent: seq<Sent>)
    requires timing.frequencyMs.Some? ==> timing.frequencyMs.value > 0
  {
    var delay := InitialDelay(timing, msIntoSlot);
    var budget := SaturatingSub(maxTimeoutMs, delay);
    var f := if timing.frequencyMs.Some? then timing.frequencyMs.value else 0;
    && |sent| == RequestCount(timing, budget)
    && forall k :: 0 <= k < |sent| ==> sent[k].offset == delay + k * f && sent[k].timeout == budget - k * f
  }

  lemma CeilDivStep(budget: nat, f: nat, k: nat)
    requires f > 0 && k >= 1
    ensures budget - (k - 1) * f > f <==> k < (if CeilDiv(budget, f) == 0 then 1 else CeilDiv(budget, f))
  {
    var q, m := (budget + f - 1) / f, (budget + f - 1) % f;
    assert budget + f - 1 == f * q + m;
    if k < q {
      assert f * q >= f * (k + 1) by {
        MulMono(f, k + 1, q);
      }
      assert f * (k + 1) == k * f + f;
    } else {
      assert f * q <= f * k by {
        MulMono(f, q, k);
      }
      assert f * k == k * f;
    }
    assert (k - 1) * f == k * f - f;
  }

  lemma MulMono(f: nat, a: int, b: int)
    requires a <= b
    ensures f * a <= f * b
  {
    assert f * b == f * a + f * (b - a);
  }

  /**
    `send_timed_get_header` up to its requests: a first one after the delay,
    then one per period while more than a period is left.
   */
  method SendTimed(timing: RelayTiming, msIntoSlot: nat, maxTimeoutMs: nat) returns (sent: seq<Sent>)
    requires timing.frequencyMs.Some? ==> timing.frequencyMs.value > 0
    ensures IsSchedule(timing, msIntoSlot, maxTimeoutMs, sent)
  {
    var timeoutLeft, clock := maxTimeoutMs, 0;
    if timing.enabled {
      if timing.targetFirstMs.Some? {
        var delay := SaturatingSub(timing.targetFirstMs.value, msIntoSlot);
        if delay > 0 {
          timeoutLeft := SaturatingSub(timeoutLeft, delay);
          clock := clock + delay;
        }
      }
      if timing.frequencyMs.Some? {
        sent := SendRepeated(timing.frequencyMs.value, clock, timeoutLeft);
        return;
      }
    }
    sent := [Sent(clock, timeoutLeft)];
  }

  /** The sending loop. */
  method SendRepeated(f: nat, start: nat, budget: nat) returns (sent: seq<Sent>)
    requires f > 0
    ensures |sent| == if CeilDiv(budget, f) == 0 then 1 else CeilDiv(budget, f)
    ensures forall k :: 0 <= k < |sent| ==> sent[k].offset == start + k * f && sent[k].timeout == budget - k * f
  {
    var timeoutLeft, clock := budget, start;
    sent := [Sent(clock, timeoutLeft)];
    ghost var n := if CeilDiv(budget, f) == 0 then 1 else CeilDiv(budget, f);
    while timeoutLeft > f
      invariant 1 <= |sent| <= n
      invariant timeoutLeft == budget - (|sent| - 1) * f && clock == start + (|sent| - 1) * f
      invariant forall k :: 0 <= k < |sent| ==> sent[k].offset == start + k * f && sent[k].timeout == budget - k * f
      decreases timeoutLeft
    {
      CeilDivStep(budget, f, |sent|);
      NextMultiple(|sent|, f);
      timeoutLeft := SaturatingSub(timeoutLeft, f);
      clock := clock + f;
      sent := sent + [Sent(clock, timeoutLeft)];
    }
    CeilDivStep(budget, f, |sent|);
  }

  lemma NextMultiple(k: nat, f: nat)
    ensures k * f == (k - 1) * f + f
  {
  }

  /** The budget is the longest time within the request timeout that ends no later than the late-in-slot limit. */
  lemma MaxTimeoutIsLongest(timeoutMs: nat, lateMs: nat, msIntoSlot: nat, t: nat)
    requires t > 0
    ensures t <= MaxTimeout(timeoutMs, lateMs, msIntoSlot) <==> t <= timeoutMs && msIntoSlot + t <= lateMs
  {
  }

  /**
    The first request goes out at the target time or, if that has passed or there
    is none, at once; the others follow it at equal distances while more than one
    distance is left, and the last one leaves no more than that.
   */
  lemma ScheduleTimes(timing: RelayTiming, msIntoSlot: nat, maxTimeoutMs: nat, sent: seq<Sent>)
    requires timing.frequencyMs.Some? ==> timing.frequencyMs.value > 0
    requires IsSchedule(timing, msIntoSlot, maxTimeoutMs, sent)
    ensures |sent| >= 1
    ensures msIntoSlot + sent[0].offset ==
            if timing.enabled && timing.targetFirstMs.Some? && timing.targetFirstMs.value > msIntoSlot
            then timing.targetFirstMs.value else msIntoSlot
    ensures timing.enabled && timing.frequencyMs.Some? ==>
              && (forall k :: 0 < k < |sent| ==> sent[k].offset == sent[k - 1].offset + timing.frequencyMs.value)
              && (forall k :: 0 <= k < |sent| - 1 ==> sent[k].timeout > timing.frequencyMs.value)
              && sent[|sent| - 1].timeout <= timing.frequencyMs.value
    ensures !(timing.enabled && timing.frequencyMs.Some?) ==> |sent| == 1
  {
    var delay := InitialDelay(timing, msIntoSlot);
    var budget := SaturatingSub(maxTimeoutMs, delay);
    var f := if timing.frequencyMs.Some? then timing.frequencyMs.value else 0;
    assert 0 * f == 0;
    if timing.enabled && timing.frequencyMs.Some? {
      forall k | 0 <= k < |sent|
        ensures k < |sent| - 1 <==> sent[k].timeout > f
        ensures k > 0 ==> sent[k].offset == sent[k - 1].offset + f
      {
        CeilDivStep(budget, f, k + 1);
        if k > 0 {
          NextMultiple(k, f);
        }
      }
    }
  }

  /**
    When the delay fits the budget, every request runs out at the same moment,
    which is never past the late-in-slot limit, and later requests only get less
    time; otherwise the one request that is sent has no time at all.
   */
  lemma CommonDeadline(timing: RelayTiming, timeoutMs: nat, lateMs: nat, msIntoSlot: nat, sent: seq<Sent>)
    requires timing.frequencyMs.Some? ==> timing.frequencyMs.value > 0
    requires MaxTimeout(timeoutMs, lateMs, msIntoSlot) > 0
    requires IsSchedule(timing, msIntoSlot, MaxTimeout(timeoutMs, lateMs, msIntoSlot), sent)
    ensures var maxTimeout := MaxTimeout(timeoutMs, lateMs, msIntoSlot);
            var delay := InitialDelay(timing, msIntoSlot);
            if delay <= maxTimeout then
              && msIntoSlot + maxTimeout <= lateMs
              && (forall k :: 0 <= k < |sent| ==> sent[k].offset + sent[k].timeout == maxTimeout)
              && (delay < maxTimeout ==> forall k :: 0 <= k < |sent| ==> sent[k].timeout > 0)
            else
              sent == [Sent(delay, 0)]
  {
    var maxTimeout, delay := MaxTimeout(timeoutMs, lateMs, msIntoSlot), InitialDelay(timing, msIntoSlot);
    var budget := SaturatingSub(maxTimeout, delay);
    var f := if timing.frequencyMs.Some? then timing.frequencyMs.value else 0;
    if delay < maxTimeout {
      forall k | 0 <= k < |sent|
        ensures sent[k].timeout > 0
      {
        if k >= 1 {
          CeilDivStep(budget, f, k);
          NextMultiple(k, f);
        }
      }
    } else {
      assert f > 0 ==> (f - 1) / f == 0;
      assert |sent| == 1;
      assert 0 * f == 0;
    }
  }
}
