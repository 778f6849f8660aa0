/** Polling for readiness under an overall deadline, in milliseconds. */
module Readiness {

  /** What the endpoint would do: answer after `duration`, ready or not. */
  datatype Answer = Answer(duration: nat, ready: bool)

  /** One bounded probe: the request races its timeout. */
  datatype Probe = Probe(elapsed: nat, ready: bool)

  function ProbeReadiness(answer: Answer, timeout: nat): (p: Probe)
    ensures p.elapsed <= timeout && p.elapsed <= answer.duration
    ensures p.elapsed == timeout || p.elapsed == answer.duration
    ensures p.ready <==> answer.ready && answer.duration < timeout
  {
    if answer.duration < timeout then Probe(answer.duration, answer.ready) else Probe(timeout, false)
  }

  function Min(a: nat, b: nat): (r: nat)
    ensures r <= a && r <= b && (r == a || r == b)
  {
    if a < b then a else b
  }

  /** ceil(a / b). */
  ghost function CeilDiv(a: nat, b: nat): nat
    requires b > 0
  {
    (a + b - 1) / b
  }

  /** The time `n` full intervals take. */
  ghost function Intervals(n: nat, interval: nat): nat {
    if n == 0 then 0 else Intervals(n - 1, interval) + interval
  }

  lemma {:induction false} IntervalsMultiply(n: nat, interval: nat)
    ensures Intervals(n, interval) == n * interval
  {
    if n > 0 { IntervalsMultiply(n - 1, interval); }
  }

  /** What the endpoint would do for the k-th probe, started at a given time. */
  type Endpoint = (nat, nat) -> Answer

  /** A wait as it went: its probes' starts and timeouts, how it ended, and after how long. */
  datatype Wait = Wait(starts: seq<nat>, timeouts: seq<nat>, ready: bool, elapsed: nat)

  ghost function ProbeAt(endpoint: Endpoint, starts: seq<nat>, timeouts: seq<nat>, i: nat): Probe
    requires i < |starts| == |timeouts|
  {
    ProbeReadiness(endpoint(i, starts[i]), timeouts[i])
  }

  /** When an unready probe and the sleep after it are over: at the deadline at the latest. */
  ghost function AfterSleep(start: nat, p: Probe, deadline: nat, retryInterval: nat): nat {
    if start + p.elapsed >= deadline then start + p.elapsed
    else if start + p.elapsed + retryInterval <= deadline then start + p.elapsed + retryInterval
    else deadline
  }

  /** Every probe starts before the deadline, with what is left of it or the request timeout. */
  ghost predicate Polls(endpoint: Endpoint, requestTimeout: nat, deadline: nat, retryInterval: nat,
                        starts: seq<nat>, timeouts: seq<nat>)
  {
    && |starts| == |timeouts| && (starts != [] ==> starts[0] == 0)
    && (forall i | 0 <= i < |starts| ::
          && starts[i] < deadline
          && timeouts[i] == if starts[i] + requestTimeout <= deadline then requestTimeout else deadline - starts[i])
    && (forall i | 0 <= i < |starts| - 1 ::
          && !ProbeAt(endpoint, starts, timeouts, i).ready
          && starts[i + 1] == AfterSleep(starts[i], ProbeAt(endpoint, starts, timeouts, i), deadline, retryInterval))
  }

  /** The wait ends with the first ready probe, or when an unready one and its sleep have used the deadline up. */
  ghost predicate IsWait(endpoint: Endpoint, requestTimeout: nat, deadline: nat, retryInterval: nat, w: Wait) {
    && Polls(endpoint, requestTimeout, deadline, retryInterval, w.starts, w.timeouts) && w.starts != []
    && var last := |w.starts| - 1;
    && var probe := ProbeAt(endpoint, w.starts, w.timeouts, last);
    && w.ready == probe.ready
    && (if w.ready then w.elapsed == w.starts[last] + probe.elapsed
        else w.elapsed == deadline == AfterSleep(w.starts[last], probe, deadline, retryInterval))
  }

  /** Time passes only in probes and sleeps. */
  method WaitForReadiness(endpoint: Endpoint, requestTimeout: nat, deadline: nat, retryInterval: nat)
    returns (w: Wait)
    requires requestTimeout > 0 && deadline > 0 && retryInterval > 0
    ensures IsWait(endpoint, requestTimeout, deadline, retryInterval, w)
  {
    var now: nat, starts: seq<nat>, timeouts: seq<nat> := 0, [], [];
    while now < deadline
      invariant now <= deadline
      invariant Polls(endpoint, requestTimeout, deadline, retryInterval, starts, timeouts)
      invariant starts == [] ==> now == 0
      invariant starts != [] ==>
        var probe := ProbeAt(endpoint, starts, timeouts, |starts| - 1);
        !probe.ready && now == AfterSleep(starts[|starts| - 1], probe, deadline, retryInterval)
      decreases deadline - now
    {
      var timeout := Min(requestTimeout, deadline - now);
      var last := ProbeReadiness(endpoint(|starts|, now), timeout);
      PollsOneMore(endpoint, requestTimeout, deadline, retryInterval, starts, timeouts, now);
      starts, timeouts := starts + [now], timeouts + [timeout];
      now := now + last.elapsed;
      if last.ready { return Wait(starts, timeouts, true, now); }
      if now >= deadline { break; }
      now := now + Min(retryInterval, deadline - now);
    }
    w := Wait(starts, timeouts, false, now);
  }

  lemma {:induction false} PollsOneMore(
      endpoint: Endpoint, requestTimeout: nat, deadline: nat, retryInterval: nat, starts: seq<nat>,
      timeouts: seq<nat>, now: nat)
    requires Polls(endpoint, requestTimeout, deadline, retryInterval, starts, timeouts) && now < deadline
    requires starts == [] ==> now == 0
    requires starts != [] ==>
      var probe := ProbeAt(endpoint, starts, timeouts, |starts| - 1);
      !probe.ready && now == AfterSleep(starts[|starts| - 1], probe, deadline, retryInterval)
    ensures Polls(endpoint, requestTimeout, deadline, retryInterval, starts + [now],
                  timeouts + [Min(requestTimeout, deadline - now)])
  {
    var starts', timeouts' := starts + [now], timeouts + [Min(requestTimeout, deadline - now)];
    assert forall i | 0 <= i < |starts| ::
      ProbeAt(endpoint, starts', timeouts', i) == ProbeAt(endpoint, starts, timeouts, i);
  }

  /** Each probe starts a full interval or more after the one before. */
  lemma {:induction false} StartsAreSpaced(
      endpoint: Endpoint, requestTimeout: nat, deadline: nat, retryInterval: nat, w: Wait, i: nat)
    requires IsWait(endpoint, requestTimeout, deadline, retryInterval, w) && i < |w.starts|
    ensures w.starts[i] >= Intervals(i, retryInterval)
    decreases i
  {
    if i > 0 {
      StartsAreSpaced(endpoint, requestTimeout, deadline, retryInterval, w, i - 1);
      assert w.starts[i] < deadline;
      assert w.starts[i] == AfterSleep(w.starts[i - 1], ProbeAt(endpoint, w.starts, w.timeouts, i - 1), deadline,
                                       retryInterval);
    }
  }

  /**
   The wait never exceeds the deadline and gives up only when all of it is used; it makes at most
   ceil(deadline / retryInterval) attempts, each with a positive timeout; and it is ready exactly when its
   last probe was, and only then stops early.
   */
  lemma {:induction false} WaitIsBounded(
      endpoint: Endpoint, requestTimeout: nat, deadline: nat, retryInterval: nat, w: Wait)
    requires requestTimeout > 0 && deadline > 0 && retryInterval > 0
    requires IsWait(endpoint, requestTimeout, deadline, retryInterval, w)
    ensures w.elapsed <= deadline && (!w.ready ==> w.elapsed == deadline)
    ensures 1 <= |w.starts| <= CeilDiv(deadline, retryInterval)
    ensures forall i | 0 <= i < |w.timeouts| :: 0 < w.timeouts[i] <= Min(requestTimeout, deadline)
    ensures forall i | 0 <= i < |w.starts| ::
      ProbeAt(endpoint, w.starts, w.timeouts, i).ready <==> w.ready && i == |w.starts| - 1
  {
    var last := |w.starts| - 1;
    StartsAreSpaced(endpoint, requestTimeout, deadline, retryInterval, w, last);
    AttemptsFit(last, retryInterval, deadline, w.starts[last]);
  }

  /** From some time on every answer is ready, and comes within `d`. */
  ghost predicate UpFrom(endpoint: Endpoint, time: nat, d: nat) {
    forall k, t | t >= time :: endpoint(k, t).ready && endpoint(k, t).duration <= d
  }

  /**
   An endpoint that comes up in time is found ready: answers within less than the request timeout, and
   one more probe with the sleep before it still fits into the deadline.
   */
  lemma {:induction false} EndpointUpIsFound(
      endpoint: Endpoint, requestTimeout: nat, deadline: nat, retryInterval: nat, w: Wait, time: nat, d: nat)
    requires IsWait(endpoint, requestTimeout, deadline, retryInterval, w) && UpFrom(endpoint, time, d)
    requires d < requestTimeout && time + requestTimeout + retryInterval + d < deadline
    ensures w.ready
  {
    var last := |w.starts| - 1;
    ReadyOrLate(endpoint, requestTimeout, deadline, retryInterval, w, time);
    if w.starts[last] >= time {
      LateProbeIsReady(endpoint, requestTimeout, deadline, retryInterval, w, time, d, last);
    }
  }

  /** A wait that gives up has probed after any time that leaves room for a probe and a sleep. */
  lemma {:induction false} ReadyOrLate(
      endpoint: Endpoint, requestTimeout: nat, deadline: nat, retryInterval: nat, w: Wait, time: nat)
    requires IsWait(endpoint, requestTimeout, deadline, retryInterval, w)
    requires time + requestTimeout + retryInterval < deadline
    ensures w.ready || w.starts[|w.starts| - 1] >= time
  {}

  /** The first probe from that time on comes soon enough to be answered. */
  lemma {:induction false} LateProbeIsReady(
      endpoint: Endpoint, requestTimeout: nat, deadline: nat, retryInterval: nat, w: Wait, time: nat, d: nat, i: nat)
    requires IsWait(endpoint, requestTimeout, deadline, retryInterval, w) && UpFrom(endpoint, time, d)
    requires d < requestTimeout && time + requestTimeout + retryInterval + d < deadline
    requires i < |w.starts| && w.starts[i] >= time
    ensures exists j :: 0 <= j < |w.starts| && ProbeAt(endpoint, w.starts, w.timeouts, j).ready
    decreases i
  {
    if i > 0 && w.starts[i - 1] >= time {
      LateProbeIsReady(endpoint, requestTimeout, deadline, retryInterval, w, time, d, i - 1);
    } else {
      assert w.starts[i] <= time + requestTimeout + retryInterval;
      assert ProbeAt(endpoint, w.starts, w.timeouts, i).ready;
    }
  }

  /** An attempt that starts before the deadline, after `attempts` full intervals, is within the bound. */
  lemma {:induction false} AttemptsFit(attempts: nat, interval: nat, deadline: nat, now: nat)
    requires interval > 0 && Intervals(attempts, interval) <= now < deadline
    ensures attempts + 1 <= CeilDiv(deadline, interval)
  {
    IntervalsMultiply(attempts, interval);
    var m, q := deadline + interval - 1, CeilDiv(deadline, interval);
    assert m == q * interval + m % interval;
    ProductsOrder(attempts, q, interval);
  }

  lemma {:induction false} ProductsOrder(a: nat, b: nat, c: nat)
    requires a * c < b * c
    ensures a < b
  {}
}
