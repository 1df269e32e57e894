// What the circuits guarantee over any history of attempts, and what one pass over the
// endpoints can and cannot do.
module Circuits {
  import opened Wrappers
  import Metric
  import Retry
  import opened Sender
  import WireCodec

  // ---------- The circuit in terms of the history alone ----------

  function FailuresSinceSuccess(h: seq<Attempt>, endpoint: string): nat {
    if h == [] then 0 else
    var before, last := FailuresSinceSuccess(h[..|h| - 1], endpoint), h[|h| - 1];
    if last.endpoint != endpoint then before
    else if last.verdict.Delivered? then 0
    else if last.verdict.Transient? then before + 1
    else before
  }

  // When the count of failures last reached a multiple of the threshold, since the last success.
  function LastCrossing(h: seq<Attempt>, limits: Limits, endpoint: string): Option<Metric.Time>
    requires limits.threshold >= 1
  {
    if h == [] then None else
    var last := h[|h| - 1];
    if last.endpoint == endpoint && last.verdict.Delivered? then None
    else if last.endpoint == endpoint && last.verdict.Transient? && FailuresSinceSuccess(h, endpoint) % limits.threshold == 0
      then Some(last.recordedAt)
    else LastCrossing(h[..|h| - 1], limits, endpoint)
  }

  lemma NextMultiple(n: nat, t: nat)
    requires t >= 1
    ensures (n + 1) % t == if n % t + 1 == t then 0 else n % t + 1
  {
    var q, r := n / t, n % t;
    assert n == q * t + r;
    if r + 1 == t {
      assert (q + 1) * t == q * t + t;
      Remainder(n + 1, q + 1, 0, t);
    } else {
      Remainder(n + 1, q, r + 1, t);
    }
  }

  lemma Remainder(n: nat, q: nat, r: nat, t: nat)
    requires r < t && n == q * t + r
    ensures n % t == r
  {
    var q0, r0 := n / t, n % t;
    assert n == q0 * t + r0;
    Factor(q, q0, t);
    if q > q0 { Grows(q - q0, t); }
    if q < q0 { Grows(q0 - q, t); Factor(q0, q, t); }
  }

  lemma Factor(x: int, y: int, t: int)
    ensures (x - y) * t == x * t - y * t
  {
  }

  lemma Grows(x: nat, t: nat)
    requires x >= 1
    ensures x * t >= t
  {
  }

  lemma {:induction false} FailuresAreHistory(h: seq<Attempt>, limits: Limits, endpoint: string)
    requires limits.threshold >= 1
    ensures CircuitOf(h, limits, endpoint).failures == FailuresSinceSuccess(h, endpoint) % limits.threshold
  {
    if h != [] {
      FailuresAreHistory(h[..|h| - 1], limits, endpoint);
      NextMultiple(FailuresSinceSuccess(h[..|h| - 1], endpoint), limits.threshold);
    }
  }

  // Failures is the count since the last success modulo the threshold, and the circuit stays
  // open for one cooldown after the last crossing.
  lemma {:induction false} CircuitIsHistory(h: seq<Attempt>, limits: Limits, endpoint: string)
    requires limits.threshold >= 1
    ensures CircuitOf(h, limits, endpoint).failures == FailuresSinceSuccess(h, endpoint) % limits.threshold
    ensures CircuitOf(h, limits, endpoint).openUntil
         == match LastCrossing(h, limits, endpoint)
            case None => None
            case Some(at) => Some(at + limits.cooldown)
  {
    FailuresAreHistory(h, limits, endpoint);
    if h != [] {
      CircuitIsHistory(h[..|h| - 1], limits, endpoint);
      NextMultiple(FailuresSinceSuccess(h[..|h| - 1], endpoint), limits.threshold);
    }
  }

  // ---------- Gating over time ----------

  ghost predicate RecordedBy(h: seq<Attempt>, at: Metric.Time) {
    h == [] || h[|h| - 1].recordedAt <= at
  }

  // Every attempt was made through a circuit that let it pass, and time never ran backwards.
  ghost predicate Gated(h: seq<Attempt>, limits: Limits) {
    h == [] ||
    var before, last := h[..|h| - 1], h[|h| - 1];
    && Gated(before, limits)
    && RecordedBy(before, last.checkedAt) && last.checkedAt <= last.recordedAt
    && Available(CircuitOf(before, limits, last.endpoint), last.checkedAt)
  }

  // What the recursive form says of every single attempt.
  lemma {:induction false} GatedAt(h: seq<Attempt>, limits: Limits, i: nat)
    requires Gated(h, limits) && i < |h|
    ensures h[i].checkedAt <= h[i].recordedAt <= h[|h| - 1].recordedAt
    ensures Available(CircuitOf(h[..i], limits, h[i].endpoint), h[i].checkedAt)
  {
    if i < |h| - 1 {
      GatedAt(h[..|h| - 1], limits, i);
      assert h[..|h| - 1][..i] == h[..i];
    }
  }

  // Transient failures of one endpoint recorded from a time on.
  function FailuresFrom(h: seq<Attempt>, endpoint: string, start: Metric.Time): nat {
    if h == [] then 0 else
    var last := h[|h| - 1];
    FailuresFrom(h[..|h| - 1], endpoint, start)
    + if last.endpoint == endpoint && last.verdict.Transient? && last.recordedAt >= start then 1 else 0
  }

  ghost predicate NoSuccessFrom(h: seq<Attempt>, endpoint: string, start: Metric.Time) {
    forall i :: 0 <= i < |h| && h[i].endpoint == endpoint && h[i].recordedAt >= start ==> !h[i].verdict.Delivered?
  }

  ghost predicate RecordedBefore(h: seq<Attempt>, end: Metric.Time) {
    forall i :: 0 <= i < |h| ==> h[i].recordedAt < end
  }

  lemma {:induction false} NoneFromLater(h: seq<Attempt>, endpoint: string, start: Metric.Time)
    requires RecordedBefore(h, start)
    ensures FailuresFrom(h, endpoint, start) == 0
  {
    if h != [] { NoneFromLater(h[..|h| - 1], endpoint, start); }
  }

  // Inside a window of one cooldown: either the circuit still counts every failure of the
  // window, or it has opened in the window and stays open past its end.
  predicate WindowOk(c: Circuit, n: nat, limits: Limits, start: Metric.Time) {
    || n <= c.failures < limits.threshold
    || (n <= limits.threshold && c.openUntil.Some? && c.openUntil.value >= start + limits.cooldown)
  }

  lemma WindowStep(c: Circuit, n: nat, limits: Limits, start: Metric.Time, a: Attempt)
    requires limits.threshold >= 1 && WindowOk(c, n, limits, start)
    requires Available(c, a.checkedAt) && a.checkedAt <= a.recordedAt
    requires start <= a.recordedAt < start + limits.cooldown
    ensures WindowOk(AfterFailure(c, limits, a.recordedAt), n + 1, limits, start)
  {
  }

  lemma {:induction false} WindowInvariant(h: seq<Attempt>, limits: Limits, endpoint: string, start: Metric.Time)
    requires limits.threshold >= 1 && Gated(h, limits)
    requires RecordedBefore(h, start + limits.cooldown) && NoSuccessFrom(h, endpoint, start)
    ensures WindowOk(CircuitOf(h, limits, endpoint), FailuresFrom(h, endpoint, start), limits, start)
  {
    if h != [] {
      var init, last := h[..|h| - 1], h[|h| - 1];
      assert RecordedBefore(init, start + limits.cooldown) && NoSuccessFrom(init, endpoint, start);
      WindowInvariant(init, limits, endpoint, start);
      if last.recordedAt < start {
        forall i | 0 <= i < |h| ensures h[i].recordedAt < start { GatedAt(h, limits, i); }
        NoneFromLater(h, endpoint, start);
        CircuitCountsBelowThreshold(h, limits, endpoint);
      } else if last.endpoint == endpoint && last.verdict.Transient? {
        WindowStep(CircuitOf(init, limits, endpoint), FailuresFrom(init, endpoint, start), limits, start, last);
      }
    }
  }

  lemma {:induction false} CircuitCountsBelowThreshold(h: seq<Attempt>, limits: Limits, endpoint: string)
    requires limits.threshold >= 1
    ensures CircuitOf(h, limits, endpoint).failures < limits.threshold
  {
    if h != [] { CircuitCountsBelowThreshold(h[..|h| - 1], limits, endpoint); }
  }

  // A failing endpoint is asked at most threshold times in any half-open window as long as the
  // cooldown that holds no success.
  lemma WindowBound(h: seq<Attempt>, limits: Limits, endpoint: string, start: Metric.Time)
    requires limits.threshold >= 1 && Gated(h, limits)
    requires RecordedBefore(h, start + limits.cooldown) && NoSuccessFrom(h, endpoint, start)
    ensures FailuresFrom(h, endpoint, start) <= limits.threshold
  {
    WindowInvariant(h, limits, endpoint, start);
  }

  // The window must be half-open: the moment a cooldown ends, the endpoint may be asked again.
  lemma CooldownEndIsOpen(limits: Limits, at: Metric.Time)
    requires limits.threshold == 1 && limits.cooldown > 0
    ensures !Available(AfterFailure(CLOSED, limits, at), at + limits.cooldown - 1)
    ensures Available(AfterFailure(CLOSED, limits, at), at + limits.cooldown)
  {
  }

  // ---------- One pass over the endpoints ----------

  ghost predicate ChronologicalFrom(h: seq<Attempt>, exchanges: seq<Exchange>, from: nat) {
    && (forall i :: from <= i < |exchanges| ==> exchanges[i].checkedAt <= exchanges[i].recordedAt)
    && (forall i, j :: from <= i < j < |exchanges| ==> exchanges[i].recordedAt <= exchanges[j].checkedAt)
    && (forall i :: from <= i < |exchanges| ==> RecordedBy(h, exchanges[i].checkedAt))
  }

  lemma GatedExtends(h: seq<Attempt>, limits: Limits, a: Attempt)
    requires Gated(h, limits) && RecordedBy(h, a.checkedAt) && a.checkedAt <= a.recordedAt
    requires Available(CircuitOf(h, limits, a.endpoint), a.checkedAt)
    ensures Gated(h + [a], limits)
  {
    assert (h + [a])[..|h|] == h;
  }

  lemma ChronologyAfter(h: seq<Attempt>, a: Attempt, exchanges: seq<Exchange>, i: nat)
    requires i < |exchanges| && ChronologicalFrom(h, exchanges, i)
    requires a.recordedAt == exchanges[i].recordedAt
    ensures ChronologicalFrom(h + [a], exchanges, i + 1)
  {
  }

  // Nothing is sent while a circuit is open: a pass keeps the history gated.
  lemma {:induction false} VisitKeepsGated(h: seq<Attempt>, limits: Limits, endpoints: seq<string>, payload: seq<WireCodec.Byte>,
                                           verdictOf: Exchange -> Verdict, exchanges: seq<Exchange>, i: nat)
    requires |exchanges| == |endpoints| && i <= |endpoints|
    requires Gated(h, limits) && ChronologicalFrom(h, exchanges, i)
    ensures Gated(Visit(h, limits, endpoints, payload, verdictOf, exchanges, i).0, limits)
    decreases |endpoints| - i
  {
    if i < |endpoints| {
      var x := exchanges[i];
      var a := Attempt(i, endpoints[i], payload, x.checkedAt, verdictOf(x), x.recordedAt);
      if !Available(CircuitOf(h, limits, endpoints[i]), x.checkedAt) {
        VisitKeepsGated(h, limits, endpoints, payload, verdictOf, exchanges, i + 1);
      } else if x.buildable {
        GatedExtends(h, limits, a);
        if !verdictOf(x).Transient? { return; }
        ChronologyAfter(h, a, exchanges, i);
        VisitKeepsGated(h + [a], limits, endpoints, payload, verdictOf, exchanges, i + 1);
      }
    }
  }

  // Endpoint k was passed over: its circuit was open, or it failed transiently in this pass.
  ghost predicate PassedOver(h: seq<Attempt>, h': seq<Attempt>, limits: Limits, endpoints: seq<string>,
                             exchanges: seq<Exchange>, k: nat)
    requires |exchanges| == |endpoints| && k < |endpoints| && |h| <= |h'|
  {
    || (exists n :: |h| <= n <= |h'| && !Available(CircuitOf(h'[..n], limits, endpoints[k]), exchanges[k].checkedAt))
    || (exists n :: |h| <= n < |h'| && h'[n].slot == k && h'[n].verdict.Transient?)
  }

  // A pass makes at most one attempt per endpoint, in order, all with the same payload, and
  // goes on only after transient failures; an endpoint is reached only when every earlier one
  // was open or failed transiently; a success or a final error is the last attempt.
  ghost predicate ProperPass(h: seq<Attempt>, h': seq<Attempt>, o: Outcome, limits: Limits, endpoints: seq<string>,
                             payload: seq<WireCodec.Byte>, exchanges: seq<Exchange>, from: nat)
    requires |exchanges| == |endpoints|
  {
    && h <= h'
    && |h'| - |h| <= |endpoints| - from
    && (forall n :: |h| <= n < |h'| ==>
          && from <= h'[n].slot < |endpoints| && h'[n].endpoint == endpoints[h'[n].slot]
          && h'[n].payload == payload)
    && (forall n, m :: |h| <= n < m < |h'| ==> h'[n].slot < h'[m].slot)
    && (forall n :: |h| <= n < |h'| - 1 ==> h'[n].verdict.Transient?)
    && (forall n, k :: |h| <= n < |h'| && from <= k < h'[n].slot ==> PassedOver(h, h', limits, endpoints, exchanges, k))
    && (o.Success? <==> |h'| > |h| && h'[|h'| - 1].verdict.Delivered?)
    && (|h'| > |h| && h'[|h'| - 1].verdict.Rejected? ==> o == Final(Some(h'[|h'| - 1].verdict.code)))
    && (o.Exhausted? ==>
          && (|h'| > |h| ==> h'[|h'| - 1].verdict.Transient?)
          && forall k :: from <= k < |endpoints| ==> PassedOver(h, h', limits, endpoints, exchanges, k))
  }

  lemma PassedOverGrows(h: seq<Attempt>, g: seq<Attempt>, h': seq<Attempt>, limits: Limits, endpoints: seq<string>,
                        exchanges: seq<Exchange>, k: nat)
    requires |exchanges| == |endpoints| && k < |endpoints| && h <= g <= h'
    requires PassedOver(g, h', limits, endpoints, exchanges, k) || PassedOver(h, g, limits, endpoints, exchanges, k)
    ensures PassedOver(h, h', limits, endpoints, exchanges, k)
  {
    assert forall n :: 0 <= n <= |g| ==> h'[..n] == g[..n];
    assert forall n :: 0 <= n < |g| ==> h'[n] == g[n];
  }

  lemma SkipIsProper(h: seq<Attempt>, h': seq<Attempt>, o: Outcome, limits: Limits, endpoints: seq<string>,
                     payload: seq<WireCodec.Byte>, exchanges: seq<Exchange>, i: nat)
    requires |exchanges| == |endpoints| && i < |endpoints|
    requires !Available(CircuitOf(h, limits, endpoints[i]), exchanges[i].checkedAt)
    requires ProperPass(h, h', o, limits, endpoints, payload, exchanges, i + 1)
    ensures ProperPass(h, h', o, limits, endpoints, payload, exchanges, i)
  {
    assert h'[..|h|] == h;
    assert PassedOver(h, h', limits, endpoints, exchanges, i);
  }

  lemma AttemptIsProper(h: seq<Attempt>, a: Attempt, h': seq<Attempt>, o: Outcome, limits: Limits, endpoints: seq<string>,
                        payload: seq<WireCodec.Byte>, exchanges: seq<Exchange>, i: nat)
    requires |exchanges| == |endpoints| && i < |endpoints|
    requires a.slot == i && a.endpoint == endpoints[i] && a.payload == payload && a.verdict.Transient?
    requires ProperPass(h + [a], h', o, limits, endpoints, payload, exchanges, i + 1)
    ensures ProperPass(h, h', o, limits, endpoints, payload, exchanges, i)
  {
    assert h'[|h|] == a;
    assert h <= h';
    assert PassedOver(h, h', limits, endpoints, exchanges, i);
    forall k | i < k < |endpoints| && PassedOver(h + [a], h', limits, endpoints, exchanges, k)
      ensures PassedOver(h, h', limits, endpoints, exchanges, k)
    {
      PassedOverGrows(h, h + [a], h', limits, endpoints, exchanges, k);
    }
  }

  lemma {:induction false} VisitIsProper(h: seq<Attempt>, limits: Limits, endpoints: seq<string>, payload: seq<WireCodec.Byte>,
                                         verdictOf: Exchange -> Verdict, exchanges: seq<Exchange>, i: nat)
    requires |exchanges| == |endpoints| && i <= |endpoints|
    ensures var (h', o) := Visit(h, limits, endpoints, payload, verdictOf, exchanges, i);
            ProperPass(h, h', o, limits, endpoints, payload, exchanges, i)
    decreases |endpoints| - i
  {
    if i < |endpoints| {
      var x := exchanges[i];
      var (h', o) := Visit(h, limits, endpoints, payload, verdictOf, exchanges, i);
      if !Available(CircuitOf(h, limits, endpoints[i]), x.checkedAt) {
        VisitIsProper(h, limits, endpoints, payload, verdictOf, exchanges, i + 1);
        SkipIsProper(h, h', o, limits, endpoints, payload, exchanges, i);
      } else if x.buildable && verdictOf(x).Transient? {
        var a := Attempt(i, endpoints[i], payload, x.checkedAt, verdictOf(x), x.recordedAt);
        VisitIsProper(h + [a], limits, endpoints, payload, verdictOf, exchanges, i + 1);
        AttemptIsProper(h, a, h', o, limits, endpoints, payload, exchanges, i);
      }
    }
  }

  // ---------- A pass through available circuits ----------

  ghost predicate AllAsked(h: seq<Attempt>, limits: Limits, endpoints: seq<string>, exchanges: seq<Exchange>, from: nat)
    requires |exchanges| == |endpoints|
  {
    && (forall k :: from <= k < |endpoints| ==>
          exchanges[k].buildable && Available(CircuitOf(h, limits, endpoints[k]), exchanges[k].checkedAt))
    && (forall k, l :: from <= k < l < |endpoints| ==> endpoints[k] != endpoints[l])
  }

  function AttemptAt(endpoints: seq<string>, payload: seq<WireCodec.Byte>, verdictOf: Exchange -> Verdict,
                     exchanges: seq<Exchange>, k: nat): Attempt
    requires k < |exchanges| == |endpoints|
  {
    Attempt(k, endpoints[k], payload, exchanges[k].checkedAt, verdictOf(exchanges[k]), exchanges[k].recordedAt)
  }

  // Endpoint d is the first from the given one on that does not fail transiently, if any.
  ghost predicate Decides(verdictOf: Exchange -> Verdict, exchanges: seq<Exchange>, from: nat, d: nat) {
    && from <= d <= |exchanges|
    && (forall k :: from <= k < d ==> verdictOf(exchanges[k]).Transient?)
    && (d < |exchanges| ==> !verdictOf(exchanges[d]).Transient?)
  }

  lemma OthersStayAsked(h: seq<Attempt>, a: Attempt, limits: Limits, endpoints: seq<string>, exchanges: seq<Exchange>, i: nat)
    requires |exchanges| == |endpoints| && i < |endpoints| && a.endpoint == endpoints[i]
    requires AllAsked(h, limits, endpoints, exchanges, i)
    ensures AllAsked(h + [a], limits, endpoints, exchanges, i + 1)
  {
    assert (h + [a])[..|h + [a]| - 1] == h;
  }

  lemma {:induction false} AskedInTurn(h: seq<Attempt>, limits: Limits, endpoints: seq<string>, payload: seq<WireCodec.Byte>,
                                       verdictOf: Exchange -> Verdict, exchanges: seq<Exchange>, i: nat, d: nat)
    requires |exchanges| == |endpoints| && i <= |endpoints| && AllAsked(h, limits, endpoints, exchanges, i)
    requires Decides(verdictOf, exchanges, i, d)
    ensures var (h', o) := Visit(h, limits, endpoints, payload, verdictOf, exchanges, i);
            && |h'| == |h| - i + (if d < |endpoints| then d + 1 else d) && h <= h'
            && (forall k :: |h| <= k < |h'| ==> h'[k] == AttemptAt(endpoints, payload, verdictOf, exchanges, i + k - |h|))
            && o == if d == |endpoints| then Exhausted
                    else match verdictOf(exchanges[d])
                         case Delivered => Success
                         case Rejected(code) => Final(Some(code))
                         case Transient => Exhausted
    decreases |endpoints| - i
  {
    if i < d {
      var a := AttemptAt(endpoints, payload, verdictOf, exchanges, i);
      OthersStayAsked(h, a, limits, endpoints, exchanges, i);
      AskedInTurn(h + [a], limits, endpoints, payload, verdictOf, exchanges, i + 1, d);
    }
  }

  // When no circuit is in the way, the first endpoint with a definite answer decides the pass
  // and is the last one asked; without one all are asked and the pass can be repeated.
  lemma FirstDefiniteAnswerDecides(h: seq<Attempt>, limits: Limits, endpoints: seq<string>, payload: seq<WireCodec.Byte>,
                                   verdictOf: Exchange -> Verdict, exchanges: seq<Exchange>, d: nat)
    requires |exchanges| == |endpoints| && AllAsked(h, limits, endpoints, exchanges, 0)
    requires Decides(verdictOf, exchanges, 0, d)
    ensures var (h', o) := Visit(h, limits, endpoints, payload, verdictOf, exchanges, 0);
            && |h'| == |h| + (if d < |endpoints| then d + 1 else d) && h <= h'
            && (forall k :: |h| <= k < |h'| ==> h'[k] == AttemptAt(endpoints, payload, verdictOf, exchanges, k - |h|))
            && OutcomeResult(o) == if d == |endpoints| then Err(Retry.DeliveryError(true, None))
                                   else if verdictOf(exchanges[d]).Delivered? then Ok(())
                                   else Err(Retry.DeliveryError(false, Some(verdictOf(exchanges[d]).code)))
  {
    AskedInTurn(h, limits, endpoints, payload, verdictOf, exchanges, 0, d);
  }
}
