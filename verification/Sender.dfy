// Delivery to an ordered list of replicas, each behind a circuit that opens for a cooldown
// after a threshold of transient failures. Send and the credential preflight share circuits.
module Sender {
  import opened Wrappers
  import Metric
  import Envelopes
  import WireCodec
  import Retry

  const DEFAULT_FAILURE_THRESHOLD: int := 3
  const DEFAULT_COOLDOWN: int := 30 * Metric.SECOND

  // openUntil is None where the source holds the zero time.
  datatype Circuit = Circuit(failures: nat, openUntil: Option<Metric.Time>)

  const CLOSED: Circuit := Circuit(0, None)

  datatype Limits = Limits(threshold: nat, cooldown: int)

  predicate Available(c: Circuit, at: Metric.Time) {
    c.openUntil.None? || at >= c.openUntil.value
  }

  function AfterFailure(c: Circuit, limits: Limits, at: Metric.Time): Circuit {
    if c.failures + 1 >= limits.threshold then Circuit(0, Some(at + limits.cooldown))
    else c.(failures := c.failures + 1)
  }

  // ---------- Replies ----------

  datatype Reply = TransportError | Status(code: int)

  datatype Verdict = Delivered | Rejected(code: int) | Transient

  predicate ClientError(code: int) {
    400 <= code < 500 && code != 429
  }

  // What happens at one endpoint if it is asked; authenticated says whether the body carries a
  // complete authenticated identity, which only the preflight looks at.
  datatype Exchange = Exchange(
    checkedAt: Metric.Time,
    buildable: bool,
    reply: Reply,
    authenticated: bool,
    recordedAt: Metric.Time)

  function SendVerdict(x: Exchange): Verdict {
    match x.reply
    case TransportError => Transient
    case Status(code) =>
      if 200 <= code < 300 then Delivered
      else if ClientError(code) then Rejected(code)
      else Transient
  }

  function PreflightVerdict(x: Exchange): Verdict {
    match x.reply
    case TransportError => Transient
    case Status(code) =>
      if code == 200 && x.authenticated then Delivered
      else if ClientError(code) then Rejected(code)
      else Transient
  }

  // ---------- The specification: a history of attempts ----------

  // slot is the endpoint's place in the list. The circuit is consulted at checkedAt; the
  // verdict is recorded at recordedAt.
  datatype Attempt = Attempt(
    slot: nat,
    endpoint: string,
    payload: seq<WireCodec.Byte>,
    checkedAt: Metric.Time,
    verdict: Verdict,
    recordedAt: Metric.Time)

  // The circuit of an endpoint is a function of its history.
  function CircuitOf(h: seq<Attempt>, limits: Limits, endpoint: string): Circuit {
    if h == [] then CLOSED else
    var before, last := CircuitOf(h[..|h| - 1], limits, endpoint), h[|h| - 1];
    if last.endpoint != endpoint then before else
    match last.verdict
    case Delivered => CLOSED
    case Rejected(_) => before
    case Transient => AfterFailure(before, limits, last.recordedAt)
  }

  datatype Outcome = Success | Final(statusCode: Option<int>) | Exhausted

  // Visits the endpoints in order from place i on.
  function Visit(h: seq<Attempt>, limits: Limits, endpoints: seq<string>, payload: seq<WireCodec.Byte>,
                 verdictOf: Exchange -> Verdict, exchanges: seq<Exchange>, i: nat): (seq<Attempt>, Outcome)
    requires |exchanges| == |endpoints| && i <= |endpoints|
    decreases |endpoints| - i
  {
    if i == |endpoints| then (h, Exhausted) else
    var x := exchanges[i];
    if !Available(CircuitOf(h, limits, endpoints[i]), x.checkedAt) then
      Visit(h, limits, endpoints, payload, verdictOf, exchanges, i + 1)
    else if !x.buildable then (h, Final(None)) else
    var h' := h + [Attempt(i, endpoints[i], payload, x.checkedAt, verdictOf(x), x.recordedAt)];
    match verdictOf(x)
    case Delivered => (h', Success)
    case Rejected(code) => (h', Final(Some(code)))
    case Transient => Visit(h', limits, endpoints, payload, verdictOf, exchanges, i + 1)
  }

  function OutcomeResult(o: Outcome): Result<(), Retry.SendError> {
    match o
    case Success => Ok(())
    case Final(code) => Err(Retry.DeliveryError(false, code))
    case Exhausted => Err(Retry.DeliveryError(true, None))
  }

  // ---------- Replies and passes in plain terms ----------

  // A post is delivered by a 2xx status, rejected for good by a 4xx status other than 429, and
  // worth another try in every other case: no reply, a redirect, 429, 5xx.
  lemma PostVerdicts(x: Exchange)
    ensures SendVerdict(x).Delivered? <==> x.reply.Status? && x.reply.code / 100 == 2
    ensures SendVerdict(x).Rejected? <==> x.reply.Status? && x.reply.code / 100 == 4 && x.reply.code != 429
    ensures SendVerdict(x).Rejected? ==> SendVerdict(x).code == x.reply.code
    ensures x.reply in {TransportError, Status(302), Status(429), Status(500), Status(502), Status(503), Status(504)} ==>
              SendVerdict(x).Transient?
  {
  }

  // A preflight succeeds by 200 with a complete identity alone; what else is no error of the
  // client is worth another try, a 200 without an identity too.
  lemma PreflightVerdicts(x: Exchange)
    ensures PreflightVerdict(x).Delivered? <==> x.reply == Status(200) && x.authenticated
    ensures PreflightVerdict(x).Rejected? <==> x.reply.Status? && x.reply.code / 100 == 4 && x.reply.code != 429
    ensures PreflightVerdict(x).Rejected? ==> PreflightVerdict(x).code == x.reply.code
    ensures x.reply == Status(200) && !x.authenticated ==> PreflightVerdict(x).Transient?
  {
  }

  // ---------- The sender ----------

  class Sender {
    const endpoints: seq<string>
    const failureThreshold: int
    const cooldown: int
    var circuits: map<string, Circuit>
    ghost var history: seq<Attempt>

    constructor (endpoints: seq<string>, failureThreshold: int, cooldown: int)
      ensures Valid() && history == []
      ensures this.endpoints == endpoints && this.failureThreshold == failureThreshold && this.cooldown == cooldown
    {
      this.endpoints, this.failureThreshold, this.cooldown := endpoints, failureThreshold, cooldown;
      circuits, history := map[], [];
    }

    function CurrentLimits(): (l: Limits)
      ensures l.threshold >= 1 && l.cooldown >= 1
    {
      Limits(if failureThreshold > 0 then failureThreshold else DEFAULT_FAILURE_THRESHOLD,
                    if cooldown > 0 then cooldown else DEFAULT_COOLDOWN)
    }

    // Without settings a circuit opens after three failures, for 30 seconds.
    lemma LimitsInForce()
      ensures CurrentLimits() == Limits(if failureThreshold >= 1 then failureThreshold else 3,
                                        if cooldown >= 1 then cooldown else 30_000_000_000)
    {
    }

    function CircuitAt(endpoint: string): Circuit
      reads this
    {
      if endpoint in circuits then circuits[endpoint] else CLOSED
    }

    ghost predicate Valid()
      reads this
    {
      forall endpoint :: CircuitAt(endpoint) == CircuitOf(history, CurrentLimits(), endpoint)
    }

    method RecordTransientFailure(endpoint: string, at: Metric.Time)
      modifies this`circuits
      ensures CircuitAt(endpoint) == AfterFailure(old(CircuitAt(endpoint)), CurrentLimits(), at)
      ensures forall other :: other != endpoint ==> CircuitAt(other) == old(CircuitAt(other))
    {
      var state := CircuitAt(endpoint);
      state := state.(failures := state.failures + 1);
      if state.failures >= CurrentLimits().threshold {
        state := Circuit(0, Some(at + CurrentLimits().cooldown));
      }
      circuits := circuits[endpoint := state];
    }

    method RecordSuccess(endpoint: string)
      modifies this`circuits
      ensures CircuitAt(endpoint) == CLOSED
      ensures forall other :: other != endpoint ==> CircuitAt(other) == old(CircuitAt(other))
    {
      circuits := circuits[endpoint := CLOSED];
    }

    // One pass over the endpoints, as Send and Preflight make it.
    method Deliver(payload: seq<WireCodec.Byte>, verdictOf: Exchange -> Verdict, exchanges: seq<Exchange>) returns (o: Outcome)
      requires Valid() && |exchanges| == |endpoints|
      modifies this
      ensures Valid()
      ensures (history, o) == Visit(old(history), CurrentLimits(), endpoints, payload, verdictOf, exchanges, 0)
    {
      for i := 0 to |endpoints|
        invariant Valid()
        invariant Visit(history, CurrentLimits(), endpoints, payload, verdictOf, exchanges, i)
               == Visit(old(history), CurrentLimits(), endpoints, payload, verdictOf, exchanges, 0)
      {
        var x, endpoint := exchanges[i], endpoints[i];
        if !Available(CircuitAt(endpoint), x.checkedAt) { continue; }
        if !x.buildable { return Final(None); }
        var verdict := verdictOf(x);
        ghost var attempt := Attempt(i, endpoint, payload, x.checkedAt, verdict, x.recordedAt);
        assert (history + [attempt])[..|history + [attempt]| - 1] == history;
        history := history + [attempt];
        match verdict {
          case Delivered =>
            RecordSuccess(endpoint);
            return Success;
          case Rejected(code) =>
            return Final(Some(code));
          case Transient =>
            RecordTransientFailure(endpoint, x.recordedAt);
        }
      }
      o := Exhausted;
    }

    method Send(p: WireCodec.Primitives, e: Envelopes.Envelope, exchanges: seq<Exchange>) returns (r: Result<(), Retry.SendError>)
      requires Valid() && |exchanges| == |endpoints|
      modifies this
      ensures Valid()
      ensures WireCodec.Encode(p, e).Err? ==> r == Err(Retry.DeliveryError(false, None)) && history == old(history)
      ensures WireCodec.Encode(p, e).Ok? ==>
                var visit := Visit(old(history), CurrentLimits(), endpoints, WireCodec.Encode(p, e).value, SendVerdict, exchanges, 0);
                history == visit.0 && r == OutcomeResult(visit.1)
    {
      var payload := WireCodec.EncodeCompressedEnvelope(p, e);
      if payload.Err? { return Err(Retry.DeliveryError(false, None)); }
      var o := Deliver(payload.value, SendVerdict, exchanges);
      r := OutcomeResult(o);
    }

    // The preflight sends no payload.
    method Preflight(exchanges: seq<Exchange>) returns (r: Result<(), Retry.SendError>)
      requires Valid() && |exchanges| == |endpoints|
      modifies this
      ensures Valid()
      ensures var visit := Visit(old(history), CurrentLimits(), endpoints, [], PreflightVerdict, exchanges, 0);
              history == visit.0 && r == OutcomeResult(visit.1)
    {
      var o := Deliver([], PreflightVerdict, exchanges);
      r := OutcomeResult(o);
    }
  }
}
