// One collection cycle of the agent: gather the readings, draw one stamp, build one envelope
// and deliver it with a bounded number of attempts and sleeps.
module Runner {
  import opened Wrappers
  import Metric
  import opened Envelopes
  import Keys = IdempotencyKeys
  import opened WireCodec
  import opened Retry
  import opened Sender
  import Circuits
  import SequenceStore

  // What one attempt meets, and the sleep after it.
  datatype Try = Try(exchanges: seq<Exchange>, draw: real, interrupted: bool)

  datatype DeliveryRun = DeliveryRun(history: seq<Attempt>, result: Result<(), SendError>, sleeps: seq<int>)

  predicate Fits(tries: seq<Try>, policy: RetryPolicy, endpoints: seq<string>) {
    && |tries| == policy.maxAttempts
    && forall k :: 0 <= k < |tries| ==> |tries[k].exchanges| == |endpoints| && 0.0 <= tries[k].draw <= 1.0
  }

  // ---------- The specification of the retry loop ----------

  function OnePass(h: seq<Attempt>, limits: Limits, endpoints: seq<string>, payload: seq<Byte>, try: Try): (seq<Attempt>, Outcome)
    requires |try.exchanges| == |endpoints|
  {
    Visit(h, limits, endpoints, payload, SendVerdict, try.exchanges, 0)
  }

  function Retried(h: seq<Attempt>, limits: Limits, endpoints: seq<string>, payload: seq<Byte>,
                   policy: RetryPolicy, tries: seq<Try>, attempt: nat): DeliveryRun
    requires policy.Valid() && Fits(tries, policy, endpoints) && attempt < policy.maxAttempts
    decreases policy.maxAttempts - attempt
  {
    var (h', o) := OnePass(h, limits, endpoints, payload, tries[attempt]);
    if !o.Exhausted? || attempt == policy.maxAttempts - 1 then DeliveryRun(h', OutcomeResult(o), []) else
    var nap := Delay(policy, attempt, tries[attempt].draw);
    if tries[attempt].interrupted then DeliveryRun(h', Err(OtherError), [nap]) else
    After([nap], Retried(h', limits, endpoints, payload, policy, tries, attempt + 1))
  }

  function After(sleeps: seq<int>, d: DeliveryRun): DeliveryRun {
    d.(sleeps := sleeps + d.sleeps)
  }

  type Encoded = Result<seq<Byte>, EncodeError>

  function SendRun(encoded: Encoded, h: seq<Attempt>, limits: Limits, endpoints: seq<string>,
                   policy: RetryPolicy, tries: seq<Try>): DeliveryRun
    requires policy.Valid() && Fits(tries, policy, endpoints)
  {
    match encoded
    case Err(_) => DeliveryRun(h, Err(DeliveryError(false, None)), [])
    case Ok(payload) => Retried(h, limits, endpoints, payload, policy, tries, 0)
  }

  // The loop's state before an attempt: what is still to come completes the whole delivery.
  ghost predicate OnTrack(encoded: Encoded, h0: seq<Attempt>, h: seq<Attempt>, sleeps: seq<int>, limits: Limits,
                          endpoints: seq<string>, policy: RetryPolicy, tries: seq<Try>, attempt: nat)
    requires policy.Valid() && Fits(tries, policy, endpoints)
  {
    if encoded.Err? then attempt == 0 && h == h0 && sleeps == []
    else attempt < policy.maxAttempts
         && After(sleeps, Retried(h, limits, endpoints, encoded.value, policy, tries, attempt))
            == SendRun(encoded, h0, limits, endpoints, policy, tries)
  }

  lemma NextOnTrack(encoded: Encoded, h0: seq<Attempt>, h: seq<Attempt>, sleeps: seq<int>, limits: Limits,
                    endpoints: seq<string>, policy: RetryPolicy, tries: seq<Try>, attempt: nat)
    requires policy.Valid() && Fits(tries, policy, endpoints) && attempt < policy.maxAttempts
    requires OnTrack(encoded, h0, h, sleeps, limits, endpoints, policy, tries, attempt) && encoded.Ok?
    ensures var (h', o) := OnePass(h, limits, endpoints, encoded.value, tries[attempt]);
            var nap := Delay(policy, attempt, tries[attempt].draw);
            if !o.Exhausted? || attempt == policy.maxAttempts - 1
            then SendRun(encoded, h0, limits, endpoints, policy, tries) == DeliveryRun(h', OutcomeResult(o), sleeps)
            else if tries[attempt].interrupted
            then SendRun(encoded, h0, limits, endpoints, policy, tries) == DeliveryRun(h', Err(OtherError), sleeps + [nap])
            else OnTrack(encoded, h0, h', sleeps + [nap], limits, endpoints, policy, tries, attempt + 1)
  {
    var (h', o) := OnePass(h, limits, endpoints, encoded.value, tries[attempt]);
    if o.Exhausted? && attempt < policy.maxAttempts - 1 && !tries[attempt].interrupted {
      var nap := Delay(policy, attempt, tries[attempt].draw);
      var rest := Retried(h', limits, endpoints, encoded.value, policy, tries, attempt + 1);
      assert sleeps + ([nap] + rest.sleeps) == sleeps + [nap] + rest.sleeps;
    }
  }

  // ---------- What a whole delivery can and cannot do ----------

  // All attempts of one delivery carry one payload, every attempt but the last has failed
  // transiently, and the result is told by the last one.
  ghost predicate ProperDelivery(h: seq<Attempt>, d: DeliveryRun, endpoints: seq<string>, payload: seq<Byte>) {
    && h <= d.history
    && (forall n :: |h| <= n < |d.history| ==>
          && d.history[n].payload == payload
          && d.history[n].slot < |endpoints| && d.history[n].endpoint == endpoints[d.history[n].slot])
    && (forall n :: |h| <= n < |d.history| - 1 ==> d.history[n].verdict.Transient?)
    && (d.result.Ok? <==> |d.history| > |h| && d.history[|d.history| - 1].verdict.Delivered?)
    && (|d.history| > |h| && d.history[|d.history| - 1].verdict.Rejected? ==>
          d.result == Err(DeliveryError(false, Some(d.history[|d.history| - 1].verdict.code))))
  }

  lemma AfterPass(h: seq<Attempt>, h': seq<Attempt>, o: Outcome, d: DeliveryRun, limits: Limits, endpoints: seq<string>,
                  payload: seq<Byte>, exchanges: seq<Exchange>, nap: int)
    requires |exchanges| == |endpoints|
    requires Circuits.ProperPass(h, h', o, limits, endpoints, payload, exchanges, 0) && o.Exhausted?
    requires ProperDelivery(h', d, endpoints, payload)
    ensures ProperDelivery(h, After([nap], d), endpoints, payload)
  {
    assert forall n :: 0 <= n < |h'| ==> d.history[n] == h'[n];
  }

  lemma {:induction false} RetriedIsProper(h: seq<Attempt>, limits: Limits, endpoints: seq<string>, payload: seq<Byte>,
                                           policy: RetryPolicy, tries: seq<Try>, attempt: nat)
    requires policy.Valid() && Fits(tries, policy, endpoints) && attempt < policy.maxAttempts
    ensures ProperDelivery(h, Retried(h, limits, endpoints, payload, policy, tries, attempt), endpoints, payload)
    decreases policy.maxAttempts - attempt
  {
    var try := tries[attempt];
    var (h', o) := OnePass(h, limits, endpoints, payload, try);
    Circuits.VisitIsProper(h, limits, endpoints, payload, SendVerdict, try.exchanges, 0);
    if o.Exhausted? && attempt < policy.maxAttempts - 1 && !try.interrupted {
      RetriedIsProper(h', limits, endpoints, payload, policy, tries, attempt + 1);
      AfterPass(h, h', o, Retried(h', limits, endpoints, payload, policy, tries, attempt + 1),
                limits, endpoints, payload, try.exchanges, Delay(policy, attempt, try.draw));
    }
  }

  // Sleep n follows the policy, and only the last one of an interrupted delivery is cut short.
  predicate Slept(d: DeliveryRun, policy: RetryPolicy, tries: seq<Try>, attempt: nat, n: nat) {
    && n < |d.sleeps| && attempt + n < |tries|
    && d.sleeps[n] == Delay(policy, attempt + n, tries[attempt + n].draw)
    && (tries[attempt + n].interrupted <==> n == |d.sleeps| - 1 && d.result == Err(OtherError))
  }

  // A delivery goes on while it may: it sleeps after every exhausted pass, reports exhaustion
  // only when all attempts are used, and any error that is neither that nor a final answer only
  // when a sleep was interrupted.
  ghost predicate GoesOn(d: DeliveryRun, policy: RetryPolicy, tries: seq<Try>, attempt: nat) {
    && (forall n :: 0 <= n < |d.sleeps| ==> Slept(d, policy, tries, attempt, n))
    && (d.result == Err(OtherError) ==> d.sleeps != [])
    && (d.result.Err? && IsRetryable(d.result.error) ==>
          d.result.error.statusCode.None? && attempt + |d.sleeps| == policy.maxAttempts - 1)
  }

  lemma GoesOnAfter(d: DeliveryRun, policy: RetryPolicy, tries: seq<Try>, attempt: nat)
    requires attempt < |tries| && GoesOn(d, policy, tries, attempt + 1) && !tries[attempt].interrupted
    ensures GoesOn(After([Delay(policy, attempt, tries[attempt].draw)], d), policy, tries, attempt)
  {
    var after := After([Delay(policy, attempt, tries[attempt].draw)], d);
    forall n | 0 <= n < |after.sleeps| ensures Slept(after, policy, tries, attempt, n) {
      if n > 0 { assert Slept(d, policy, tries, attempt + 1, n - 1); }
    }
  }

  lemma {:induction false} RetriedGoesOn(h: seq<Attempt>, limits: Limits, endpoints: seq<string>, payload: seq<Byte>,
                                         policy: RetryPolicy, tries: seq<Try>, attempt: nat)
    requires policy.Valid() && Fits(tries, policy, endpoints) && attempt < policy.maxAttempts
    ensures GoesOn(Retried(h, limits, endpoints, payload, policy, tries, attempt), policy, tries, attempt)
    decreases policy.maxAttempts - attempt
  {
    var (h', o) := OnePass(h, limits, endpoints, payload, tries[attempt]);
    if o.Exhausted? && attempt < policy.maxAttempts - 1 && !tries[attempt].interrupted {
      RetriedGoesOn(h', limits, endpoints, payload, policy, tries, attempt + 1);
      GoesOnAfter(Retried(h', limits, endpoints, payload, policy, tries, attempt + 1), policy, tries, attempt);
    }
  }

  // A success is told by the last attempt, which carried the payload.
  lemma SuccessIsTheLastAttempt(encoded: Encoded, h: seq<Attempt>, limits: Limits, endpoints: seq<string>,
                                policy: RetryPolicy, tries: seq<Try>)
    requires policy.Valid() && Fits(tries, policy, endpoints)
    requires SendRun(encoded, h, limits, endpoints, policy, tries).result.Ok?
    ensures var d := SendRun(encoded, h, limits, endpoints, policy, tries);
            && encoded.Ok? && |d.history| > |h|
            && d.history[|d.history| - 1].verdict.Delivered? && d.history[|d.history| - 1].payload == encoded.value
  {
    RetriedIsProper(h, limits, endpoints, encoded.value, policy, tries, 0);
  }

  function Total(sleeps: seq<int>): int {
    if sleeps == [] then 0 else sleeps[0] + Total(sleeps[1..])
  }

  // The longest one sleep can take.
  function Longest(policy: RetryPolicy, n: nat): real {
    Scaled(Base(policy, n), 1.0 + policy.jitterFraction)
  }

  lemma LongestBounds(policy: RetryPolicy, n: nat)
    requires policy.Valid()
    ensures 0.0 <= Longest(policy, n) <= MaxDelay(policy)
  {
    BaseBounds(policy, n);
    ScaledGrows(Base(policy, n), 0.0, 1.0 + policy.jitterFraction);
    ScaledGrows(1.0 + policy.jitterFraction, Base(policy, n), policy.maxBackoff as real);
  }

  // The longest that sleeps number n and on can take together.
  function SleepBudget(policy: RetryPolicy, n: nat): (budget: real)
    requires policy.Valid()
    ensures budget >= 0.0
    decreases policy.maxAttempts - n
  {
    if n >= policy.maxAttempts - 1 then 0.0 else
      LongestBounds(policy, n);
      Longest(policy, n) + SleepBudget(policy, n + 1)
  }

  function Times(n: nat, x: real): real {
    if n == 0 then 0.0 else x + Times(n - 1, x)
  }

  lemma {:induction false} SleepBudgetIsCapped(policy: RetryPolicy, n: nat)
    requires policy.Valid() && n < policy.maxAttempts
    ensures SleepBudget(policy, n) <= Times(policy.maxAttempts - 1 - n, MaxDelay(policy))
    decreases policy.maxAttempts - n
  {
    if n < policy.maxAttempts - 1 {
      LongestBounds(policy, n);
      SleepBudgetIsCapped(policy, n + 1);
    }
  }

  function PostsOf(passes: nat, endpoints: nat): nat {
    passes * endpoints
  }

  lemma OneMorePass(passes: nat, endpoints: nat)
    ensures PostsOf(passes + 1, endpoints) == PostsOf(passes, endpoints) + endpoints >= endpoints
  {
  }

  lemma TotalOfPrefixed(nap: int, sleeps: seq<int>)
    ensures Total([nap] + sleeps) == nap + Total(sleeps)
  {
    assert ([nap] + sleeps)[1..] == sleeps;
  }

  // One delivery makes at most one post per endpoint and attempt, and sleeps only between
  // attempts.
  lemma {:induction false} RetriedIsBounded(h: seq<Attempt>, limits: Limits, endpoints: seq<string>, payload: seq<Byte>,
                                            policy: RetryPolicy, tries: seq<Try>, attempt: nat)
    requires policy.Valid() && Fits(tries, policy, endpoints) && attempt < policy.maxAttempts
    ensures var d := Retried(h, limits, endpoints, payload, policy, tries, attempt);
            && |h| <= |d.history| <= |h| + PostsOf(policy.maxAttempts - attempt, |endpoints|)
            && |d.sleeps| <= policy.maxAttempts - 1 - attempt
            && Total(d.sleeps) as real <= SleepBudget(policy, attempt)
    decreases policy.maxAttempts - attempt
  {
    var try := tries[attempt];
    var (h', o) := OnePass(h, limits, endpoints, payload, try);
    Circuits.VisitIsProper(h, limits, endpoints, payload, SendVerdict, try.exchanges, 0);
    OneMorePass(policy.maxAttempts - attempt - 1, |endpoints|);
    if o.Exhausted? && attempt < policy.maxAttempts - 1 {
      var nap := Delay(policy, attempt, try.draw);
      DelayBounds(policy, attempt, try.draw);
      if try.interrupted {
        TotalOfPrefixed(nap, []);
        assert [nap] + [] == [nap];
      } else {
        RetriedIsBounded(h', limits, endpoints, payload, policy, tries, attempt + 1);
        TotalOfPrefixed(nap, Retried(h', limits, endpoints, payload, policy, tries, attempt + 1).sleeps);
      }
    }
  }

  // Under the default policy and two replicas: at most six posts and 3.6 seconds of sleep.
  lemma DefaultDeliveryBounds(encoded: Encoded, h: seq<Attempt>, limits: Limits, endpoints: seq<string>, tries: seq<Try>)
    requires |endpoints| == 2 && Fits(tries, DEFAULT_RETRY_POLICY, endpoints)
    ensures var d := SendRun(encoded, h, limits, endpoints, DEFAULT_RETRY_POLICY, tries);
            |d.history| <= |h| + 6 && 10 * Total(d.sleeps) <= 36 * Metric.SECOND
  {
    if encoded.Ok? {
      var policy := DEFAULT_RETRY_POLICY;
      RetriedIsBounded(h, limits, endpoints, encoded.value, policy, tries, 0);
      assert Pow2(1) == 2 * Pow2(0);
      assert Base(policy, 0) == 1_000_000_000.0 && Base(policy, 1) == 2_000_000_000.0;
      assert SleepBudget(policy, 2) == 0.0;
      assert Longest(policy, 0) == 1_200_000_000.0 && Longest(policy, 1) == 2_400_000_000.0;
      assert SleepBudget(policy, 0) == Longest(policy, 0) + SleepBudget(policy, 1);
    }
  }

  // Decoding keeps the key, whatever happened to the times.
  lemma DecodedKeepsTheKey(p: Primitives, e: Envelope)
    requires p.Lawful() && Encode(p, e).Ok? && Decode(p, Encode(p, e).value).Ok?
    ensures Keys.EnvelopeKey(Decode(p, Encode(p, e).value).value) == Keys.EnvelopeKey(e)
  {
    var m, raw := EncodedMessage(p, e);
    assert Decode(p, Encode(p, e).value) == FromMessage(m);
  }

  // Every post of one delivery decodes, wherever it arrives, to an envelope with the key the
  // agent gave it; it does decode when the observation times fit 64-bit nanoseconds.
  lemma EveryPostCarriesTheKey(p: Primitives, h: seq<Attempt>, limits: Limits, endpoints: seq<string>,
                               policy: RetryPolicy, e: Envelope, tries: seq<Try>, n: nat)
    requires p.Lawful() && policy.Valid() && Fits(tries, policy, endpoints)
    requires |h| <= n < |SendRun(Encode(p, e), h, limits, endpoints, policy, tries).history|
    ensures Encode(p, e).Ok?
    ensures SendRun(Encode(p, e), h, limits, endpoints, policy, tries).history[n].payload == Encode(p, e).value
    ensures var decoded := Decode(p, Encode(p, e).value);
            && (decoded.Ok? ==> Keys.EnvelopeKey(decoded.value) == Keys.EnvelopeKey(e))
            && (RepresentableTimes(e) ==> decoded.Ok?)
  {
    var payload := Encode(p, e).value;
    RetriedIsProper(h, limits, endpoints, payload, policy, tries, 0);
    RoundTrip(p, e);
    if Decode(p, payload).Ok? { DecodedKeepsTheKey(p, e); }
  }

  // ---------- Circuits over a whole delivery ----------

  ghost predicate AllBefore(exchanges: seq<Exchange>, at: Metric.Time) {
    forall i :: 0 <= i < |exchanges| ==> exchanges[i].recordedAt <= at
  }

  ghost predicate Chronological(h: seq<Attempt>, tries: seq<Try>, from: nat) {
    && (forall k :: from <= k < |tries| ==> Circuits.ChronologicalFrom(h, tries[k].exchanges, 0))
    && (forall k, l, j :: from <= k < l < |tries| && 0 <= j < |tries[l].exchanges| ==>
          AllBefore(tries[k].exchanges, tries[l].exchanges[j].checkedAt))
  }

  lemma {:induction false} VisitRecordedBy(h: seq<Attempt>, limits: Limits, endpoints: seq<string>, payload: seq<Byte>,
                                           exchanges: seq<Exchange>, i: nat, at: Metric.Time)
    requires |exchanges| == |endpoints| && i <= |endpoints|
    requires Circuits.RecordedBy(h, at) && AllBefore(exchanges, at)
    ensures Circuits.RecordedBy(Visit(h, limits, endpoints, payload, SendVerdict, exchanges, i).0, at)
    decreases |endpoints| - i
  {
    if i < |endpoints| {
      var x := exchanges[i];
      var a := Attempt(i, endpoints[i], payload, x.checkedAt, SendVerdict(x), x.recordedAt);
      if !Available(CircuitOf(h, limits, endpoints[i]), x.checkedAt) {
        VisitRecordedBy(h, limits, endpoints, payload, exchanges, i + 1, at);
      } else if x.buildable && SendVerdict(x).Transient? {
        VisitRecordedBy(h + [a], limits, endpoints, payload, exchanges, i + 1, at);
      }
    }
  }

  lemma NextTryIsChronological(h: seq<Attempt>, limits: Limits, endpoints: seq<string>, payload: seq<Byte>,
                               tries: seq<Try>, attempt: nat)
    requires attempt < |tries| && |tries[attempt].exchanges| == |endpoints|
    requires Chronological(h, tries, attempt)
    ensures Chronological(OnePass(h, limits, endpoints, payload, tries[attempt]).0, tries, attempt + 1)
  {
    var h' := OnePass(h, limits, endpoints, payload, tries[attempt]).0;
    forall k, j | attempt < k < |tries| && 0 <= j < |tries[k].exchanges|
      ensures Circuits.RecordedBy(h', tries[k].exchanges[j].checkedAt)
    {
      VisitRecordedBy(h, limits, endpoints, payload, tries[attempt].exchanges, 0, tries[k].exchanges[j].checkedAt);
    }
  }

  // A delivery never posts through an open circuit, retries included, so the bound on failures
  // inside a cooldown holds across deliveries as well.
  lemma {:induction false} DeliveryKeepsGated(h: seq<Attempt>, limits: Limits, endpoints: seq<string>, payload: seq<Byte>,
                                              policy: RetryPolicy, tries: seq<Try>, attempt: nat)
    requires policy.Valid() && Fits(tries, policy, endpoints) && attempt < policy.maxAttempts
    requires Circuits.Gated(h, limits) && Chronological(h, tries, attempt)
    ensures Circuits.Gated(Retried(h, limits, endpoints, payload, policy, tries, attempt).history, limits)
    decreases policy.maxAttempts - attempt
  {
    var h' := OnePass(h, limits, endpoints, payload, tries[attempt]).0;
    Circuits.VisitKeepsGated(h, limits, endpoints, payload, SendVerdict, tries[attempt].exchanges, 0);
    if attempt < policy.maxAttempts - 1 {
      NextTryIsChronological(h, limits, endpoints, payload, tries, attempt);
      DeliveryKeepsGated(h', limits, endpoints, payload, policy, tries, attempt + 1);
    }
  }

  // ---------- Gathering ----------

  datatype Reading = Failed(collector: string) | Provided(samples: seq<Sample>, containers: seq<Container>)

  function CollectorUnavailable(collector: string, observedAt: Metric.Time): Sample {
    Sample("collector:" + collector,
           Metric.MetricValue("collector.availability", "state", None, Metric.Unavailable, "nodescope-agent",
                       "collector did not provide a reading", observedAt))
  }

  function Contribution(reading: Reading, observedAt: Metric.Time): (seq<Sample>, seq<Container>) {
    match reading
    case Failed(collector) => ([CollectorUnavailable(collector, observedAt)], [])
    case Provided(samples, containers) => (samples, containers)
  }

  function Gathered(readings: seq<Reading>, observedAt: Metric.Time): (seq<Sample>, seq<Container>) {
    if readings == [] then ([], []) else
    var (samples, containers) := Gathered(readings[..|readings| - 1], observedAt);
    var (more, inventory) := Contribution(readings[|readings| - 1], observedAt);
    (samples + more, containers + inventory)
  }

  // Nothing is lost and every failed collector leaves a marker; there is nothing to send only
  // when every collector succeeded with nothing.
  lemma {:induction false} GatheredHoldsAll(readings: seq<Reading>, observedAt: Metric.Time, i: nat)
    requires i < |readings|
    ensures var (samples, containers) := Gathered(readings, observedAt);
            match readings[i]
            case Failed(collector) => CollectorUnavailable(collector, observedAt) in samples
            case Provided(more, inventory) =>
              (forall s :: s in more ==> s in samples) && (forall c :: c in inventory ==> c in containers)
  {
    if i < |readings| - 1 { GatheredHoldsAll(readings[..|readings| - 1], observedAt, i); }
  }

  lemma {:induction false} NothingGathered(readings: seq<Reading>, observedAt: Metric.Time)
    ensures Gathered(readings, observedAt).0 == [] <==>
            forall i :: 0 <= i < |readings| ==> readings[i].Provided? && readings[i].samples == []
  {
    if readings != [] {
      var init := readings[..|readings| - 1];
      NothingGathered(init, observedAt);
      if forall i :: 0 <= i < |init| ==> init[i].Provided? && init[i].samples == [] {
        assert forall i :: 0 <= i < |init| ==> readings[i] == init[i];
      }
    }
  }

  // ---------- The runner ----------

  // An envelope names the configured agent and host, the stamp drawn for it and the moment of
  // the collection, and holds and counts what was gathered; its sizes are still to be told.
  predicate Collected(e: Envelope, agentId: string, hostId: string, stamp: SequenceStore.Stamp, observedAt: Metric.Time,
                      gathered: (seq<Sample>, seq<Container>)) {
    && e.schemaVersion == 1 && e.codec == "protobuf+zstd"
    && e.agentId == agentId && e.hostId == hostId
    && e.bootId == stamp.bootId && e.sequence == stamp.sequence
    && e.observedAt == observedAt
    && e.samples == gathered.0 && e.containers == gathered.1
    && e.sampleCount == e.metricValueCount == |gathered.0| % 0x1_0000_0000
    && e.uncompressedBytes == e.compressedBytes == 1
  }

  function Built(agentId: string, hostId: string, stamp: SequenceStore.Stamp, observedAt: Metric.Time, elapsed: U64,
                 checksum: string, gathered: (seq<Sample>, seq<Container>)): Envelope {
    var count := |gathered.0| % 0x1_0000_0000;
    Envelope(CURRENT_SCHEMA_VERSION, CODEC_PROTO_ZSTD, agentId, hostId, stamp.bootId, stamp.sequence, observedAt,
             elapsed, count, count, 1, 1, checksum, gathered.0, gathered.1)
  }

  lemma GatheredNext(readings: seq<Reading>, observedAt: Metric.Time, i: nat)
    requires i < |readings|
    ensures var before, more := Gathered(readings[..i], observedAt), Contribution(readings[i], observedAt);
            Gathered(readings[..i + 1], observedAt) == (before.0 + more.0, before.1 + more.1)
  {
    assert readings[..i + 1][..i] == readings[..i];
  }

  // Gathering keeps the order of the collectors and adds nothing of its own but one marker for
  // each failed one, a valid reading without a value.
  lemma GatheredInOrder(readings: seq<Reading>, observedAt: Metric.Time, i: nat)
    requires i < |readings| && observedAt != Metric.ZERO_TIME
    ensures var (front, fronted), (all, inventory) := Gathered(readings[..i], observedAt), Gathered(readings[..i + 1], observedAt);
            match readings[i]
            case Provided(samples, containers) => all == front + samples && inventory == fronted + containers
            case Failed(collector) =>
              inventory == fronted && exists marker :: all == front + [marker] && Marks(marker, collector, observedAt)
  {
    GatheredNext(readings, observedAt, i);
    if readings[i].Failed? {
      var marker := CollectorUnavailable(readings[i].collector, observedAt);
      MarkerIsValid(readings[i].collector, observedAt);
      assert Gathered(readings[..i], observedAt).1 + [] == Gathered(readings[..i], observedAt).1;
      assert Marks(marker, readings[i].collector, observedAt)
             && Gathered(readings[..i + 1], observedAt).0 == Gathered(readings[..i], observedAt).0 + [marker];
    }
  }

  predicate Marks(marker: Sample, collector: string, observedAt: Metric.Time) {
    && marker.deviceId == "collector:" + collector && marker.metric.name == "collector.availability"
    && marker.metric.quality.Unavailable? && marker.metric.observedAt == observedAt
    && !Metric.Blank(marker.deviceId) && Metric.ValidMetric(marker.metric)
  }

  lemma MarkerIsValid(collector: string, observedAt: Metric.Time)
    requires observedAt != Metric.ZERO_TIME
    ensures Marks(CollectorUnavailable(collector, observedAt), collector, observedAt)
  {
    var marker := CollectorUnavailable(collector, observedAt);
    StartsWithLetter(marker.deviceId);
    StartsWithLetter(marker.metric.name);
    StartsWithLetter(marker.metric.source);
    StartsWithLetter(marker.metric.semantics);
  }

  lemma StartsWithLetter(s: string)
    requires s != [] && 'a' <= s[0] <= 'z'
    ensures !Metric.Blank(s)
  {
    assert s[0] in s && !Metric.IsSpace(s[0]);
  }

  class Runner {
    const agentId: string
    const hostId: string
    const policy: RetryPolicy
    const sender: Sender
    const state: SequenceStore.Store

    constructor (agentId: string, hostId: string, sender: Sender, state: SequenceStore.Store)
      ensures this.agentId == agentId && this.hostId == hostId && this.sender == sender && this.state == state
      ensures policy == DEFAULT_RETRY_POLICY
    {
      this.agentId, this.hostId, this.sender, this.state := agentId, hostId, sender, state;
      policy := DEFAULT_RETRY_POLICY;
    }

    ghost predicate Valid()
      reads this, sender, state
    {
      policy.Valid() && sender.Valid() && state.Valid()
    }

    method SendWithRetry(p: Primitives, e: Envelope, tries: seq<Try>) returns (r: Result<(), SendError>, ghost sleeps: seq<int>)
      requires policy.Valid() && sender.Valid() && Fits(tries, policy, sender.endpoints)
      modifies sender
      ensures sender.Valid()
      ensures DeliveryRun(sender.history, r, sleeps)
           == SendRun(Encode(p, e), old(sender.history), sender.CurrentLimits(), sender.endpoints, policy, tries)
    {
      sleeps := [];
      ghost var encoded := Encode(p, e);
      ghost var limits, endpoints, h0 := sender.CurrentLimits(), sender.endpoints, sender.history;
      for attempt := 0 to policy.maxAttempts
        invariant sender.Valid()
        invariant OnTrack(encoded, h0, sender.history, sleeps, limits, endpoints, policy, tries, attempt)
      {
        ghost var h := sender.history;
        r := sender.Send(p, e, tries[attempt].exchanges);
        if encoded.Ok? { NextOnTrack(encoded, h0, h, sleeps, limits, endpoints, policy, tries, attempt); }
        if r.Ok? || !IsRetryable(r.error) { return; }
        if attempt == policy.maxAttempts - 1 { return; }
        sleeps := sleeps + [Delay(policy, attempt, tries[attempt].draw)];
        if tries[attempt].interrupted { return Err(OtherError), sleeps; }
      }
    }

    // An error before the envelope exists leaves built at None.
    method CollectOnce(p: Primitives, checksumOf: SequenceStore.Stamp -> string, readings: seq<Reading>, observedAt: Metric.Time,
                       elapsed: U64, write: SequenceStore.WriteResult, rename: bool, tries: seq<Try>)
      returns (r: Result<(), SendError>, ghost built: Option<Envelope>, ghost sleeps: seq<int>)
      requires Valid() && Fits(tries, policy, sender.endpoints)
      modifies sender, state
      ensures Valid()
      ensures Gathered(readings, observedAt).0 == [] ==> state.world == old(state.world)
      ensures Gathered(readings, observedAt).0 != [] ==>
                SequenceStore.SeqRun(old(state.world), SequenceStore.NextSteps(write, rename)) == Some(state.world)
      ensures built.Some? <==> Gathered(readings, observedAt).0 != [] && write.Complete? && rename
      ensures built.None? ==>
                r == Err(OtherError) && sender.history == old(sender.history) && state.world.issued == old(state.world.issued)
      ensures built.Some? ==>
                && |state.world.issued| == |old(state.world.issued)| + 1
                && var stamp := state.world.issued[|old(state.world.issued)|];
                   && Collected(built.value, agentId, hostId, stamp, observedAt, Gathered(readings, observedAt))
                   && built.value.monotonicElapsedNano == elapsed && built.value.checksumSha256 == checksumOf(stamp)
      ensures built.Some? ==>
                DeliveryRun(sender.history, r, sleeps)
                == SendRun(Encode(p, built.value), old(sender.history), sender.CurrentLimits(), sender.endpoints, policy, tries)
    {
      built, sleeps := None, [];
      var samples, containers := [], [];
      for i := 0 to |readings|
        invariant (samples, containers) == Gathered(readings[..i], observedAt)
        invariant Valid() && state.world == old(state.world) && sender.history == old(sender.history)
      {
        assert readings[..i + 1][..i] == readings[..i];
        match readings[i] {
          case Failed(collector) =>
            samples := samples + [CollectorUnavailable(collector, observedAt)];
            assert containers + [] == containers;
          case Provided(collected, inventory) =>
            samples := samples + collected;
            containers := containers + inventory;
        }
      }
      assert readings[..|readings|] == readings;
      if |samples| == 0 { return Err(OtherError), built, sleeps; }
      var stamp := state.Next(write, rename);
      if stamp.None? { return Err(OtherError), built, sleeps; }
      var envelope := Built(agentId, hostId, stamp.value, observedAt, elapsed, checksumOf(stamp.value), (samples, containers));
      built := Some(envelope);
      r, sleeps := SendWithRetry(p, envelope, tries);
    }
  }
}
