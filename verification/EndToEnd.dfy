// From a collection cycle of the agent to the rows of the database: what the cycle sends is
// acceptable under the agent's identity, and when the retry loop reports success, the request
// that was answered has stored the envelope.
module EndToEnd {
  import opened Wrappers
  import Metric
  import Envelopes
  import Keys = IdempotencyKeys
  import WireCodec
  import opened Delivery
  import IngestHandler
  import Receipts
  import Retry
  import Runner
  import SequenceStore
  import S = Sender
  import Tables
  import Transactions

  // ---------- What a collection cycle sends ----------

  // The cycle's envelope carries its agent's identity and stamp, as the move Build asks of it.
  lemma CollectedIsBuilt(hash: string -> int, s: System, e: Envelopes.Envelope, hostId: string, observedAt: int,
                         gathered: (seq<Envelopes.Sample>, seq<Envelopes.Container>))
    requires s.current.None? && s.store.progress.Renamed? && s.store.memory.Some?
    requires Runner.Collected(e, s.identity.agentId, hostId, s.store.memory.value, observedAt, gathered)
    ensures StampedWith(e, s.identity, s.store.memory.value)
    ensures SysExec(hash, s, Build(e)).Some? && SysExec(hash, s, Build(e)).value.current == Some(e)
  {
  }

  // Its replica accepts it for that identity exactly when the identity is not blank, the readings
  // and containers are well-formed, distinct and within the bounds, and no date is ahead.
  lemma CollectedIsAcceptable(e: Envelopes.Envelope, id: Tables.Identity, stamp: SequenceStore.Stamp, observedAt: int,
                              gathered: (seq<Envelopes.Sample>, seq<Envelopes.Container>), now: int)
    requires Runner.Collected(e, id.agentId, id.hostId, stamp, observedAt, gathered) && stamp.sequence >= 1
    ensures Tables.Acceptable(id, e, now) <==>
            && !Metric.Blank(id.agentId) && !Metric.Blank(id.hostId) && !Metric.Blank(stamp.bootId)
            && observedAt != Metric.ZERO_TIME && observedAt <= now + 60_000_000_000
            && 1 <= |gathered.0| <= 10_000 && Envelopes.ValidSamples(gathered.0)
            && (forall i :: 0 <= i < |gathered.0| ==> gathered.0[i].metric.observedAt <= now + 60_000_000_000)
            && |gathered.1| <= 2_000 && Envelopes.ValidContainers(gathered.1)
            && Envelopes.ValidChecksum(e.checksumSha256)
  {
    if |gathered.0| <= 10_000 {
      assert e.metricValueCount == |gathered.0|;
    }
  }

  // What arrives of it is acceptable as well, and stored under the same key.
  lemma PostedIsAcceptable(p: WireCodec.Primitives, e: Envelopes.Envelope, id: Tables.Identity, now: int)
    requires p.Lawful() && Tables.Acceptable(id, e, now) && WireCodec.Encode(p, e).Ok? && WireCodec.RepresentableTimes(e)
    ensures WireCodec.Decode(p, WireCodec.Encode(p, e).value).Ok?
    ensures var d := WireCodec.Decode(p, WireCodec.Encode(p, e).value).value;
            && Tables.Acceptable(id, d, now) && Keys.EnvelopeKey(d) == Keys.EnvelopeKey(e)
            && d.samples == e.samples && d.containers == e.containers
  {
    WireCodec.RoundTrip(p, e);
    WireCodec.DecodedIsConsistent(p, WireCodec.Encode(p, e).value);
  }

  // ---------- From an answer to the database ----------

  // Who answered a post: the replica, the credential it was sent with, and the request that the
  // replica served for it.
  datatype Answer = Answer(replica: IngestHandler.Replica, authorization: string, request: nat)

  // What PersistEnvelope returns for a request that has ended.
  predicate Returns(reply: Transactions.Reply, result: Option<Tables.PersistResult>) {
    match reply
    case Accepted => result.Some? && result.value.inserted
    case Duplicate => result.Some? && !result.value.inserted
    case Refused => result.None?
  }

  // The verdict on an attempt is what the replica answered to its payload, and the replica
  // answered what the request's transaction came to.
  ghost predicate AnsweredBy(p: WireCodec.Primitives, s: System, attempt: S.Attempt, answer: Answer) {
    && attempt.verdict == IngestHandler.VerdictOn(IngestHandler.IngestStatus(p, answer.replica,
         IngestHandler.Post(true, answer.authorization, Some(attempt.payload))))
    && (IngestHandler.HasToken(answer.authorization) ==>
          answer.replica.authenticate(IngestHandler.RawToken(answer.authorization)) == Some(s.identity))
    && answer.request in s.posted && answer.request in s.db.requests
    && var r := s.db.requests[answer.request];
       r.phase.Done? && Returns(r.phase.reply, answer.replica.persist(s.identity, r.envelope))
  }

  // Every post of a delivery that was answered with success was answered for one of its requests.
  ghost predicate SuccessesAnswered(p: WireCodec.Primitives, s: System, h: seq<S.Attempt>, d: Runner.DeliveryRun,
                                    answers: nat -> Answer) {
    forall n | |h| <= n < |d.history| :: d.history[n].verdict.Delivered? ==> AnsweredBy(p, s, d.history[n], answers(n))
  }

  // The state's current envelope is what the payload of this delivery decodes to.
  ghost predicate Delivers(p: WireCodec.Primitives, s: System, encoded: Runner.Encoded) {
    && s.current.Some?
    && (encoded.Ok? && WireCodec.Decode(p, encoded.value).Ok? ==>
          WireCodec.Decode(p, encoded.value).value == s.current.value)
  }

  lemma AnsweredRequestSucceeded(hash: string -> int, p: WireCodec.Primitives, s: System, encoded: Runner.Encoded,
                                 attempt: S.Attempt, answer: Answer)
    requires SysInv(hash, s) && Delivers(p, s, encoded)
    requires encoded.Ok? && attempt.payload == encoded.value
    requires attempt.verdict.Delivered? && AnsweredBy(p, s, attempt, answer)
    ensures Succeeded(s.db.requests[answer.request])
    ensures SysExec(hash, s, Confirm(answer.request)).Some?
  {
    var post := IngestHandler.Post(true, answer.authorization, Some(attempt.payload));
    IngestHandler.DeliveredMeansPersisted(p, answer.replica, post);
    assert s.db.requests[answer.request].envelope == s.current.value;
  }

  // What can be confirmed is stored, exactly once while its receipt is retained.
  lemma ConfirmableIsStoredOnce(hash: string -> int, identity: Tables.Identity, bootId: string, moves: seq<Move>, s: System,
                                request: nat, since: int)
    requires ':' !in identity.agentId && SysRun(hash, Initial(identity, bootId), moves) == Some(s)
    requires s.store.calls < SequenceStore.SEQUENCE_MODULUS && s.current.Some?
    requires SysExec(hash, s, Confirm(request)).Some?
    requires Receipts.ReceivedSince(s.db.log, Keys.EnvelopeKey(s.current.value), since)
    requires Receipts.CutoffsBefore(s.db.log, Tables.Expiry(since))
    ensures TimesStored(s.db.log, s.current.value) == 1
    ensures Tables.Received(s.db.tables, Keys.EnvelopeKey(s.current.value))
  {
    SysRunKeepsInv(hash, identity, bootId, moves);
    SysNext(hash, Initial(identity, bootId), moves, Confirm(request));
    ExactlyOnce(hash, identity, bootId, moves + [Confirm(request)], s.current.value, since);
  }

  lemma AnsweredPostIsStoredOnce(hash: string -> int, p: WireCodec.Primitives, identity: Tables.Identity,
                                 bootId: string, moves: seq<Move>, s: System, encoded: Runner.Encoded,
                                 attempt: S.Attempt, answer: Answer, since: int)
    requires ':' !in identity.agentId && SysRun(hash, Initial(identity, bootId), moves) == Some(s)
    requires s.store.calls < SequenceStore.SEQUENCE_MODULUS && Delivers(p, s, encoded)
    requires encoded.Ok? && attempt.payload == encoded.value
    requires attempt.verdict.Delivered? && AnsweredBy(p, s, attempt, answer)
    requires Receipts.ReceivedSince(s.db.log, Keys.EnvelopeKey(s.current.value), since)
    requires Receipts.CutoffsBefore(s.db.log, Tables.Expiry(since))
    ensures TimesStored(s.db.log, s.current.value) == 1
    ensures Tables.Received(s.db.tables, Keys.EnvelopeKey(s.current.value))
  {
    SysRunKeepsInv(hash, identity, bootId, moves);
    AnsweredRequestSucceeded(hash, p, s, encoded, attempt, answer);
    ConfirmableIsStoredOnce(hash, identity, bootId, moves, s, answer.request, since);
  }

  // A delivery that reports success was answered for its last post.
  lemma SuccessIsAnswered(p: WireCodec.Primitives, s: System, encoded: Runner.Encoded, h: seq<S.Attempt>, limits: S.Limits,
                          endpoints: seq<string>, policy: Retry.RetryPolicy, tries: seq<Runner.Try>, d: Runner.DeliveryRun,
                          answers: nat -> Answer)
      returns (attempt: S.Attempt, answer: Answer)
    requires policy.Valid() && Runner.Fits(tries, policy, endpoints)
    requires d == Runner.SendRun(encoded, h, limits, endpoints, policy, tries) && d.result.Ok?
    requires SuccessesAnswered(p, s, h, d, answers)
    ensures encoded.Ok? && attempt.payload == encoded.value && attempt.verdict.Delivered?
    ensures AnsweredBy(p, s, attempt, answer)
  {
    Runner.SuccessIsTheLastAttempt(encoded, h, limits, endpoints, policy, tries);
    var last := |d.history| - 1;
    attempt, answer := d.history[last], answers(last);
  }

  // In every run of the system: when the attempts of a delivery are answered by the replicas
  // from the transactions that served its posts, and the retry loop returns success, the
  // envelope is stored, exactly once while its receipt is retained.
  lemma SuccessMeansStoredOnce(hash: string -> int, p: WireCodec.Primitives, identity: Tables.Identity,
                               bootId: string, moves: seq<Move>,
                               s: System, encoded: Runner.Encoded, h: seq<S.Attempt>, limits: S.Limits, endpoints: seq<string>,
                               policy: Retry.RetryPolicy, tries: seq<Runner.Try>, d: Runner.DeliveryRun,
                               answers: nat -> Answer, since: int)
    requires ':' !in identity.agentId && SysRun(hash, Initial(identity, bootId), moves) == Some(s)
    requires s.store.calls < SequenceStore.SEQUENCE_MODULUS && Delivers(p, s, encoded)
    requires policy.Valid() && Runner.Fits(tries, policy, endpoints)
    requires d == Runner.SendRun(encoded, h, limits, endpoints, policy, tries) && d.result.Ok?
    requires SuccessesAnswered(p, s, h, d, answers)
    requires Receipts.ReceivedSince(s.db.log, Keys.EnvelopeKey(s.current.value), since)
    requires Receipts.CutoffsBefore(s.db.log, Tables.Expiry(since))
    ensures TimesStored(s.db.log, s.current.value) == 1
    ensures Tables.Received(s.db.tables, Keys.EnvelopeKey(s.current.value))
  {
    var attempt, answer := SuccessIsAnswered(p, s, encoded, h, limits, endpoints, policy, tries, d, answers);
    AnsweredPostIsStoredOnce(hash, p, identity, bootId, moves, s, encoded, attempt, answer, since);
  }
}
