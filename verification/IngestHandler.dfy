// The replica's ingestion endpoint: which status each outcome becomes, and what the agent
// makes of it.
module IngestHandler {
  import opened Wrappers
  import Envelopes
  import Keys = IdempotencyKeys
  import Metric
  import opened WireCodec
  import Proxy
  import S = Sender
  import Runner
  import T = Tables

  // One request in the wire format; None is a body that cannot be read within the size limit.
  datatype Post = Post(contentAccepted: bool, authorization: string, body: Option<seq<Byte>>)

  // persist returns None for every error, of the submission or of the database.
  datatype Replica = Replica(
    configured: bool,
    authenticate: string -> Option<T.Identity>,
    persist: (T.Identity, Envelopes.Envelope) -> Option<T.PersistResult>)

  predicate HasToken(authorization: string) {
    Proxy.BearerToken(authorization).Some?
  }

  // The token as sent, unlike the proxy's not trimmed.
  function RawToken(authorization: string): string
    requires HasToken(authorization)
  {
    authorization[|"Bearer "|..]
  }

  function IngestStatus(p: Primitives, replica: Replica, post: Post): int {
    if !replica.configured then 503
    else if !post.contentAccepted then 415
    else if !HasToken(post.authorization) then 401
    else if post.body.None? || Decode(p, post.body.value).Err? then 400 else
    var identity := replica.authenticate(RawToken(post.authorization));
    if identity.None? then 401 else
    match replica.persist(identity.value, Decode(p, post.body.value).value)
    case None => 400
    case Some(result) => if result.inserted then 202 else 200
  }

  method HandleIngest(p: Primitives, replica: Replica, post: Post) returns (status: int)
    ensures status == IngestStatus(p, replica, post)
  {
    if !replica.configured { return 503; }
    if !post.contentAccepted { return 415; }
    if !HasToken(post.authorization) { return 401; }
    if post.body.None? { return 400; }
    var envelope := DecodeCompressedEnvelope(p, post.body.value);
    if envelope.Err? { return 400; }
    var identity := replica.authenticate(RawToken(post.authorization));
    if identity.None? { return 401; }
    var receipt := replica.persist(identity.value, envelope.value);
    if receipt.None? { return 400; }
    status := 202;
    if !receipt.value.inserted { status := 200; }
  }

  function VerdictOn(status: int): S.Verdict {
    S.SendVerdict(S.Exchange(0, true, S.Status(status), false, 0))
  }

  // The submission of a post that gets as far as its credential: configured replica, accepted
  // content, a bearer token, a payload that decodes.
  predicate Readable(p: Primitives, replica: Replica, post: Post) {
    && replica.configured && post.contentAccepted
    && "Bearer " <= post.authorization && (exists c :: c in post.authorization[7..] && !Metric.IsSpace(c))
    && post.body.Some? && Decode(p, post.body.value).Ok?
  }

  // What each status says: 202 for a new submission, 200 for one already received, 400 for one
  // that does not decode or was refused, for whatever reason.
  lemma StatusExactly(p: Primitives, replica: Replica, post: Post)
    ensures var status := IngestStatus(p, replica, post);
            && (status == 503 <==> !replica.configured)
            && (status == 415 <==> replica.configured && !post.contentAccepted)
            && (Readable(p, replica, post) ==>
                  var id, e := replica.authenticate(post.authorization[7..]), Decode(p, post.body.value).value;
                  && (status == 401 <==> id.None?)
                  && (status == 400 <==> id.Some? && replica.persist(id.value, e).None?)
                  && (status == 202 <==> id.Some? && replica.persist(id.value, e).Some? && replica.persist(id.value, e).value.inserted)
                  && (status == 200 <==> id.Some? && replica.persist(id.value, e).Some? && !replica.persist(id.value, e).value.inserted))
            && (!Readable(p, replica, post) && replica.configured && post.contentAccepted ==>
                  status == if Proxy.BearerToken(post.authorization).None? then 401 else 400)
  {
    var i, j := Proxy.TokenIsTrimmed(post.authorization);
  }

  // What the agent retries: a reply that never came, as when a stalled database outlasts the
  // client's timeout, and the answer of an unconfigured replica. Every other answer is final,
  // the one given to a database error included.
  lemma RetriedExactly(p: Primitives, replica: Replica, post: Post, x: S.Exchange)
    requires x.reply == S.TransportError || x.reply == S.Status(IngestStatus(p, replica, post))
    ensures S.SendVerdict(x).Transient? <==> x.reply.TransportError? || !replica.configured
  {
  }

  // An answer of success comes only from a submission that decoded and went through.
  lemma DeliveredMeansPersisted(p: Primitives, replica: Replica, post: Post)
    requires VerdictOn(IngestStatus(p, replica, post)).Delivered?
    ensures HasToken(post.authorization) && replica.authenticate(RawToken(post.authorization)).Some?
    ensures post.body.Some? && Decode(p, post.body.value).Ok?
    ensures replica.persist(replica.authenticate(RawToken(post.authorization)).value, Decode(p, post.body.value).value).Some?
  {
  }

  // For what the agent itself posts with a good credential, an answer of success means exactly
  // that the transaction for its key succeeded, and any other answer ends the delivery with 400.
  lemma SuccessMeansPersisted(p: Primitives, replica: Replica, e: Envelopes.Envelope, authorization: string)
    requires p.Lawful() && Encode(p, e).Ok? && RepresentableTimes(e)
    requires replica.configured && HasToken(authorization) && replica.authenticate(RawToken(authorization)).Some?
    ensures Decode(p, Encode(p, e).value).Ok?
    ensures var decoded := Decode(p, Encode(p, e).value).value;
            var result := replica.persist(replica.authenticate(RawToken(authorization)).value, decoded);
            && Keys.EnvelopeKey(decoded) == Keys.EnvelopeKey(e)
            && VerdictOn(IngestStatus(p, replica, Post(true, authorization, Some(Encode(p, e).value))))
               == if result.Some? then S.Delivered else S.Rejected(400)
  {
    RoundTrip(p, e);
    Runner.DecodedKeepsTheKey(p, e);
  }
}
