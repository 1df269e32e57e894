// The rows PersistEnvelope writes, one SQL statement at a time, with the constraints the
// schema places on them, and the statements one envelope gives rise to.
module Tables {
  import opened Wrappers
  import opened Metric
  import opened Envelopes
  import Keys = IdempotencyKeys
  import MergeOrder

  const RETENTION: int := 48 * HOUR
  const MAX_STORED_METRIC_COUNT: nat := 4096
  const MIN_KEY_LENGTH: nat := 8
  const MAX_KEY_LENGTH: nat := 256
  const BIGINT_LIMIT: int := 0x8000_0000_0000_0000

  datatype Identity = Identity(agentId: string, hostId: string)

  datatype RowKey =
    | BatchKey(id: string)
    | ReceiptKey(id: string)
    | RawSampleKey(id: string, deviceId: string, metricName: string)
    | LatestKey(hostId: string, deviceId: string, metricName: string)
    | InventoryKey(hostId: string, containerId: string)

  // The columns of a sample: device and name are in its key, and neither table has a unit.
  datatype StoredReading = StoredReading(
    value: Option<Number>,
    quality: Quality,
    source: string,
    semantics: string,
    observedAt: Time)

  datatype Row =
    | BatchRow(envelope: Envelope, expiresAt: Time)
    | ReceiptRow(identity: Identity, expiresAt: Time)
    | RawSampleRow(reading: StoredReading, expiresAt: Time)
    | LatestRow(reading: StoredReading)
    | InventoryRow(container: Container, observedAt: Time)

  type Tables = map<RowKey, Row>

  datatype Statement = Statement(key: RowKey, row: Row)

  // A stored time keeps whole microseconds; the driver drops the rest.
  function Micros(t: Time): (stored: Time)
    ensures stored <= t < stored + MICROSECOND
  {
    t - t % MICROSECOND
  }

  // When a receipt taken at this time expires.
  function Expiry(now: Time): Time {
    Micros(now + RETENTION)
  }

  function ReadingOf(m: MetricValue): StoredReading {
    StoredReading(m.value, m.quality, m.source, m.semantics, Micros(m.observedAt))
  }

  // ---------- Replacement rules ----------

  function QualityRank(q: Quality): int {
    match q
    case Fresh => 6
    case Stale => 5
    case Experimental => 4
    case Estimated => 3
    case Unavailable => 2
    case Unsupported => 1
    case Unknown(_) => 0
  }

  // The valid qualities from the least to the most confident one.
  const CONFIDENCE: seq<Quality> := [Unsupported, Unavailable, Estimated, Experimental, Stale, Fresh]

  predicate MoreConfident(a: Quality, b: Quality) {
    exists i, j :: 0 <= i < j < |CONFIDENCE| && CONFIDENCE[i] == b && CONFIDENCE[j] == a
  }

  lemma RanksAreConfidence(a: Quality, b: Quality)
    ensures MoreConfident(a, b) ==> QualityRank(a) > QualityRank(b)
    ensures ValidQuality(a) && ValidQuality(b) && QualityRank(a) > QualityRank(b) ==> MoreConfident(a, b)
  {
    if ValidQuality(a) && ValidQuality(b) && QualityRank(a) > QualityRank(b) {
      var i, j := QualityRank(b) - 1, QualityRank(a) - 1;
      assert CONFIDENCE[i] == b && CONFIDENCE[j] == a;
    }
  }

  // Later evidence replaces, and of one date the more confident.
  function ShouldReplaceLatest(existingAt: Time, existing: Quality, incoming: Quality, incomingAt: Time): (r: bool)
    ensures r <==> MergeOrder.Less(MergeOrder.Rank(existingAt, QualityRank(existing)),
                                   MergeOrder.Rank(incomingAt, QualityRank(incoming)))
    ensures ValidQuality(existing) && ValidQuality(incoming) ==>
              (r <==> incomingAt > existingAt || (incomingAt == existingAt && MoreConfident(incoming, existing)))
  {
    RanksAreConfidence(incoming, existing);
    if incomingAt > existingAt then true
    else if incomingAt < existingAt then false
    else QualityRank(incoming) > QualityRank(existing)
  }

  // Every valid quality has a rank of its own, so a tie means equal time and equal quality.
  lemma RanksAreDistinct(a: Quality, b: Quality)
    ensures ValidQuality(a) && QualityRank(a) == QualityRank(b) ==> a == b
  {
  }

  function RowRank(row: Row): MergeOrder.Rank {
    match row
    case LatestRow(r) => MergeOrder.Rank(r.observedAt, QualityRank(r.quality))
    case InventoryRow(_, at) => MergeOrder.Rank(at, 0)
    case _ => MergeOrder.Rank(0, 0)
  }

  // ---------- One statement ----------

  // PostgreSQL text and jsonb hold no U+0000.
  predicate StorableText(s: string) {
    '\0' !in s
  }

  // SQL's trim takes spaces off both ends, no other white space.
  function SqlTrim(s: string): string {
    if s != [] && s[0] == ' ' then SqlTrim(s[1..])
    else if s != [] && s[|s| - 1] == ' ' then SqlTrim(s[..|s| - 1])
    else s
  }

  predicate StorableKey(key: string) {
    StorableText(key) && MIN_KEY_LENGTH <= |SqlTrim(key)| <= MAX_KEY_LENGTH
  }

  // The schema's list of qualities has no entry for experimental readings.
  predicate StorableQuality(q: Quality) {
    q.Fresh? || q.Stale? || q.Unavailable? || q.Unsupported? || q.Estimated?
  }

  predicate StorableReading(deviceId: string, name: string, r: StoredReading) {
    && StorableQuality(r.quality)
    && StorableText(deviceId) && StorableText(name) && StorableText(r.source) && StorableText(r.semantics)
  }

  predicate StorableContainer(c: Container) {
    && (exists letter :: letter in c.health && letter != ' ')
    && StorableText(c.containerId) && StorableText(c.name) && StorableText(c.image)
    && StorableText(c.state) && StorableText(c.health)
  }

  // The batch row keeps the whole envelope as a JSON document, which has no infinities or NaN.
  predicate StorablePayload(e: Envelope) {
    && StorableText(e.codec) && StorableText(e.agentId) && StorableText(e.hostId) && StorableText(e.bootId)
    && StorableText(e.checksumSha256)
    && (forall i :: 0 <= i < |e.samples| ==>
          && StorableText(e.samples[i].deviceId) && StorableText(e.samples[i].metric.name)
          && StorableText(e.samples[i].metric.unit) && StorableText(e.samples[i].metric.source)
          && StorableText(e.samples[i].metric.semantics)
          && (e.samples[i].metric.value.Some? ==> e.samples[i].metric.value.value.Finite?))
    && (forall i :: 0 <= i < |e.containers| ==>
          && StorableText(e.containers[i].containerId) && StorableText(e.containers[i].name)
          && StorableText(e.containers[i].image) && StorableText(e.containers[i].state)
          && StorableText(e.containers[i].health))
  }

  predicate StorableBatch(e: Envelope) {
    && 1 <= e.metricValueCount <= MAX_STORED_METRIC_COUNT
    && e.compressedBytes > 0
    && e.sequence < BIGINT_LIMIT
    && StorablePayload(e)
  }

  // The column types and check constraints that a valid envelope can still violate.
  predicate Admits(s: Statement) {
    match (s.key, s.row)
    case (BatchKey(id), BatchRow(e, _)) => StorableKey(id) && StorableBatch(e)
    case (ReceiptKey(id), ReceiptRow(identity, _)) => StorableKey(id) && StorableText(identity.agentId)
    case (RawSampleKey(_, deviceId, name), RawSampleRow(r, expiresAt)) =>
      StorableReading(deviceId, name, r) && expiresAt > r.observedAt
    case (LatestKey(_, deviceId, name), LatestRow(r)) => StorableReading(deviceId, name, r)
    case (InventoryKey(_, _), InventoryRow(c, _)) => StorableContainer(c)
    case _ => false
  }

  predicate Upserts(row: Row) {
    row.LatestRow? || row.InventoryRow?
  }

  // The row left by the statement, or None when it fails: a constraint is violated, or a
  // plain insert meets its primary key.
  function Execute(existing: Option<Row>, s: Statement): Option<Row> {
    if !Admits(s) then None
    else if Upserts(s.row) then Some(MergeOrder.Merge(RowRank, s.row.LatestRow?, existing, s.row))
    else if existing.Some? then None
    else Some(s.row)
  }

  function Lookup(t: Tables, key: RowKey): Option<Row> {
    if key in t then Some(t[key]) else None
  }

  // The rows a transaction has written after its statements, on top of committed tables.
  function Writes(t: Tables, stmts: seq<Statement>): Option<Tables> {
    if stmts == [] then Some(map[]) else
    var s := stmts[|stmts| - 1];
    match Writes(t, stmts[..|stmts| - 1])
    case None => None
    case Some(written) =>
      match Execute(Lookup(t + written, s.key), s)
      case None => None
      case Some(row) => Some(written[s.key := row])
  }

  function Targets(stmts: seq<Statement>): set<RowKey> {
    set i | 0 <= i < |stmts| :: stmts[i].key
  }

  predicate AgreeOn(t: Tables, u: Tables, keys: set<RowKey>) {
    forall k :: k in keys ==> Lookup(t, k) == Lookup(u, k)
  }

  lemma {:induction false} WritesHitTargets(t: Tables, stmts: seq<Statement>)
    requires Writes(t, stmts).Some?
    ensures Writes(t, stmts).value.Keys == Targets(stmts)
  {
    if stmts != [] {
      var n := |stmts| - 1;
      WritesHitTargets(t, stmts[..n]);
      assert Targets(stmts) == Targets(stmts[..n]) + {stmts[n].key};
    }
  }

  // What a transaction has written depends only on the committed rows it touches.
  lemma {:induction false} WritesFrame(t: Tables, u: Tables, stmts: seq<Statement>)
    requires AgreeOn(t, u, Targets(stmts))
    ensures Writes(t, stmts) == Writes(u, stmts)
  {
    if stmts != [] {
      var n := |stmts| - 1;
      assert forall k :: k in Targets(stmts[..n]) ==> k in Targets(stmts);
      WritesFrame(t, u, stmts[..n]);
      assert stmts[n].key in Targets(stmts);
      if Writes(t, stmts[..n]).Some? {
        var written := Writes(t, stmts[..n]).value;
        assert Lookup(t + written, stmts[n].key) == Lookup(u + written, stmts[n].key);
      }
    }
  }

  // ---------- The statements of one envelope ----------

  // The semantics text is abbreviated; no rule reads it beyond its not being blank.
  function ClockOffsetSample(observedAt: Time, receivedAt: Time): Sample {
    var offset := (receivedAt - observedAt) as real / SECOND as real;
    Sample("agent-clock",
           MetricValue("agent.clock_offset_seconds", "seconds", Some(Finite(offset)),
                       if offset > 60.0 || offset < -60.0 then Stale else Fresh,
                       "nodescope-server",
                       "clock offset",
                       receivedAt))
  }

  function RawRetentionAllowed(capacity: Option<bool>): bool {
    capacity.Some? && capacity.value
  }

  function ReceiptStatement(id: Identity, e: Envelope, now: Time, raw: bool): Statement {
    if raw then Statement(BatchKey(Keys.EnvelopeKey(e)), BatchRow(e, Expiry(now)))
    else Statement(ReceiptKey(Keys.EnvelopeKey(e)), ReceiptRow(id, Expiry(now)))
  }

  function LatestStatement(id: Identity, s: Sample): Statement {
    Statement(LatestKey(id.hostId, s.deviceId, s.metric.name), LatestRow(ReadingOf(s.metric)))
  }

  function RawSampleStatement(e: Envelope, s: Sample, now: Time): Statement {
    Statement(RawSampleKey(Keys.EnvelopeKey(e), s.deviceId, s.metric.name), RawSampleRow(ReadingOf(s.metric), Expiry(now)))
  }

  function SampleStatements(id: Identity, e: Envelope, now: Time, raw: bool, n: nat): seq<Statement>
    requires n <= |e.samples|
  {
    if n == 0 then [] else
    SampleStatements(id, e, now, raw, n - 1)
    + (if raw then [RawSampleStatement(e, e.samples[n - 1], now)] else [])
    + [LatestStatement(id, e.samples[n - 1])]
  }

  function InventoryStatement(id: Identity, e: Envelope, c: Container): Statement {
    Statement(InventoryKey(id.hostId, c.containerId), InventoryRow(c, Micros(e.observedAt)))
  }

  function InventoryStatements(id: Identity, e: Envelope, n: nat): (r: seq<Statement>)
    requires n <= |e.containers|
    ensures |r| == n && forall i :: 0 <= i < n ==> r[i] == InventoryStatement(id, e, e.containers[i])
  {
    if n == 0 then [] else InventoryStatements(id, e, n - 1) + [InventoryStatement(id, e, e.containers[n - 1])]
  }

  // Everything the transaction writes, in order, once it has found the key absent.
  function Plan(id: Identity, e: Envelope, now: Time, raw: bool): seq<Statement> {
    [ReceiptStatement(id, e, now, raw)]
    + SampleStatements(id, e, now, raw, |e.samples|)
    + InventoryStatements(id, e, |e.containers|)
    + [LatestStatement(id, ClockOffsetSample(e.observedAt, now))]
  }

  predicate Received(t: Tables, key: string) {
    BatchKey(key) in t || ReceiptKey(key) in t
  }

  predicate Acceptable(id: Identity, e: Envelope, now: Time) {
    && id.agentId != "" && id.hostId != ""
    && e.agentId == id.agentId && e.hostId == id.hostId
    && ValidEnvelope(e)
    && TimelyFor(e, now)
  }

  datatype PersistResult = PersistResult(inserted: bool, rawRetained: bool)

  datatype PersistError =
    | IncompleteIdentity
    | IdentityMismatch
    | InvalidSubmission(reason: EnvelopeError)
    | TooFarAhead
    | DatabaseFailure

  // The whole transaction as one atomic step: insert if absent.
  function Persist(t: Tables, id: Identity, e: Envelope, now: Time, raw: bool): Option<(Tables, PersistResult)> {
    if Received(t, Keys.EnvelopeKey(e)) then Some((t, PersistResult(false, false))) else
    match Writes(t, Plan(id, e, now, raw))
    case None => None
    case Some(written) => Some((t + written, PersistResult(true, raw)))
  }

  // ---------- Retention ----------

  // The daily job deletes expired raw batches; their samples go with them. It never deletes
  // compact receipts.
  predicate Expired(t: Tables, keys: set<string>, cutoff: Time) {
    forall k :: k in keys ==> BatchKey(k) in t && t[BatchKey(k)].BatchRow? && t[BatchKey(k)].expiresAt <= cutoff
  }

  predicate OwnedBy(key: RowKey, keys: set<string>) {
    (key.BatchKey? || key.RawSampleKey?) && key.id in keys
  }

  function Purge(t: Tables, keys: set<string>): Tables {
    map k | k in t && !OwnedBy(k, keys) :: t[k]
  }

  // ---------- Which rows a plan can touch ----------

  predicate Fits(key: RowKey, row: Row) {
    match key
    case BatchKey(_) => row.BatchRow?
    case ReceiptKey(_) => row.ReceiptRow?
    case RawSampleKey(_, _, _) => row.RawSampleRow?
    case LatestKey(_, _, _) => row.LatestRow?
    case InventoryKey(_, _) => row.InventoryRow?
  }

  predicate AllFit(stmts: seq<Statement>) {
    forall i :: 0 <= i < |stmts| ==> Fits(stmts[i].key, stmts[i].row)
  }

  predicate Each(stmts: seq<Statement>, p: Statement -> bool) {
    forall i :: 0 <= i < |stmts| ==> p(stmts[i])
  }

  lemma EachTogether(a: seq<Statement>, b: seq<Statement>, p: Statement -> bool)
    requires Each(a, p) && Each(b, p)
    ensures Each(a + b, p)
  {
  }

  lemma {:induction false} EachSampleStatement(id: Identity, e: Envelope, now: Time, raw: bool, n: nat, p: Statement -> bool)
    requires n <= |e.samples|
    requires forall k :: 0 <= k < n ==> p(LatestStatement(id, e.samples[k]))
    requires raw ==> forall k :: 0 <= k < n ==> p(RawSampleStatement(e, e.samples[k], now))
    ensures Each(SampleStatements(id, e, now, raw, n), p)
  {
    if n > 0 { EachSampleStatement(id, e, now, raw, n - 1, p); }
  }

  // What holds of every kind of statement holds of the whole plan.
  lemma EachStatement(id: Identity, e: Envelope, now: Time, raw: bool, p: Statement -> bool)
    requires p(ReceiptStatement(id, e, now, raw))
    requires forall k :: 0 <= k < |e.samples| ==> p(LatestStatement(id, e.samples[k]))
    requires raw ==> forall k :: 0 <= k < |e.samples| ==> p(RawSampleStatement(e, e.samples[k], now))
    requires forall k :: 0 <= k < |e.containers| ==> p(InventoryStatement(id, e, e.containers[k]))
    requires p(LatestStatement(id, ClockOffsetSample(e.observedAt, now)))
    ensures Each(Plan(id, e, now, raw), p)
  {
    var head, samples := [ReceiptStatement(id, e, now, raw)], SampleStatements(id, e, now, raw, |e.samples|);
    var inventory := InventoryStatements(id, e, |e.containers|);
    EachSampleStatement(id, e, now, raw, |e.samples|, p);
    EachTogether(head, samples, p);
    EachTogether(head + samples, inventory, p);
    EachTogether(head + samples + inventory, [LatestStatement(id, ClockOffsetSample(e.observedAt, now))], p);
  }

  lemma PlanFits(id: Identity, e: Envelope, now: Time, raw: bool)
    ensures AllFit(Plan(id, e, now, raw))
  {
    var fits := (s: Statement) => Fits(s.key, s.row);
    EachStatement(id, e, now, raw, fits);
    assert Each(Plan(id, e, now, raw), fits);
  }

  predicate InPlanOf(key: RowKey, id: string) {
    match key
    case BatchKey(k) => k == id
    case ReceiptKey(k) => k == id
    case RawSampleKey(k, _, _) => k == id
    case _ => true
  }

  // A plan writes rows of its own key, latest rows and inventory rows; it holds exactly one
  // receipt, raw or compact, and sample rows only beside a raw one.
  lemma PlanTargets(id: Identity, e: Envelope, now: Time, raw: bool)
    ensures forall k :: k in Targets(Plan(id, e, now, raw)) ==> InPlanOf(k, Keys.EnvelopeKey(e))
    ensures BatchKey(Keys.EnvelopeKey(e)) in Targets(Plan(id, e, now, raw)) <==> raw
    ensures ReceiptKey(Keys.EnvelopeKey(e)) in Targets(Plan(id, e, now, raw)) <==> !raw
    ensures !raw ==> forall k :: k in Targets(Plan(id, e, now, raw)) ==> !k.RawSampleKey?
  {
    var key := Keys.EnvelopeKey(e);
    var allowed := (s: Statement) =>
      InPlanOf(s.key, key) && (s.key.BatchKey? || s.key.RawSampleKey? ==> raw) && (s.key.ReceiptKey? ==> !raw);
    EachStatement(id, e, now, raw, allowed);
    assert Each(Plan(id, e, now, raw), allowed);
    assert Plan(id, e, now, raw)[0] == ReceiptStatement(id, e, now, raw);
  }

  // ---------- Plain inserts ----------

  // A plain insert finds its key free, and its row is final within the transaction: a second
  // write of it would have failed.
  lemma {:induction false} PlainInsert(t: Tables, stmts: seq<Statement>, i: nat)
    requires AllFit(stmts) && Writes(t, stmts).Some?
    requires i < |stmts| && !Upserts(stmts[i].row)
    ensures stmts[i].key !in t
    ensures Lookup(Writes(t, stmts).value, stmts[i].key) == Some(stmts[i].row)
  {
    var n := |stmts| - 1;
    if i < n {
      assert stmts[..n][i] == stmts[i];
      PlainInsert(t, stmts[..n], i);
    }
  }

  lemma {:induction false} PlainInsertsDiffer(t: Tables, stmts: seq<Statement>, i: nat, j: nat)
    requires AllFit(stmts) && Writes(t, stmts).Some?
    requires i < j < |stmts| && !Upserts(stmts[i].row) && !Upserts(stmts[j].row)
    ensures stmts[i].key != stmts[j].key
  {
    var n := |stmts| - 1;
    assert forall k :: 0 <= k < n ==> stmts[..n][k] == stmts[k];
    if j < n {
      PlainInsertsDiffer(t, stmts[..n], i, j);
    } else {
      PlainInsert(t, stmts[..n], i);
    }
  }

  // ---------- The receipt of an insertion ----------

  lemma ExpiresInTwoDays(now: Time)
    ensures Expiry(now) == now + 172_800_000_000_000 - (now + 172_800_000_000_000) % 1000
  {
  }

  // Exactly one receipt, of the kind of the mode, and it expires 48 hours after the receipt
  // time, less what the column drops below the microsecond.
  lemma InsertedReceipt(t: Tables, id: Identity, e: Envelope, now: Time, raw: bool)
    requires !Received(t, Keys.EnvelopeKey(e)) && Writes(t, Plan(id, e, now, raw)).Some?
    ensures var key, u := Keys.EnvelopeKey(e), t + Writes(t, Plan(id, e, now, raw)).value;
            && (BatchKey(key) in u <==> raw) && (ReceiptKey(key) in u <==> !raw)
            && (raw ==> u[BatchKey(key)] == BatchRow(e, now + 172_800_000_000_000 - (now + 172_800_000_000_000) % 1000))
            && (!raw ==> u[ReceiptKey(key)] == ReceiptRow(id, now + 172_800_000_000_000 - (now + 172_800_000_000_000) % 1000))
  {
    ExpiresInTwoDays(now);
    var plan := Plan(id, e, now, raw);
    WritesHitTargets(t, plan);
    PlanTargets(id, e, now, raw);
    PlanFits(id, e, now, raw);
    assert plan[0] == ReceiptStatement(id, e, now, raw);
    PlainInsert(t, plan, 0);
  }
}
