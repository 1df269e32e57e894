// Raw batches own their sample rows, one per declared metric value, in every committed state.
module RawBatches {
  import opened Wrappers
  import Metric
  import Envelopes
  import Keys = IdempotencyKeys
  import opened Tables
  import opened Transactions

  function SampleRowKey(id: string, s: Envelopes.Sample): RowKey {
    RawSampleKey(id, s.deviceId, s.metric.name)
  }

  function SampleKeys(id: string, ss: seq<Envelopes.Sample>): set<RowKey> {
    set i | 0 <= i < |ss| :: SampleRowKey(id, ss[i])
  }

  function OwnSamples(t: Tables, id: string): set<RowKey> {
    set k | k in t && k.RawSampleKey? && k.id == id
  }

  ghost predicate HoldsSamples(t: Tables, id: string, e: Envelopes.Envelope, expiresAt: Metric.Time) {
    && OwnSamples(t, id) == SampleKeys(id, e.samples)
    && |OwnSamples(t, id)| == e.metricValueCount
    && forall i :: 0 <= i < |e.samples| ==>
         Lookup(t, SampleRowKey(id, e.samples[i])) == Some(RawSampleRow(ReadingOf(e.samples[i].metric), expiresAt))
  }

  // A batch holds exactly one row per sample of its envelope, with that sample's data and the
  // batch's expiry, and as many as the declared metric value count; without a batch, compact
  // receipts included, there is no sample row.
  ghost predicate BatchIntact(t: Tables, id: string) {
    if BatchKey(id) in t then
      && t[BatchKey(id)].BatchRow?
      && Keys.EnvelopeKey(t[BatchKey(id)].envelope) == id
      && HoldsSamples(t, id, t[BatchKey(id)].envelope, t[BatchKey(id)].expiresAt)
    else OwnSamples(t, id) == {}
  }

  // ---------- What a raw transaction writes ----------

  lemma {:induction false} RawLayout(id: Identity, e: Envelopes.Envelope, now: Metric.Time, n: nat)
    requires n <= |e.samples|
    ensures |SampleStatements(id, e, now, true, n)| == 2 * n
    ensures forall k :: 0 <= k < n ==>
              && SampleStatements(id, e, now, true, n)[2 * k] == RawSampleStatement(e, e.samples[k], now)
              && SampleStatements(id, e, now, true, n)[2 * k + 1] == LatestStatement(id, e.samples[k])
  {
    if n > 0 { RawLayout(id, e, now, n - 1); }
  }

  lemma RawStatementAt(id: Identity, e: Envelopes.Envelope, now: Metric.Time, k: nat)
    requires k < |e.samples|
    ensures 1 + 2 * k < |Plan(id, e, now, true)|
    ensures Plan(id, e, now, true)[1 + 2 * k] == RawSampleStatement(e, e.samples[k], now)
  {
    RawLayout(id, e, now, |e.samples|);
    SampleStatementInPlan(id, e, now, true, 2 * k);
  }

  lemma SampleStatementInPlan(id: Identity, e: Envelopes.Envelope, now: Metric.Time, raw: bool, i: nat)
    requires i < |SampleStatements(id, e, now, raw, |e.samples|)|
    ensures 1 + i < |Plan(id, e, now, raw)|
    ensures Plan(id, e, now, raw)[1 + i] == SampleStatements(id, e, now, raw, |e.samples|)[i]
  {
  }

  lemma RawTargetsAreSamples(id: Identity, e: Envelopes.Envelope, now: Metric.Time)
    ensures forall k :: k in Targets(Plan(id, e, now, true)) && k.RawSampleKey? ==>
              k in SampleKeys(Keys.EnvelopeKey(e), e.samples)
  {
    var keys := SampleKeys(Keys.EnvelopeKey(e), e.samples);
    var within := (s: Statement) => s.key.RawSampleKey? ==> s.key in keys;
    assert forall k :: 0 <= k < |e.samples| ==> SampleRowKey(Keys.EnvelopeKey(e), e.samples[k]) in keys;
    EachStatement(id, e, now, true, within);
    assert Each(Plan(id, e, now, true), within);
  }

  lemma {:induction false} DistinctKeysCount(id: string, ss: seq<Envelopes.Sample>)
    requires forall i, j :: 0 <= i < j < |ss| ==> SampleRowKey(id, ss[i]) != SampleRowKey(id, ss[j])
    ensures |SampleKeys(id, ss)| == |ss|
  {
    if ss != [] {
      var n := |ss| - 1;
      var init, key := ss[..n], SampleRowKey(id, ss[n]);
      assert forall i :: 0 <= i < n ==> init[i] == ss[i];
      DistinctKeysCount(id, init);
      SampleKeysSplit(id, ss, n);
      assert key !in SampleKeys(id, init);
    }
  }

  lemma SampleKeysSplit(id: string, ss: seq<Envelopes.Sample>, n: nat)
    requires |ss| == n + 1
    ensures SampleKeys(id, ss) == SampleKeys(id, ss[..n]) + {SampleRowKey(id, ss[n])}
  {
    var init := ss[..n];
    forall k | k in SampleKeys(id, ss) ensures k in SampleKeys(id, init) || k == SampleRowKey(id, ss[n]) {
      var i :| 0 <= i < |ss| && k == SampleRowKey(id, ss[i]);
      assert i < n ==> init[i] == ss[i];
    }
    forall k | k in SampleKeys(id, init) ensures k in SampleKeys(id, ss) {
      var i :| 0 <= i < n && k == SampleRowKey(id, init[i]);
      assert init[i] == ss[i];
    }
  }

  // If two samples of the envelope shared a device and a metric name, the second insert would
  // have violated the primary key and the transaction would not have come this far.
  lemma RawPlanRows(t: Tables, id: Identity, e: Envelopes.Envelope, now: Metric.Time)
    requires Writes(t, Plan(id, e, now, true)).Some?
    ensures forall k :: 0 <= k < |e.samples| ==>
              Lookup(Writes(t, Plan(id, e, now, true)).value, SampleRowKey(Keys.EnvelopeKey(e), e.samples[k]))
              == Some(RawSampleRow(ReadingOf(e.samples[k].metric), Expiry(now)))
    ensures |SampleKeys(Keys.EnvelopeKey(e), e.samples)| == |e.samples|
  {
    var plan, key := Plan(id, e, now, true), Keys.EnvelopeKey(e);
    PlanFits(id, e, now, true);
    forall k | 0 <= k < |e.samples|
      ensures Lookup(Writes(t, plan).value, SampleRowKey(key, e.samples[k]))
           == Some(RawSampleRow(ReadingOf(e.samples[k].metric), Expiry(now)))
    {
      RawStatementAt(id, e, now, k);
      PlainInsert(t, plan, 1 + 2 * k);
    }
    forall j, k | 0 <= j < k < |e.samples| ensures SampleRowKey(key, e.samples[j]) != SampleRowKey(key, e.samples[k]) {
      RawStatementAt(id, e, now, j);
      RawStatementAt(id, e, now, k);
      PlainInsertsDiffer(t, plan, 1 + 2 * j, 1 + 2 * k);
    }
    DistinctKeysCount(key, e.samples);
  }

  // ---------- Events keep batches intact ----------

  lemma RawInsertFills(t: Tables, id: Identity, e: Envelopes.Envelope, now: Metric.Time)
    requires Writes(t, Plan(id, e, now, true)).Some? && OwnSamples(t, Keys.EnvelopeKey(e)) == {}
    requires e.metricValueCount == |e.samples|
    ensures HoldsSamples(t + Writes(t, Plan(id, e, now, true)).value, Keys.EnvelopeKey(e), e, Expiry(now))
  {
    var plan, key := Plan(id, e, now, true), Keys.EnvelopeKey(e);
    var w := Writes(t, plan).value;
    RawPlanRows(t, id, e, now);
    WritesHitTargets(t, plan);
    RawTargetsAreSamples(id, e, now);
    assert OwnSamples(t + w, key) <= SampleKeys(key, e.samples) by {
      forall k | k in OwnSamples(t + w, key) ensures k in SampleKeys(key, e.samples) {
        assert k !in OwnSamples(t, key);
      }
    }
  }

  lemma OtherInsertSpares(t: Tables, w: Tables, key: string)
    requires BatchIntact(t, key)
    requires forall k :: k in w ==> k != BatchKey(key) && !(k.RawSampleKey? && k.id == key)
    ensures BatchIntact(t + w, key)
  {
    assert OwnSamples(t + w, key) == OwnSamples(t, key);
    assert forall k :: k !in w ==> Lookup(t + w, k) == Lookup(t, k);
  }

  lemma InsertKeepsBatch(t: Tables, id: Identity, e: Envelopes.Envelope, now: Metric.Time, raw: bool, key: string)
    requires Writes(t, Plan(id, e, now, raw)).Some? && !Received(t, Keys.EnvelopeKey(e))
    requires BatchIntact(t, key) && e.metricValueCount == |e.samples|
    ensures BatchIntact(t + Writes(t, Plan(id, e, now, raw)).value, key)
  {
    var plan := Plan(id, e, now, raw);
    WritesHitTargets(t, plan);
    PlanTargets(id, e, now, raw);
    if key == Keys.EnvelopeKey(e) && raw {
      RawInsertFills(t, id, e, now);
      PlanFits(id, e, now, true);
      assert plan[0] == ReceiptStatement(id, e, now, true);
      PlainInsert(t, plan, 0);
    } else {
      OtherInsertSpares(t, Writes(t, plan).value, key);
    }
  }

  lemma EventKeepsBatch(t: Tables, event: Event, key: string)
    requires Apply(t, event).Some? && BatchIntact(t, key)
    requires event.Inserted? ==> event.envelope.metricValueCount == |event.envelope.samples|
    ensures BatchIntact(Apply(t, event).value, key)
  {
    match event
    case Inserted(_, id, e, now, raw) => InsertKeepsBatch(t, id, e, now, raw, key);
    case Purged(keys, _) => PurgeKeepsBatch(t, keys, key);
  }

  lemma PurgeKeepsBatch(t: Tables, keys: set<string>, key: string)
    requires BatchIntact(t, key)
    ensures BatchIntact(Purge(t, keys), key)
  {
    assert OwnSamples(Purge(t, keys), key) == if key in keys then {} else OwnSamples(t, key);
    assert forall k :: !OwnedBy(k, keys) ==> Lookup(Purge(t, keys), k) == Lookup(t, k);
  }

  lemma {:induction false} BatchesOwnTheirSamples(log: seq<Event>, key: string)
    requires Replay(log).Some? && LogAcceptable(log)
    ensures BatchIntact(Replay(log).value, key)
  {
    if log != [] {
      var n := |log| - 1;
      assert LogAcceptable(log[..n]);
      BatchesOwnTheirSamples(log[..n], key);
      assert EventAcceptable(log[n]);
      EventKeepsBatch(Replay(log[..n]).value, log[n], key);
    }
  }

  // So it is in every state any run of concurrent transactions commits.
  lemma EveryRunKeepsBatchesIntact(hash: string -> int, steps: seq<Step>, key: string)
    requires Run(hash, EMPTY, steps).Some?
    ensures BatchIntact(Run(hash, EMPTY, steps).value.tables, key)
  {
    Serializable(hash, steps);
    BatchesOwnTheirSamples(Run(hash, EMPTY, steps).value.log, key);
  }
}
