// Which valid submissions the schema lets in. Validation alone does not decide it, and the
// answer depends on the retention mode in force when the transaction reads it.
module Admission {
  import Metric
  import opened Envelopes
  import Keys = IdempotencyKeys
  import opened Tables
  import opened RawBatches
  import PostgresStore

  // Compact mode keeps the receipt and latest rows only.
  predicate StorableCompact(e: Envelope) {
    && StorableKey(Keys.EnvelopeKey(e))
    && (forall i :: 0 <= i < |e.samples| ==>
          StorableReading(e.samples[i].deviceId, e.samples[i].metric.name, ReadingOf(e.samples[i].metric)))
    && (forall i :: 0 <= i < |e.containers| ==> StorableContainer(e.containers[i]))
  }

  // Raw mode adds the batch row and one row per device and metric name.
  predicate StorableRaw(e: Envelope) {
    && StorableCompact(e)
    && StorableBatch(e)
    && forall i, j :: 0 <= i < j < |e.samples| ==>
         SampleRowKey(Keys.EnvelopeKey(e), e.samples[i]) != SampleRowKey(Keys.EnvelopeKey(e), e.samples[j])
  }

  predicate Storable(e: Envelope, raw: bool) {
    if raw then StorableRaw(e) else StorableCompact(e)
  }

  // What has been checked when the transaction begins, as far as the schema is concerned.
  predicate Checked(id: Identity, e: Envelope, now: Metric.Time) {
    ValidHeader(e) && e.agentId == id.agentId && TimelyFor(e, now)
  }

  lemma {:induction false} WritesAdmit(t: Tables, stmts: seq<Statement>, i: nat)
    requires Writes(t, stmts).Some? && i < |stmts|
    ensures Admits(stmts[i])
  {
    var n := |stmts| - 1;
    if i < n { WritesAdmit(t, stmts[..n], i); }
  }

  lemma {:induction false} LatestIndex(id: Identity, e: Envelope, now: Metric.Time, raw: bool, n: nat, k: nat) returns (i: nat)
    requires k < n <= |e.samples|
    ensures i < |SampleStatements(id, e, now, raw, n)|
    ensures SampleStatements(id, e, now, raw, n)[i] == LatestStatement(id, e.samples[k])
  {
    if k < n - 1 {
      i := LatestIndex(id, e, now, raw, n - 1, k);
    } else {
      i := |SampleStatements(id, e, now, raw, n)| - 1;
    }
  }

  lemma StoredSample(t: Tables, id: Identity, e: Envelope, now: Metric.Time, raw: bool, k: nat)
    requires Writes(t, Plan(id, e, now, raw)).Some? && k < |e.samples|
    ensures StorableReading(e.samples[k].deviceId, e.samples[k].metric.name, ReadingOf(e.samples[k].metric))
  {
    var i := LatestIndex(id, e, now, raw, |e.samples|, k);
    SampleStatementInPlan(id, e, now, raw, i);
    WritesAdmit(t, Plan(id, e, now, raw), 1 + i);
  }

  lemma StoredContainer(t: Tables, id: Identity, e: Envelope, now: Metric.Time, raw: bool, k: nat)
    requires Writes(t, Plan(id, e, now, raw)).Some? && k < |e.containers|
    ensures StorableContainer(e.containers[k])
  {
    var i := 1 + |SampleStatements(id, e, now, raw, |e.samples|)| + k;
    assert Plan(id, e, now, raw)[i] == InventoryStatements(id, e, |e.containers|)[k];
    WritesAdmit(t, Plan(id, e, now, raw), i);
  }

  lemma StoredIsCompact(t: Tables, id: Identity, e: Envelope, now: Metric.Time, raw: bool)
    requires Writes(t, Plan(id, e, now, raw)).Some?
    ensures StorableCompact(e) && Admits(ReceiptStatement(id, e, now, raw))
  {
    var plan := Plan(id, e, now, raw);
    assert plan[0] == ReceiptStatement(id, e, now, raw);
    WritesAdmit(t, plan, 0);
    forall k | 0 <= k < |e.samples|
      ensures StorableReading(e.samples[k].deviceId, e.samples[k].metric.name, ReadingOf(e.samples[k].metric))
    {
      StoredSample(t, id, e, now, raw, k);
    }
    forall k | 0 <= k < |e.containers| ensures StorableContainer(e.containers[k]) {
      StoredContainer(t, id, e, now, raw, k);
    }
  }

  lemma StoredIsStorable(t: Tables, id: Identity, e: Envelope, now: Metric.Time, raw: bool)
    requires Writes(t, Plan(id, e, now, raw)).Some?
    ensures Storable(e, raw)
  {
    var plan := Plan(id, e, now, raw);
    StoredIsCompact(t, id, e, now, raw);
    if raw {
      PlanFits(id, e, now, raw);
      forall j, k | 0 <= j < k < |e.samples|
        ensures SampleRowKey(Keys.EnvelopeKey(e), e.samples[j]) != SampleRowKey(Keys.EnvelopeKey(e), e.samples[k])
      {
        RawStatementAt(id, e, now, j);
        RawStatementAt(id, e, now, k);
        PlainInsertsDiffer(t, plan, 1 + 2 * j, 1 + 2 * k);
      }
    }
  }

  // ---------- What the schema can hold is admitted ----------

  lemma ReceiptAdmitted(id: Identity, e: Envelope, now: Metric.Time, raw: bool)
    requires Checked(id, e, now) && Storable(e, raw)
    ensures Admits(ReceiptStatement(id, e, now, raw))
  {
    var key := Keys.EnvelopeKey(e);
    assert forall i :: 0 <= i < |e.agentId| ==> key[i] == e.agentId[i];
  }

  lemma RawSampleAdmitted(id: Identity, e: Envelope, now: Metric.Time, i: nat)
    requires Checked(id, e, now) && StorableCompact(e) && i < |e.samples|
    ensures Admits(RawSampleStatement(e, e.samples[i], now))
  {
    assert e.samples[i].metric.observedAt <= now + MAX_FUTURE_OBSERVATION_SKEW;
  }

  lemma ClockAdmitted(id: Identity, e: Envelope, now: Metric.Time)
    ensures Admits(LatestStatement(id, ClockOffsetSample(e.observedAt, now)))
  {
    ClockTextsAreStorable();
  }

  lemma ClockTextsAreStorable()
    ensures StorableText("agent-clock") && StorableText("agent.clock_offset_seconds")
    ensures StorableText("nodescope-server") && StorableText("clock offset")
  {
  }

  // The rows of earlier samples, the only ones a raw sample could collide with.
  ghost predicate WrittenUpTo(t: Tables, id: Identity, e: Envelope, now: Metric.Time, raw: bool, n: nat)
    requires n <= |e.samples|
  {
    var done := [ReceiptStatement(id, e, now, raw)] + SampleStatements(id, e, now, raw, n);
    && Writes(t, done).Some?
    && forall k :: k in Writes(t, done).value && k.RawSampleKey? ==>
         exists i :: 0 <= i < n && k == SampleRowKey(Keys.EnvelopeKey(e), e.samples[i])
  }

  // A plain insert of an admitted row under a free key does not fail.
  lemma InsertWritten(t: Tables, stmts: seq<Statement>, s: Statement)
    requires Writes(t, stmts).Some? && Admits(s) && s.key !in t && s.key !in Writes(t, stmts).value
    ensures Writes(t, stmts + [s]).Some?
    ensures Writes(t, stmts + [s]).value.Keys == Writes(t, stmts).value.Keys + {s.key}
  {
    PostgresStore.WritesNext(t, stmts, s);
  }

  // An upsert of an admitted row never fails.
  lemma UpsertWritten(t: Tables, stmts: seq<Statement>, s: Statement)
    requires Writes(t, stmts).Some? && Admits(s) && Upserts(s.row)
    ensures Writes(t, stmts + [s]).Some?
    ensures Writes(t, stmts + [s]).value.Keys == Writes(t, stmts).value.Keys + {s.key}
  {
    PostgresStore.WritesNext(t, stmts, s);
  }

  lemma SampleWritten(t: Tables, id: Identity, e: Envelope, now: Metric.Time, raw: bool, n: nat)
    requires Checked(id, e, now) && Storable(e, raw) && BatchIntact(t, Keys.EnvelopeKey(e)) && !Received(t, Keys.EnvelopeKey(e))
    requires n < |e.samples| && WrittenUpTo(t, id, e, now, raw, n)
    ensures WrittenUpTo(t, id, e, now, raw, n + 1)
  {
    var receipt := [ReceiptStatement(id, e, now, raw)];
    var before := receipt + SampleStatements(id, e, now, raw, n);
    var key := SampleRowKey(Keys.EnvelopeKey(e), e.samples[n]);
    PostgresStore.SamplesNext(id, e, now, raw, n, receipt);
    if raw {
      assert key !in t by { assert key in t ==> key in OwnSamples(t, Keys.EnvelopeKey(e)); }
      RawSampleAdmitted(id, e, now, n);
      InsertWritten(t, before, RawSampleStatement(e, e.samples[n], now));
      before := before + [RawSampleStatement(e, e.samples[n], now)];
    }
    UpsertWritten(t, before, LatestStatement(id, e.samples[n]));
    assert before + [LatestStatement(id, e.samples[n])] == receipt + SampleStatements(id, e, now, raw, n + 1);
  }

  lemma {:induction false} SamplesWritten(t: Tables, id: Identity, e: Envelope, now: Metric.Time, raw: bool, n: nat)
    requires Checked(id, e, now) && Storable(e, raw) && BatchIntact(t, Keys.EnvelopeKey(e)) && !Received(t, Keys.EnvelopeKey(e))
    requires n <= |e.samples|
    ensures WrittenUpTo(t, id, e, now, raw, n)
  {
    if n == 0 {
      ReceiptAdmitted(id, e, now, raw);
      PostgresStore.WritesNext(t, [], ReceiptStatement(id, e, now, raw));
      assert [] + [ReceiptStatement(id, e, now, raw)] == [ReceiptStatement(id, e, now, raw)];
      assert [ReceiptStatement(id, e, now, raw)] + SampleStatements(id, e, now, raw, 0) == [ReceiptStatement(id, e, now, raw)];
    } else {
      SamplesWritten(t, id, e, now, raw, n - 1);
      SampleWritten(t, id, e, now, raw, n - 1);
    }
  }

  lemma {:induction false} ContainersWritten(t: Tables, id: Identity, e: Envelope, done: seq<Statement>, n: nat)
    requires Writes(t, done).Some? && StorableCompact(e) && n <= |e.containers|
    ensures Writes(t, done + InventoryStatements(id, e, n)).Some?
  {
    if n == 0 {
      assert done + InventoryStatements(id, e, 0) == done;
    } else {
      ContainersWritten(t, id, e, done, n - 1);
      PostgresStore.InventoryNext(id, e, n - 1, done);
      UpsertWritten(t, done + InventoryStatements(id, e, n - 1), InventoryStatement(id, e, e.containers[n - 1]));
    }
  }

  // A checked submission whose key is new is stored exactly when the schema can hold it in the
  // retention mode in force.
  lemma StoredExactlyWhenStorable(t: Tables, id: Identity, e: Envelope, now: Metric.Time, raw: bool)
    requires Checked(id, e, now) && BatchIntact(t, Keys.EnvelopeKey(e)) && !Received(t, Keys.EnvelopeKey(e))
    ensures Persist(t, id, e, now, raw).Some? <==> Storable(e, raw)
  {
    if Persist(t, id, e, now, raw).Some? {
      StoredIsStorable(t, id, e, now, raw);
    }
    if Storable(e, raw) {
      SamplesWritten(t, id, e, now, raw, |e.samples|);
      var samples := [ReceiptStatement(id, e, now, raw)] + SampleStatements(id, e, now, raw, |e.samples|);
      ContainersWritten(t, id, e, samples, |e.containers|);
      ClockAdmitted(id, e, now);
      UpsertWritten(t, samples + InventoryStatements(id, e, |e.containers|), LatestStatement(id, ClockOffsetSample(e.observedAt, now)));
    }
  }

  // Whether the same valid submission is stored can therefore hinge on the capacity flag:
  // exactly when compact mode can hold it and raw mode cannot. Raw mode never holds more.
  lemma CapacityDecides(t: Tables, id: Identity, e: Envelope, now: Metric.Time)
    requires Checked(id, e, now) && BatchIntact(t, Keys.EnvelopeKey(e)) && !Received(t, Keys.EnvelopeKey(e))
    ensures Persist(t, id, e, now, false).Some? != Persist(t, id, e, now, true).Some? <==> StorableCompact(e) && !StorableRaw(e)
    ensures Persist(t, id, e, now, true).Some? ==> Persist(t, id, e, now, false).Some?
  {
    StoredExactlyWhenStorable(t, id, e, now, false);
    StoredExactlyWhenStorable(t, id, e, now, true);
  }

  // Valid envelopes of that kind: two readings of one metric, more than 4,096 values, a
  // sequence beyond the signed 64-bit range, or a reading that is infinite or no number.
  lemma CompactOnly(e: Envelope)
    requires StorableCompact(e)
    requires || (exists i, j :: 0 <= i < j < |e.samples|
                  && SampleRowKey(Keys.EnvelopeKey(e), e.samples[i]) == SampleRowKey(Keys.EnvelopeKey(e), e.samples[j]))
             || e.metricValueCount > MAX_STORED_METRIC_COUNT
             || e.sequence >= BIGINT_LIMIT
             || (exists i :: 0 <= i < |e.samples| && e.samples[i].metric.value.Some? && !e.samples[i].metric.value.value.Finite?)
    ensures !StorableRaw(e)
  {
  }

  // A boot ID that makes the key longer than 256 characters passes validation and is refused
  // in either mode.
  lemma LongKeyIsNeverStored(t: Tables, id: Identity, e: Envelope, now: Metric.Time, raw: bool)
    requires !Received(t, Keys.EnvelopeKey(e))
    requires |SqlTrim(Keys.EnvelopeKey(e))| > MAX_KEY_LENGTH
    ensures Persist(t, id, e, now, raw).None?
  {
    if Persist(t, id, e, now, raw).Some? {
      StoredIsStorable(t, id, e, now, raw);
      assert false;
    }
  }

  // An experimental reading is valid and has a rank of its own, yet no mode stores it.
  lemma ExperimentalIsNeverStored(t: Tables, id: Identity, e: Envelope, now: Metric.Time, raw: bool, i: nat)
    requires !Received(t, Keys.EnvelopeKey(e))
    requires i < |e.samples| && e.samples[i].metric.quality == Metric.Experimental
    ensures Persist(t, id, e, now, raw).None?
  {
    if Persist(t, id, e, now, raw).Some? {
      StoredIsStorable(t, id, e, now, raw);
      assert false;
    }
  }

  // ---------- The schema's conditions in plain terms ----------

  predicate NoNul(s: string) {
    forall c :: c in s ==> c != '\0'
  }

  // SQL's trim leaves the part between the spaces at the ends.
  lemma {:induction false} TrimLeavesTheMiddle(s: string) returns (i: nat, j: nat)
    ensures i <= j <= |s| && SqlTrim(s) == s[i..j]
    ensures (forall k :: 0 <= k < i ==> s[k] == ' ') && (forall k :: j <= k < |s| ==> s[k] == ' ')
    ensures i < j ==> s[i] != ' ' && s[j - 1] != ' '
    decreases |s|
  {
    if s != [] && s[0] == ' ' {
      i, j := TrimLeavesTheMiddle(s[1..]);
      i, j := i + 1, j + 1;
    } else if s != [] && s[|s| - 1] == ' ' {
      i, j := TrimLeavesTheMiddle(s[..|s| - 1]);
    } else {
      i, j := 0, |s|;
    }
  }

  predicate FitsLatest(s: Sample) {
    && s.metric.quality in {Metric.Fresh, Metric.Stale, Metric.Unavailable, Metric.Unsupported, Metric.Estimated}
    && NoNul(s.deviceId) && NoNul(s.metric.name) && NoNul(s.metric.source) && NoNul(s.metric.semantics)
  }

  predicate FitsInventory(c: Container) {
    && (exists letter :: letter in c.health && letter != ' ')
    && NoNul(c.containerId) && NoNul(c.name) && NoNul(c.image) && NoNul(c.state) && NoNul(c.health)
  }

  predicate FitsPayload(s: Sample) {
    NoNul(s.metric.unit) && (s.metric.value.Some? ==> s.metric.value.value.Finite?)
  }

  // Without space at its ends a key fits exactly from 8 to 256 characters.
  lemma KeyFits(key: string)
    ensures StorableKey(key) <==> NoNul(key) && 8 <= |SqlTrim(key)| <= 256
    ensures key != [] && key[0] != ' ' && key[|key| - 1] != ' ' ==> SqlTrim(key) == key
  {
  }

  // Compact mode needs a key that fits, and columns that hold every reading and container.
  lemma CompactFitsExactly(e: Envelope)
    ensures StorableCompact(e) <==>
            && StorableKey(Keys.EnvelopeKey(e))
            && (forall i :: 0 <= i < |e.samples| ==> FitsLatest(e.samples[i]))
            && (forall i :: 0 <= i < |e.containers| ==> FitsInventory(e.containers[i]))
  {
    forall i | 0 <= i < |e.samples|
      ensures StorableReading(e.samples[i].deviceId, e.samples[i].metric.name, ReadingOf(e.samples[i].metric)) <==> FitsLatest(e.samples[i])
    {
    }
    forall i | 0 <= i < |e.containers| ensures StorableContainer(e.containers[i]) <==> FitsInventory(e.containers[i]) {
    }
  }

  // Of a valid envelope raw mode needs in addition at most 4,096 values, a sequence of 63 bits,
  // a payload that JSON can hold, and one reading for each device and metric.
  lemma RawFitsExactly(e: Envelope)
    requires ValidEnvelope(e) && StorableCompact(e)
    ensures StorableRaw(e) <==>
            && e.metricValueCount <= 4_096 && e.sequence <= 0x7fff_ffff_ffff_ffff
            && NoNul(e.agentId) && NoNul(e.hostId) && NoNul(e.bootId)
            && (forall i :: 0 <= i < |e.samples| ==> FitsPayload(e.samples[i]))
            && (forall i, j :: 0 <= i < j < |e.samples| ==> !SameSeries(e.samples[i], e.samples[j]))
  {
    CompactFitsExactly(e);
    HeaderHasNoNul(e);
    forall i, j | 0 <= i < j < |e.samples|
      ensures SampleRowKey(Keys.EnvelopeKey(e), e.samples[i]) == SampleRowKey(Keys.EnvelopeKey(e), e.samples[j])
         <==> SameSeries(e.samples[i], e.samples[j])
    {
    }
  }

  lemma HeaderHasNoNul(e: Envelope)
    requires ValidEnvelope(e)
    ensures NoNul(e.codec) && NoNul(e.checksumSha256)
  {
  }
}
