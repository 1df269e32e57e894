// What the committed rows show of the submissions, told by the columns themselves: which
// reading a latest row holds, which container an inventory row, what a raw batch keeps, and
// what the retention job takes away.
module StoredRows {
  import opened Wrappers
  import Metric
  import opened Envelopes
  import Keys = IdempotencyKeys
  import MergeOrder
  import opened Tables
  import opened Transactions
  import LatestState
  import RawBatches
  import EnvelopeOrder

  // ---------- Evidence for a latest row ----------

  // A stored reading drops the unit and what lies below the microsecond.
  predicate Stores(r: StoredReading, m: Metric.MetricValue) {
    && r.value == m.value && r.quality == m.quality && r.source == m.source && r.semantics == m.semantics
    && r.observedAt == m.observedAt - m.observedAt % 1000
  }

  // The clock sample tells how many seconds the receipt is ahead of the observation, and is
  // stale beyond a minute in either direction.
  predicate TellsClock(r: StoredReading, observedAt: Metric.Time, now: Metric.Time) {
    && r.value.Some? && r.value.value.Finite? && r.value.value.x * 1_000_000_000.0 == (now - observedAt) as real
    && r.quality == (if now - observedAt > 60_000_000_000 || observedAt - now > 60_000_000_000 then Metric.Stale else Metric.Fresh)
    && r.source == "nodescope-server" && r.observedAt == now - now % 1000
  }

  // A stored submission of the host holds this reading of the series, or the series is the
  // clock offset the server adds.
  ghost predicate Evidence(event: Event, hostId: string, deviceId: string, name: string, r: StoredReading) {
    && event.Inserted? && event.identity.hostId == hostId
    && (|| (exists k :: 0 <= k < |event.envelope.samples| && SampleEvidence(event.envelope.samples[k], deviceId, name, r))
        || (deviceId == "agent-clock" && name == "agent.clock_offset_seconds"
            && TellsClock(r, event.envelope.observedAt, event.now)
            && r.semantics == ClockOffsetSample(event.envelope.observedAt, event.now).metric.semantics))
  }

  predicate SampleEvidence(s: Sample, deviceId: string, name: string, r: StoredReading) {
    s.deviceId == deviceId && s.metric.name == name && Stores(r, s.metric)
  }

  lemma ReadingStores(m: Metric.MetricValue, r: StoredReading)
    ensures Stores(r, m) <==> r == ReadingOf(m)
  {
  }

  lemma ClockTells(observedAt: Metric.Time, now: Metric.Time, r: StoredReading)
    ensures var clock := ClockOffsetSample(observedAt, now);
            && clock.deviceId == "agent-clock" && clock.metric.name == "agent.clock_offset_seconds"
            && (r == ReadingOf(clock.metric) <==> TellsClock(r, observedAt, now) && r.semantics == clock.metric.semantics)
  {
    var x, second := (now - observedAt) as real / 1_000_000_000.0, 1_000_000_000.0;
    assert x * second == (now - observedAt) as real;
  }

  lemma {:induction false} SampleRowIn(ss: seq<Sample>, k: nat)
    requires k < |ss|
    ensures LatestRow(ReadingOf(ss[k].metric)) in EnvelopeOrder.SampleRows(ss, ss[k].deviceId, ss[k].metric.name)
  {
    if k < |ss| - 1 { SampleRowIn(ss[..|ss| - 1], k); }
  }

  // What a transaction brings for a latest row is the evidence it holds.
  lemma BroughtIsEvidence(event: Event, hostId: string, deviceId: string, name: string, row: Row)
    requires event.Inserted? && event.identity.hostId == hostId
    ensures row in LatestState.BroughtBy(event, LatestKey(hostId, deviceId, name)) <==>
            row.LatestRow? && Evidence(event, hostId, deviceId, name, row.reading)
  {
    var e, now, brought := event.envelope, event.now, LatestState.BroughtBy(event, LatestKey(hostId, deviceId, name));
    EnvelopeOrder.PlanBrings(event.identity, e, now, event.raw, deviceId, name);
    if row in brought {
      BroughtHasSource(e, now, deviceId, name, row);
    }
    if row.LatestRow? && Evidence(event, hostId, deviceId, name, row.reading) {
      EvidenceIsBrought(e, now, deviceId, name, row.reading);
    }
  }

  lemma BroughtHasSource(e: Envelope, now: Metric.Time, deviceId: string, name: string, row: Row)
    requires row in EnvelopeOrder.SampleRows(e.samples, deviceId, name) + EnvelopeOrder.ClockRows(e, now, deviceId, name)
    ensures row.LatestRow?
    ensures || (exists k :: 0 <= k < |e.samples| && SampleEvidence(e.samples[k], deviceId, name, row.reading))
            || (deviceId == "agent-clock" && name == "agent.clock_offset_seconds" && TellsClock(row.reading, e.observedAt, now)
                && row.reading.semantics == ClockOffsetSample(e.observedAt, now).metric.semantics)
  {
    if row in EnvelopeOrder.SampleRows(e.samples, deviceId, name) {
      var k := EnvelopeOrder.SampleRowSource(e.samples, deviceId, name, row);
      ReadingStores(e.samples[k].metric, row.reading);
      assert SampleEvidence(e.samples[k], deviceId, name, row.reading);
    } else {
      ClockTells(e.observedAt, now, row.reading);
    }
  }

  lemma EvidenceIsBrought(e: Envelope, now: Metric.Time, deviceId: string, name: string, r: StoredReading)
    requires || (exists k :: 0 <= k < |e.samples| && SampleEvidence(e.samples[k], deviceId, name, r))
             || (deviceId == "agent-clock" && name == "agent.clock_offset_seconds" && TellsClock(r, e.observedAt, now)
                 && r.semantics == ClockOffsetSample(e.observedAt, now).metric.semantics)
    ensures LatestRow(r) in EnvelopeOrder.SampleRows(e.samples, deviceId, name) + EnvelopeOrder.ClockRows(e, now, deviceId, name)
  {
    if exists k :: 0 <= k < |e.samples| && SampleEvidence(e.samples[k], deviceId, name, r) {
      var k :| 0 <= k < |e.samples| && SampleEvidence(e.samples[k], deviceId, name, r);
      ReadingStores(e.samples[k].metric, r);
      SampleRowIn(e.samples, k);
    } else {
      ClockTells(e.observedAt, now, r);
    }
  }

  lemma {:induction false} ArrivedFrom(log: seq<Event>, key: RowKey, row: Row) returns (n: nat)
    requires row in LatestState.Arrivals(log, key)
    ensures n < |log| && row in LatestState.BroughtBy(log[n], key)
  {
    n := |log| - 1;
    if row !in LatestState.BroughtBy(log[n], key) { n := ArrivedFrom(log[..n], key, row); }
  }

  lemma {:induction false} HasArrived(log: seq<Event>, key: RowKey, row: Row, n: nat)
    requires n < |log| && row in LatestState.BroughtBy(log[n], key)
    ensures row in LatestState.Arrivals(log, key)
  {
    if n < |log| - 1 { HasArrived(log[..|log| - 1], key, row, n); }
  }

  lemma OtherHostsBringNone(event: Event, key: RowKey)
    requires key.LatestKey? && event.Inserted? && event.identity.hostId != key.hostId
    ensures LatestState.BroughtBy(event, key) == []
  {
    var other := (s: Statement) => s.key != key;
    EachStatement(event.identity, event.envelope, event.now, event.raw, other);
    assert Each(Plan(event.identity, event.envelope, event.now, event.raw), other);
    EnvelopeOrder.OthersBringNone(Plan(event.identity, event.envelope, event.now, event.raw), key);
  }

  // A latest row is there exactly when there is evidence for it, and holds some of it.
  lemma LatestComesFromEvidence(log: seq<Event>, hostId: string, deviceId: string, name: string)
    requires Replay(log).Some?
    ensures var t, key := Replay(log).value, LatestKey(hostId, deviceId, name);
            && (key in t ==> t[key].LatestRow? && exists n :: 0 <= n < |log| && Evidence(log[n], hostId, deviceId, name, t[key].reading))
            && (forall n, r :: 0 <= n < |log| && Evidence(log[n], hostId, deviceId, name, r) ==> key in t)
  {
    var key := LatestKey(hostId, deviceId, name);
    var arrivals := LatestState.Arrivals(log, key);
    LatestState.LatestIsMerge(log, key);
    if arrivals != [] {
      var i := MergeOrder.RemainingRow(RowRank, true, arrivals);
      var n := ArrivedFrom(log, key, arrivals[i]);
      if log[n].identity.hostId != hostId {
        OtherHostsBringNone(log[n], key);
        assert false;
      }
      BroughtIsEvidence(log[n], hostId, deviceId, name, arrivals[i]);
    }
    forall n, r | 0 <= n < |log| && Evidence(log[n], hostId, deviceId, name, r) ensures key in Replay(log).value {
      EvidenceArrives(log, hostId, deviceId, name, n, r);
    }
  }

  lemma EvidenceArrives(log: seq<Event>, hostId: string, deviceId: string, name: string, n: nat, r: StoredReading)
    requires n < |log| && Evidence(log[n], hostId, deviceId, name, r)
    ensures LatestRow(r) in LatestState.Arrivals(log, LatestKey(hostId, deviceId, name))
  {
    BroughtIsEvidence(log[n], hostId, deviceId, name, LatestRow(r));
    HasArrived(log, LatestKey(hostId, deviceId, name), LatestRow(r), n);
  }

  // An arrival never ranks above the row left.
  lemma ArrivalIsNoBetter(log: seq<Event>, key: RowKey, row: Row)
    requires Replay(log).Some? && LatestState.IsLatest(key) && row in LatestState.Arrivals(log, key)
    ensures key in Replay(log).value && Replay(log).value[key] in LatestState.Arrivals(log, key)
    ensures !MergeOrder.Less(RowRank(Replay(log).value[key]), RowRank(row))
  {
    var arrivals := LatestState.Arrivals(log, key);
    LatestState.LatestIsMerge(log, key);
    var i := MergeOrder.RemainingRow(RowRank, key.LatestKey?, arrivals);
    var j :| 0 <= j < |arrivals| && arrivals[j] == row;
  }

  lemma NoBetterReading(left: StoredReading, r: StoredReading)
    requires !MergeOrder.Less(RowRank(LatestRow(left)), RowRank(LatestRow(r)))
    ensures r.observedAt <= left.observedAt
    ensures r.observedAt == left.observedAt ==> !MoreConfident(r.quality, left.quality) && (r.quality.Fresh? ==> left.quality.Fresh?)
  {
    RanksAreConfidence(r.quality, left.quality);
  }

  // After any history no evidence is later than the row left, and none of its own date is more
  // confident; once it holds the date of a fresh reading it is fresh.
  lemma NoEvidenceIsBetter(log: seq<Event>, hostId: string, deviceId: string, name: string, n: nat, r: StoredReading)
    requires Replay(log).Some? && n < |log| && Evidence(log[n], hostId, deviceId, name, r)
    ensures var t, key := Replay(log).value, LatestKey(hostId, deviceId, name);
            && key in t && t[key].LatestRow?
            && r.observedAt <= t[key].reading.observedAt
            && (r.observedAt == t[key].reading.observedAt ==>
                  && !MoreConfident(r.quality, t[key].reading.quality)
                  && (r.quality.Fresh? ==> t[key].reading.quality.Fresh?))
  {
    var t, key := Replay(log).value, LatestKey(hostId, deviceId, name);
    EvidenceArrives(log, hostId, deviceId, name, n, r);
    ArrivalIsNoBetter(log, key, LatestRow(r));
    LatestComesFromEvidence(log, hostId, deviceId, name);
    NoBetterReading(t[key].reading, r);
  }

  // ---------- Inventory ----------

  lemma MiddleBrings(head: seq<Statement>, middle: seq<Statement>, tail: seq<Statement>, key: RowKey)
    requires LatestState.Brought(head, key) == [] && LatestState.Brought(tail, key) == []
    ensures LatestState.Brought(head + middle + tail, key) == LatestState.Brought(middle, key)
  {
    EnvelopeOrder.BroughtSplits(head + middle, tail, key);
    EnvelopeOrder.BroughtSplits(head, middle, key);
  }

  // Containers are distinct, so only the statement of one brings anything for it.
  lemma InventoryBrings(id: Identity, e: Envelope, i: nat)
    requires ValidContainers(e.containers) && i < |e.containers|
    ensures LatestState.Brought(InventoryStatements(id, e, |e.containers|), InventoryKey(id.hostId, e.containers[i].containerId))
         == [InventoryRow(e.containers[i], Micros(e.observedAt))]
  {
    var stmts, key := InventoryStatements(id, e, |e.containers|), InventoryKey(id.hostId, e.containers[i].containerId);
    var head, tail := stmts[..i], stmts[i + 1..];
    forall k | 0 <= k < |tail| ensures tail[k].key != key {
      assert tail[k] == InventoryStatement(id, e, e.containers[i + 1 + k]);
    }
    EnvelopeOrder.OthersBringNone(head, key);
    EnvelopeOrder.OthersBringNone(tail, key);
    MiddleBrings(head, [stmts[i]], tail, key);
    assert stmts == head + [stmts[i]] + tail;
    EnvelopeOrder.BroughtOne(stmts[i], key);
  }

  // Of a whole plan only the inventory statements bring anything for a container.
  lemma PlanBringsInventory(id: Identity, e: Envelope, now: Metric.Time, raw: bool, key: RowKey)
    requires key.InventoryKey?
    ensures LatestState.Brought(Plan(id, e, now, raw), key) == LatestState.Brought(InventoryStatements(id, e, |e.containers|), key)
  {
    var head := [ReceiptStatement(id, e, now, raw)] + SampleStatements(id, e, now, raw, |e.samples|);
    var clock := LatestStatement(id, ClockOffsetSample(e.observedAt, now));
    HeadBringsNoInventory(id, e, now, raw, key);
    EnvelopeOrder.BroughtOne(clock, key);
    MiddleBrings(head, InventoryStatements(id, e, |e.containers|), [clock], key);
  }

  lemma HeadBringsNoInventory(id: Identity, e: Envelope, now: Metric.Time, raw: bool, key: RowKey)
    requires key.InventoryKey?
    ensures LatestState.Brought([ReceiptStatement(id, e, now, raw)] + SampleStatements(id, e, now, raw, |e.samples|), key) == []
  {
    var other := (s: Statement) => s.key != key;
    EachSampleStatement(id, e, now, raw, |e.samples|, other);
    assert Each([ReceiptStatement(id, e, now, raw)], other);
    EachTogether([ReceiptStatement(id, e, now, raw)], SampleStatements(id, e, now, raw, |e.samples|), other);
    EnvelopeOrder.OthersBringNone([ReceiptStatement(id, e, now, raw)] + SampleStatements(id, e, now, raw, |e.samples|), key);
  }

  lemma OneContainerMerges(found: Option<Row>, c: Container, at: Metric.Time)
    requires found.Some? ==> found.value.InventoryRow?
    ensures MergeOrder.MergeAll(RowRank, false, found, [InventoryRow(c, at)])
         == if found.Some? && found.value.observedAt > at then found else Some(InventoryRow(c, at))
  {
    assert [InventoryRow(c, at)][..0] == [];
  }

  lemma InventoryMerges(t: Tables, id: Identity, e: Envelope, now: Metric.Time, raw: bool, u: Tables, i: nat)
    requires Persist(t, id, e, now, raw) == Some((u, PersistResult(true, raw)))
    requires ValidContainers(e.containers) && i < |e.containers|
    ensures var key := InventoryKey(id.hostId, e.containers[i].containerId);
            Lookup(u, key) == MergeOrder.MergeAll(RowRank, false, Lookup(t, key), [InventoryRow(e.containers[i], Micros(e.observedAt))])
  {
    var key := InventoryKey(id.hostId, e.containers[i].containerId);
    LatestState.InsertMerges(t, id, e, now, raw, key);
    PlanBringsInventory(id, e, now, raw, key);
    InventoryBrings(id, e, i);
  }

  // A stored submission leaves for each of its containers the row it brings, whole, unless the
  // row there is dated later than the submission; a container it does not name keeps its row.
  lemma InventoryAfter(t: Tables, id: Identity, e: Envelope, now: Metric.Time, raw: bool, u: Tables, i: nat)
    requires Persist(t, id, e, now, raw) == Some((u, PersistResult(true, raw)))
    requires ValidContainers(e.containers) && i < |e.containers|
    requires var found := Lookup(t, InventoryKey(id.hostId, e.containers[i].containerId)); found.Some? ==> found.value.InventoryRow?
    ensures var key, at := InventoryKey(id.hostId, e.containers[i].containerId), e.observedAt - e.observedAt % 1000;
            Lookup(u, key) == if key in t && t[key].observedAt > at then Some(t[key]) else Some(InventoryRow(e.containers[i], at))
  {
    InventoryMerges(t, id, e, now, raw, u, i);
    OneContainerMerges(Lookup(t, InventoryKey(id.hostId, e.containers[i].containerId)), e.containers[i], Micros(e.observedAt));
  }

  lemma UnnamedContainerIsKept(t: Tables, id: Identity, e: Envelope, now: Metric.Time, raw: bool, u: Tables, key: RowKey)
    requires Persist(t, id, e, now, raw) == Some((u, PersistResult(true, raw)))
    requires key.InventoryKey?
    requires key.hostId != id.hostId || forall i :: 0 <= i < |e.containers| ==> e.containers[i].containerId != key.containerId
    ensures Lookup(u, key) == Lookup(t, key)
  {
    LatestState.InsertMerges(t, id, e, now, raw, key);
    PlanBringsInventory(id, e, now, raw, key);
    EnvelopeOrder.OthersBringNone(InventoryStatements(id, e, |e.containers|), key);
  }

  // ---------- Raw rows ----------

  // In raw mode the receipt keeps the whole submission, and each of its readings has a row of
  // its own that expires with it.
  lemma RawRowsAfter(t: Tables, id: Identity, e: Envelope, now: Metric.Time, u: Tables, k: nat)
    requires Persist(t, id, e, now, true) == Some((u, PersistResult(true, true))) && k < |e.samples|
    ensures var key, s := Keys.EnvelopeKey(e), e.samples[k];
            var row := Lookup(u, RawSampleKey(key, s.deviceId, s.metric.name));
            && row.Some? && row.value.RawSampleRow? && Stores(row.value.reading, s.metric)
            && BatchKey(key) in u && u[BatchKey(key)] == BatchRow(e, row.value.expiresAt)
            && row.value.expiresAt == now + 172_800_000_000_000 - (now + 172_800_000_000_000) % 1000
  {
    InsertedReceipt(t, id, e, now, true);
    ExpiresInTwoDays(now);
    RawBatches.RawPlanRows(t, id, e, now);
    ReadingStores(e.samples[k].metric, ReadingOf(e.samples[k].metric));
  }

  // ---------- Retention ----------

  // The retention job may delete any raw batches that have expired, and no other; it takes their
  // samples along and touches nothing else.
  lemma RetentionExactly(hash: string -> int, db: Db, keys: set<string>, cutoff: Metric.Time)
    ensures Exec(hash, db, Retain(keys, cutoff)).Some? <==>
            forall id :: id in keys ==>
              BatchKey(id) in db.tables && db.tables[BatchKey(id)].BatchRow? && db.tables[BatchKey(id)].expiresAt <= cutoff
    ensures Exec(hash, db, Retain(keys, cutoff)).Some? ==>
              var after := Exec(hash, db, Retain(keys, cutoff)).value;
              && after.requests == db.requests && after.capacity == db.capacity
              && forall key :: Lookup(after.tables, key)
                   == if (key.BatchKey? || key.RawSampleKey?) && key.id in keys then None else Lookup(db.tables, key)
  {
  }
}
