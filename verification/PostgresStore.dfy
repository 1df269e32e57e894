// PersistEnvelope as one replica runs it alone: the transaction collects its writes and only
// the commit shows them. Any database call may fail, the commit also after taking effect.
module PostgresStore {
  import opened Wrappers
  import Metric
  import Envelopes
  import Keys = IdempotencyKeys
  import opened Tables

  // fails(k): the k-th statement of the plan fails. The other faults are named by their call.
  datatype Faults = Faults(
    begin: bool,
    lock: bool,
    check: bool,
    capacity: bool,
    fails: nat -> bool,
    commit: bool,
    commitTookEffect: bool)

  ghost predicate NoFaults(f: Faults) {
    !f.begin && !f.lock && !f.check && !f.capacity && !f.commit && forall k :: !f.fails(k)
  }

  lemma WritesNext(t: Tables, stmts: seq<Statement>, s: Statement)
    requires Writes(t, stmts).Some?
    ensures var written := Writes(t, stmts).value;
            Writes(t, stmts + [s]) == match Execute(Lookup(t + written, s.key), s)
                                      case None => None
                                      case Some(row) => Some(written[s.key := row])
  {
    assert (stmts + [s])[..|stmts + [s]| - 1] == stmts;
  }

  lemma {:induction false} WritesFailOn(t: Tables, stmts: seq<Statement>, more: seq<Statement>)
    requires Writes(t, stmts).None?
    ensures Writes(t, stmts + more).None?
  {
    if more == [] {
      assert stmts + more == stmts;
    } else {
      WritesFailOn(t, stmts, more[..|more| - 1]);
      assert (stmts + more)[..|stmts + more| - 1] == stmts + more[..|more| - 1];
    }
  }

  // What a list of statements has produced so far: their writes, or nothing when one failed;
  // without faults it fails only when the statements themselves do.
  ghost predicate Produced(t: Tables, stmts: seq<Statement>, fails: nat -> bool, r: Option<Tables>) {
    && (r.Some? ==> r == Writes(t, stmts))
    && (r.None? && (forall k :: !fails(k)) ==> Writes(t, stmts).None?)
  }

  class Store {
    var tables: Tables
    var capacity: Option<bool>

    constructor ()
      ensures tables == map[] && capacity == None
    {
      tables, capacity := map[], None;
    }

    // One statement inside the transaction, after the statements done; None when it fails.
    method Exec(ghost done: seq<Statement>, written: Tables, s: Statement, fails: bool) returns (r: Option<Tables>)
      requires Writes(tables, done) == Some(written)
      ensures fails ==> r.None?
      ensures !fails ==> r == Writes(tables, done + [s])
    {
      WritesNext(tables, done, s);
      if fails { return None; }
      var row := Execute(Lookup(tables + written, s.key), s);
      if row.None? { return None; }
      r := Some(written[s.key := row.value]);
    }

    // One sample: a raw row when raw rows are kept, then the latest row.
    method WriteSample(id: Identity, e: Envelopes.Envelope, now: Metric.Time, raw: bool, i: nat, fails: nat -> bool, start: nat,
                       ghost done: seq<Statement>, written: Tables) returns (r: Option<Tables>, call: nat)
      requires i < |e.samples| && Writes(tables, done + SampleStatements(id, e, now, raw, i)) == Some(written)
      ensures Produced(tables, done + SampleStatements(id, e, now, raw, i + 1), fails, r)
    {
      ghost var before := done + SampleStatements(id, e, now, raw, i);
      call, r := start, Some(written);
      SamplesNext(id, e, now, raw, i, done);
      if raw {
        call := call + 1;
        r := Exec(before, written, RawSampleStatement(e, e.samples[i], now), fails(call));
        before := before + [RawSampleStatement(e, e.samples[i], now)];
        if r.None? {
          GiveUp(before, before + [LatestStatement(id, e.samples[i])]);
          return;
        }
      }
      call := call + 1;
      r := Exec(before, r.value, LatestStatement(id, e.samples[i]), fails(call));
      assert before + [LatestStatement(id, e.samples[i])] == done + SampleStatements(id, e, now, raw, i + 1);
    }

    // The next sample of the loop; a sample that cannot be written rules out the whole list.
    method WriteNextSample(id: Identity, e: Envelopes.Envelope, now: Metric.Time, raw: bool, i: nat, fails: nat -> bool, start: nat,
                           ghost done: seq<Statement>, written: Tables) returns (r: Option<Tables>, call: nat)
      requires i < |e.samples| && Writes(tables, done + SampleStatements(id, e, now, raw, i)) == Some(written)
      ensures r.Some? ==> r == Writes(tables, done + SampleStatements(id, e, now, raw, i + 1))
      ensures r.None? ==> Produced(tables, done + SampleStatements(id, e, now, raw, |e.samples|), fails, r)
    {
      r, call := WriteSample(id, e, now, raw, i, fails, start, done, written);
      if r.None? { SamplesGiveUp(id, e, now, raw, i + 1, done); }
    }

    method WriteSamples(id: Identity, e: Envelopes.Envelope, now: Metric.Time, raw: bool, fails: nat -> bool,
                        ghost done: seq<Statement>, written: Tables) returns (r: Option<Tables>, call: nat)
      requires Writes(tables, done) == Some(written)
      ensures Produced(tables, done + SampleStatements(id, e, now, raw, |e.samples|), fails, r)
    {
      r, call := Some(written), 0;
      assert done + SampleStatements(id, e, now, raw, 0) == done;
      for i := 0 to |e.samples|
        invariant r.Some? && r == Writes(tables, done + SampleStatements(id, e, now, raw, i))
      {
        r, call := WriteNextSample(id, e, now, raw, i, fails, call, done, r.value);
        if r.None? { return; }
      }
    }

    method WriteContainer(id: Identity, e: Envelopes.Envelope, i: nat, fails: bool,
                          ghost done: seq<Statement>, written: Tables) returns (r: Option<Tables>)
      requires i < |e.containers| && Writes(tables, done + InventoryStatements(id, e, i)) == Some(written)
      ensures fails ==> r.None?
      ensures !fails ==> r == Writes(tables, done + InventoryStatements(id, e, i + 1))
    {
      InventoryNext(id, e, i, done);
      r := Exec(done + InventoryStatements(id, e, i), written, InventoryStatement(id, e, e.containers[i]), fails);
    }

    method WriteNextContainer(id: Identity, e: Envelopes.Envelope, i: nat, fails: nat -> bool, call: nat,
                              ghost done: seq<Statement>, written: Tables) returns (r: Option<Tables>)
      requires i < |e.containers| && Writes(tables, done + InventoryStatements(id, e, i)) == Some(written)
      ensures r.Some? ==> r == Writes(tables, done + InventoryStatements(id, e, i + 1))
      ensures r.None? ==> Produced(tables, done + InventoryStatements(id, e, |e.containers|), fails, r)
    {
      r := WriteContainer(id, e, i, fails(call), done, written);
      if r.None? { InventoryGiveUp(id, e, i + 1, done); }
    }

    method WriteContainers(id: Identity, e: Envelopes.Envelope, fails: nat -> bool, start: nat,
                           ghost done: seq<Statement>, written: Tables) returns (r: Option<Tables>, call: nat)
      requires Writes(tables, done) == Some(written)
      ensures Produced(tables, done + InventoryStatements(id, e, |e.containers|), fails, r)
    {
      r, call := Some(written), start;
      assert done + InventoryStatements(id, e, 0) == done;
      for i := 0 to |e.containers|
        invariant r.Some? && r == Writes(tables, done + InventoryStatements(id, e, i))
      {
        call := call + 1;
        r := WriteNextContainer(id, e, i, fails, call, done, r.value);
        if r.None? { return; }
      }
    }

    // The transaction's writes: receipt, samples, containers, clock offset.
    method WriteAll(id: Identity, e: Envelopes.Envelope, now: Metric.Time, raw: bool, fails: nat -> bool) returns (r: Option<Tables>)
      ensures Produced(tables, Plan(id, e, now, raw), fails, r)
    {
      ghost var plan := Plan(id, e, now, raw);
      ghost var receipt := [ReceiptStatement(id, e, now, raw)];
      ghost var samples := receipt + SampleStatements(id, e, now, raw, |e.samples|);
      ghost var inventory := samples + InventoryStatements(id, e, |e.containers|);
      var clock := LatestStatement(id, ClockOffsetSample(e.observedAt, now));
      assert plan == inventory + [clock] && [] + receipt == receipt;
      r := Exec([], map[], ReceiptStatement(id, e, now, raw), fails(0));
      if r.None? {
        GiveUp(receipt, plan);
        return;
      }
      var call;
      r, call := WriteSamples(id, e, now, raw, fails, receipt, r.value);
      if r.None? {
        GiveUp(samples, plan);
        return;
      }
      r, call := WriteContainers(id, e, fails, call, samples, r.value);
      if r.None? {
        GiveUp(inventory, plan);
        return;
      }
      r := Exec(inventory, r.value, clock, fails(call + 1));
    }

    // A prefix that cannot be written rules out the whole list.
    lemma GiveUp(done: seq<Statement>, all: seq<Statement>)
      requires done <= all
      ensures Writes(tables, done).None? ==> Writes(tables, all).None?
    {
      if Writes(tables, done).None? {
        WritesFailOn(tables, done, all[|done|..]);
        assert done + all[|done|..] == all;
      }
    }

    lemma SamplesGiveUp(id: Identity, e: Envelopes.Envelope, now: Metric.Time, raw: bool, i: nat, done: seq<Statement>)
      requires i <= |e.samples|
      ensures Writes(tables, done + SampleStatements(id, e, now, raw, i)).None? ==>
                Writes(tables, done + SampleStatements(id, e, now, raw, |e.samples|)).None?
    {
      SamplesExtend(id, e, now, raw, i, |e.samples|);
      GiveUp(done + SampleStatements(id, e, now, raw, i), done + SampleStatements(id, e, now, raw, |e.samples|));
    }

    lemma InventoryGiveUp(id: Identity, e: Envelopes.Envelope, i: nat, done: seq<Statement>)
      requires i <= |e.containers|
      ensures Writes(tables, done + InventoryStatements(id, e, i)).None? ==>
                Writes(tables, done + InventoryStatements(id, e, |e.containers|)).None?
    {
      InventoryExtends(id, e, i, |e.containers|);
      GiveUp(done + InventoryStatements(id, e, i), done + InventoryStatements(id, e, |e.containers|));
    }

    method PersistEnvelope(id: Identity, e: Envelopes.Envelope, now: Metric.Time, f: Faults)
      returns (r: Result<PersistResult, PersistError>)
      modifies this`tables
      // A success is the atomic insert-if-absent; raw rows are kept when the capacity record is
      // there and grants it.
      ensures r.Ok? ==>
                && Acceptable(id, e, now)
                && Persist(old(tables), id, e, now, capacity == Some(true)) == Some((tables, r.value))
      ensures r.Ok? ==>
                var batch, receipt := BatchKey(Keys.EnvelopeKey(e)), ReceiptKey(Keys.EnvelopeKey(e));
                if batch in old(tables) || receipt in old(tables) then
                  tables == old(tables) && r.value == PersistResult(false, false)
                else
                  && r.value.inserted && (r.value.rawRetained <==> capacity == Some(true))
                  && (batch in tables <==> capacity == Some(true)) && (receipt in tables <==> capacity != Some(true))
      // After an error nothing has changed, except that a commit may have taken effect.
      ensures r.Err? && !(f.commit && f.commitTookEffect) ==> tables == old(tables)
      ensures tables == old(tables) ||
                Persist(old(tables), id, e, now, capacity == Some(true))
                == Some((tables, PersistResult(true, capacity == Some(true))))
      // Without faults the outcome is decided by the submission and the schema alone.
      ensures NoFaults(f) && Acceptable(id, e, now) ==>
                (r.Ok? <==> Persist(old(tables), id, e, now, capacity == Some(true)).Some?)
      ensures r.Err? && r.error != DatabaseFailure ==> !Acceptable(id, e, now)
      ensures r == Err(DatabaseFailure) ==> Acceptable(id, e, now)
    {
      if id.agentId == "" || id.hostId == "" { return Err(IncompleteIdentity); }
      if e.agentId != id.agentId || e.hostId != id.hostId { return Err(IdentityMismatch); }
      var invalid := Envelopes.Validate(e);
      if invalid.Some? { return Err(InvalidSubmission(invalid.value)); }
      var timely := Envelopes.ValidateReceiptTimes(e, now);
      if !timely { return Err(TooFarAhead); }
      if f.begin || f.lock || f.check { return Err(DatabaseFailure); }
      if BatchKey(Keys.EnvelopeKey(e)) in tables || ReceiptKey(Keys.EnvelopeKey(e)) in tables {
        return Ok(PersistResult(false, false));
      }
      if f.capacity { return Err(DatabaseFailure); }
      var raw := RawRetentionAllowed(capacity);
      var written := WriteAll(id, e, now, raw, f.fails);
      if written.None? { return Err(DatabaseFailure); }
      InsertedReceipt(tables, id, e, now, raw);
      if f.commit {
        if f.commitTookEffect { tables := tables + written.value; }
        return Err(DatabaseFailure);
      }
      tables := tables + written.value;
      r := Ok(PersistResult(true, raw));
    }
  }

  // ---------- Prefixes of the plan ----------

  lemma SamplesNext(id: Identity, e: Envelopes.Envelope, now: Metric.Time, raw: bool, i: nat, done: seq<Statement>)
    requires i < |e.samples|
    ensures done + SampleStatements(id, e, now, raw, i + 1)
         == done + SampleStatements(id, e, now, raw, i)
            + (if raw then [RawSampleStatement(e, e.samples[i], now)] else [])
            + [LatestStatement(id, e.samples[i])]
  {
  }

  lemma InventoryNext(id: Identity, e: Envelopes.Envelope, i: nat, done: seq<Statement>)
    requires i < |e.containers|
    ensures done + InventoryStatements(id, e, i + 1)
         == done + InventoryStatements(id, e, i) + [InventoryStatement(id, e, e.containers[i])]
  {
  }

  lemma {:induction false} SamplesExtend(id: Identity, e: Envelopes.Envelope, now: Metric.Time, raw: bool, i: nat, n: nat)
    requires i <= n <= |e.samples|
    ensures SampleStatements(id, e, now, raw, i) <= SampleStatements(id, e, now, raw, n)
  {
    if i < n { SamplesExtend(id, e, now, raw, i, n - 1); }
  }

  lemma {:induction false} InventoryExtends(id: Identity, e: Envelopes.Envelope, i: nat, n: nat)
    requires i <= n <= |e.containers|
    ensures InventoryStatements(id, e, i) <= InventoryStatements(id, e, n)
  {
    if i < n { InventoryExtends(id, e, i, n - 1); }
  }
}
