// The latest-metric and container rows after any history: each is the merge, in commit order,
// of everything ever brought for it, and never dated far ahead of the receipts.
module LatestState {
  import opened Wrappers
  import Metric
  import opened Envelopes
  import opened MergeOrder
  import opened Tables
  import opened Transactions

  predicate IsLatest(key: RowKey) {
    key.LatestKey? || key.InventoryKey?
  }

  // The rows the statements bring for one key, in order.
  function Brought(stmts: seq<Statement>, key: RowKey): seq<Row> {
    if stmts == [] then [] else
    var last := stmts[|stmts| - 1];
    Brought(stmts[..|stmts| - 1], key) + if last.key == key then [last.row] else []
  }

  function BroughtBy(event: Event, key: RowKey): seq<Row> {
    match event
    case Inserted(_, id, e, now, raw) => Brought(Plan(id, e, now, raw), key)
    case Purged(_, _) => []
  }

  function Arrivals(log: seq<Event>, key: RowKey): seq<Row> {
    if log == [] then [] else Arrivals(log[..|log| - 1], key) + BroughtBy(log[|log| - 1], key)
  }

  // One more statement for the key is one more merge; any other statement leaves it alone.
  lemma StatementMerges(t: Tables, written: Tables, s: Statement, key: RowKey)
    requires IsLatest(key) && Fits(s.key, s.row) && Execute(Lookup(t + written, s.key), s).Some?
    ensures Lookup(t + written[s.key := Execute(Lookup(t + written, s.key), s).value], key)
         == if s.key == key then Some(Merge(RowRank, key.LatestKey?, Lookup(t + written, key), s.row))
            else Lookup(t + written, key)
  {
  }

  lemma {:induction false} StatementsMerge(t: Tables, stmts: seq<Statement>, key: RowKey)
    requires IsLatest(key) && AllFit(stmts) && Writes(t, stmts).Some?
    ensures Lookup(t + Writes(t, stmts).value, key)
         == MergeAll(RowRank, key.LatestKey?, Lookup(t, key), Brought(stmts, key))
  {
    if stmts == [] {
      assert t + map[] == t;
    } else {
      var n := |stmts| - 1;
      var init, all := stmts[..n], Brought(stmts, key);
      assert AllFit(init) by { assert forall i :: 0 <= i < n ==> init[i] == stmts[i]; }
      StatementsMerge(t, init, key);
      StatementMerges(t, Writes(t, init).value, stmts[n], key);
      if stmts[n].key == key {
        assert all[..|all| - 1] == Brought(init, key) && all[|all| - 1] == stmts[n].row;
      } else {
        assert all == Brought(init, key);
      }
    }
  }

  lemma InsertMerges(t: Tables, id: Identity, e: Envelope, now: Metric.Time, raw: bool, key: RowKey)
    requires IsLatest(key) && Persist(t, id, e, now, raw).Some? && Persist(t, id, e, now, raw).value.1.inserted
    ensures Lookup(Persist(t, id, e, now, raw).value.0, key)
         == MergeAll(RowRank, key.LatestKey?, Lookup(t, key), Brought(Plan(id, e, now, raw), key))
  {
    PlanFits(id, e, now, raw);
    StatementsMerge(t, Plan(id, e, now, raw), key);
  }

  lemma PurgeKeepsLatest(t: Tables, keys: set<string>, key: RowKey)
    requires IsLatest(key)
    ensures Lookup(Purge(t, keys), key) == Lookup(t, key)
  {
    assert !OwnedBy(key, keys);
  }

  lemma EventMerges(t: Tables, event: Event, key: RowKey)
    requires IsLatest(key) && Apply(t, event).Some?
    ensures Lookup(Apply(t, event).value, key)
         == MergeAll(RowRank, key.LatestKey?, Lookup(t, key), BroughtBy(event, key))
  {
    match event
    case Inserted(_, id, e, now, raw) =>
      InsertMerges(t, id, e, now, raw, key);
    case Purged(keys, _) =>
      PurgeKeepsLatest(t, keys, key);
  }

  // Whatever the interleaving was, a latest row is the merge of all its arrivals.
  lemma {:induction false} LatestIsMerge(log: seq<Event>, key: RowKey)
    requires Replay(log).Some? && IsLatest(key)
    ensures Lookup(Replay(log).value, key) == MergeAll(RowRank, key.LatestKey?, None, Arrivals(log, key))
  {
    if log != [] {
      var init, last := log[..|log| - 1], log[|log| - 1];
      LatestIsMerge(init, key);
      EventMerges(Replay(init).value, last, key);
      MergeAllSplits(RowRank, key.LatestKey?, None, Arrivals(init, key), BroughtBy(last, key));
    }
  }

  // Histories that brought the same rows for a key in any order agree on the date and quality
  // of the row that remains, and on the whole row when its best arrivals agree.
  lemma {:induction false} LatestConverges(log: seq<Event>, other: seq<Event>, key: RowKey)
    requires Replay(log).Some? && Replay(other).Some? && IsLatest(key)
    requires multiset(Arrivals(log, key)) == multiset(Arrivals(other, key))
    ensures key in Replay(log).value <==> key in Replay(other).value
    ensures key in Replay(log).value ==>
              RowRank(Replay(log).value[key]) == RowRank(Replay(other).value[key])
    ensures TiesAgree(RowRank, Arrivals(log, key)) ==>
              Lookup(Replay(log).value, key) == Lookup(Replay(other).value, key)
  {
    LatestIsMerge(log, key);
    LatestIsMerge(other, key);
    MergesAgree(key.LatestKey?, Arrivals(log, key), Arrivals(other, key));
  }

  lemma MergesAgree(strict: bool, a: seq<Row>, b: seq<Row>)
    requires multiset(a) == multiset(b)
    ensures var x, y := MergeAll(RowRank, strict, None, a), MergeAll(RowRank, strict, None, b);
            && (x.Some? <==> y.Some?)
            && (x.Some? ==> RowRank(x.value) == RowRank(y.value))
            && (TiesAgree(RowRank, a) ==> x == y)
  {
    assert |multiset(a)| == |a| && |multiset(b)| == |b|;
    if a != [] {
      MaximumIsOrderIndependent(RowRank, strict, a, b);
      OrderIndependentExactlyWhenTiesAgree(RowRank, strict, a);
    }
  }

  // Of two readings the order matters exactly when date, to the microsecond, and quality agree
  // and what is stored of them does not; a different unit alone is not stored.
  lemma TieKeepsTheFirst(first: Metric.MetricValue, second: Metric.MetricValue)
    ensures OrderIndependent(RowRank, true, [LatestRow(ReadingOf(first)), LatestRow(ReadingOf(second))]) <==>
            RowRank(LatestRow(ReadingOf(first))) != RowRank(LatestRow(ReadingOf(second))) || ReadingOf(first) == ReadingOf(second)
  {
    var rows := [LatestRow(ReadingOf(first)), LatestRow(ReadingOf(second))];
    OrderIndependentExactlyWhenTiesAgree(RowRank, true, rows);
    if RowRank(rows[0]) == RowRank(rows[1]) {
      assert Best(RowRank, rows, 0) && Best(RowRank, rows, 1);
    }
  }

  // ---------- Dates ----------

  predicate DatedBy(rows: seq<Row>, bound: Metric.Time) {
    forall i :: 0 <= i < |rows| ==> RowRank(rows[i]).at <= bound
  }

  predicate LatestDatedBy(stmts: seq<Statement>, bound: Metric.Time) {
    forall i :: 0 <= i < |stmts| && IsLatest(stmts[i].key) ==> RowRank(stmts[i].row).at <= bound
  }

  lemma {:induction false} BroughtDated(stmts: seq<Statement>, key: RowKey, bound: Metric.Time)
    requires IsLatest(key) && LatestDatedBy(stmts, bound)
    ensures DatedBy(Brought(stmts, key), bound)
  {
    if stmts != [] { BroughtDated(stmts[..|stmts| - 1], key, bound); }
  }

  lemma PlanDated(id: Identity, e: Envelope, now: Metric.Time, raw: bool)
    requires TimelyFor(e, now)
    ensures LatestDatedBy(Plan(id, e, now, raw), now + MAX_FUTURE_OBSERVATION_SKEW)
  {
    var bound := now + MAX_FUTURE_OBSERVATION_SKEW;
    var dated := (s: Statement) => IsLatest(s.key) ==> RowRank(s.row).at <= bound;
    EachStatement(id, e, now, raw, dated);
    assert Each(Plan(id, e, now, raw), dated);
  }

  predicate ReceivedBy(log: seq<Event>, bound: Metric.Time) {
    forall i :: 0 <= i < |log| && log[i].Inserted? ==> log[i].now <= bound
  }

  lemma EventDated(event: Event, key: RowKey, bound: Metric.Time)
    requires IsLatest(key) && EventAcceptable(event) && (event.Inserted? ==> event.now <= bound)
    ensures DatedBy(BroughtBy(event, key), bound + MAX_FUTURE_OBSERVATION_SKEW)
  {
    if event.Inserted? {
      PlanDated(event.identity, event.envelope, event.now, event.raw);
      BroughtDated(Plan(event.identity, event.envelope, event.now, event.raw), key, event.now + MAX_FUTURE_OBSERVATION_SKEW);
    }
  }

  lemma {:induction false} ArrivalsDated(log: seq<Event>, key: RowKey, bound: Metric.Time)
    requires LogAcceptable(log) && IsLatest(key) && ReceivedBy(log, bound)
    ensures DatedBy(Arrivals(log, key), bound + MAX_FUTURE_OBSERVATION_SKEW)
  {
    if log != [] {
      var init, last := log[..|log| - 1], log[|log| - 1];
      ArrivalsDated(init, key, bound);
      assert EventAcceptable(last);
      EventDated(last, key, bound);
    }
  }

  // No submission can date latest state more than one minute past the largest receipt time so
  // far, so evidence dated after that bound always replaces what is there.
  lemma LatestNeverAhead(log: seq<Event>, key: RowKey, bound: Metric.Time, incoming: Row)
    requires Replay(log).Some? && LogAcceptable(log) && IsLatest(key) && ReceivedBy(log, bound)
    requires Admits(Statement(key, incoming))
    ensures key in Replay(log).value ==>
              RowRank(Replay(log).value[key]).at <= bound + MAX_FUTURE_OBSERVATION_SKEW
    ensures RowRank(incoming).at > bound + MAX_FUTURE_OBSERVATION_SKEW ==>
              Execute(Lookup(Replay(log).value, key), Statement(key, incoming)) == Some(incoming)
  {
    LatestIsMerge(log, key);
    ArrivalsDated(log, key, bound);
    if Arrivals(log, key) != [] {
      var i := RemainingRow(RowRank, key.LatestKey?, Arrivals(log, key));
    }
  }
}
