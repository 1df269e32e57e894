// Whether the order of the samples inside one envelope shows in the row its transaction leaves.
module EnvelopeOrder {
  import opened Wrappers
  import Metric
  import opened Envelopes
  import Keys = IdempotencyKeys
  import opened MergeOrder
  import opened Tables
  import LatestState
  import RawBatches
  import opened Admission

  predicate InSeries(s: Sample, deviceId: string, name: string) {
    (s.deviceId, s.metric.name) == (deviceId, name)
  }

  function RowsOf(s: Sample, deviceId: string, name: string): seq<Row> {
    if InSeries(s, deviceId, name) then [LatestRow(ReadingOf(s.metric))] else []
  }

  function SampleRows(ss: seq<Sample>, deviceId: string, name: string): seq<Row> {
    if ss == [] then [] else
    SampleRows(ss[..|ss| - 1], deviceId, name) + RowsOf(ss[|ss| - 1], deviceId, name)
  }

  lemma SampleRowsNext(ss: seq<Sample>, s: Sample, deviceId: string, name: string)
    ensures SampleRows(ss + [s], deviceId, name) == SampleRows(ss, deviceId, name) + RowsOf(s, deviceId, name)
  {
    assert (ss + [s])[..|ss|] == ss;
  }

  function ClockRows(e: Envelope, now: Metric.Time, deviceId: string, name: string): seq<Row> {
    RowsOf(ClockOffsetSample(e.observedAt, now), deviceId, name)
  }

  // ---------- What one transaction brings for a latest row ----------

  lemma {:induction false} BroughtSplits(a: seq<Statement>, b: seq<Statement>, key: RowKey)
    ensures LatestState.Brought(a + b, key) == LatestState.Brought(a, key) + LatestState.Brought(b, key)
  {
    if b == [] {
      assert a + b == a;
    } else {
      var n := |b| - 1;
      BroughtSplits(a, b[..n], key);
      assert (a + b)[..|a + b| - 1] == a + b[..n];
    }
  }

  lemma BroughtOne(s: Statement, key: RowKey)
    ensures LatestState.Brought([s], key) == if s.key == key then [s.row] else []
  {
    assert [s][..0] == [];
  }

  // Of the statements for one sample only the upsert of its own latest row brings anything.
  lemma SampleBrings(id: Identity, e: Envelope, s: Sample, now: Metric.Time, before: seq<Statement>, raw: bool,
                     deviceId: string, name: string)
    ensures var key, extra := LatestKey(id.hostId, deviceId, name), if raw then [RawSampleStatement(e, s, now)] else [];
            LatestState.Brought(before + extra + [LatestStatement(id, s)], key)
            == LatestState.Brought(before, key) + RowsOf(s, deviceId, name)
  {
    var key := LatestKey(id.hostId, deviceId, name);
    if raw {
      BroughtSplits(before, [RawSampleStatement(e, s, now)], key);
      BroughtOne(RawSampleStatement(e, s, now), key);
      BroughtSplits(before + [RawSampleStatement(e, s, now)], [LatestStatement(id, s)], key);
    } else {
      assert before + [] == before;
      BroughtSplits(before, [LatestStatement(id, s)], key);
    }
    BroughtOne(LatestStatement(id, s), key);
  }

  lemma SampleRowsUpTo(ss: seq<Sample>, n: nat, deviceId: string, name: string)
    requires n < |ss|
    ensures SampleRows(ss[..n + 1], deviceId, name) == SampleRows(ss[..n], deviceId, name) + RowsOf(ss[n], deviceId, name)
  {
    assert ss[..n + 1] == ss[..n] + [ss[n]];
    SampleRowsNext(ss[..n], ss[n], deviceId, name);
  }

  lemma NextSampleBrings(id: Identity, e: Envelope, now: Metric.Time, raw: bool, n: nat, deviceId: string, name: string)
    requires n < |e.samples|
    ensures LatestState.Brought(SampleStatements(id, e, now, raw, n + 1), LatestKey(id.hostId, deviceId, name))
         == LatestState.Brought(SampleStatements(id, e, now, raw, n), LatestKey(id.hostId, deviceId, name))
            + RowsOf(e.samples[n], deviceId, name)
  {
    SampleBrings(id, e, e.samples[n], now, SampleStatements(id, e, now, raw, n), raw, deviceId, name);
  }

  lemma {:induction false} SamplesBring(id: Identity, e: Envelope, now: Metric.Time, raw: bool, n: nat, deviceId: string, name: string)
    requires n <= |e.samples|
    ensures LatestState.Brought(SampleStatements(id, e, now, raw, n), LatestKey(id.hostId, deviceId, name))
         == SampleRows(e.samples[..n], deviceId, name)
  {
    if n == 0 {
      NoSamplesBringNone(id, e, now, raw, LatestKey(id.hostId, deviceId, name));
    } else {
      calc {
        LatestState.Brought(SampleStatements(id, e, now, raw, n), LatestKey(id.hostId, deviceId, name));
      == { NextSampleBrings(id, e, now, raw, n - 1, deviceId, name); }
        LatestState.Brought(SampleStatements(id, e, now, raw, n - 1), LatestKey(id.hostId, deviceId, name))
        + RowsOf(e.samples[n - 1], deviceId, name);
      == { SamplesBring(id, e, now, raw, n - 1, deviceId, name); }
        SampleRows(e.samples[..n - 1], deviceId, name) + RowsOf(e.samples[n - 1], deviceId, name);
      == { SampleRowsUpTo(e.samples, n - 1, deviceId, name); }
        SampleRows(e.samples[..n], deviceId, name);
      }
    }
  }

  lemma NoSamplesBringNone(id: Identity, e: Envelope, now: Metric.Time, raw: bool, key: RowKey)
    ensures LatestState.Brought(SampleStatements(id, e, now, raw, 0), key) == []
  {
  }

  lemma {:induction false} OthersBringNone(stmts: seq<Statement>, key: RowKey)
    requires forall i :: 0 <= i < |stmts| ==> stmts[i].key != key
    ensures LatestState.Brought(stmts, key) == []
  {
    if stmts != [] { OthersBringNone(stmts[..|stmts| - 1], key); }
  }

  lemma BroughtByParts(head: Statement, a: seq<Statement>, b: seq<Statement>, tail: Statement, key: RowKey)
    requires head.key != key && LatestState.Brought(b, key) == []
    ensures LatestState.Brought([head] + a + b + [tail], key)
         == LatestState.Brought(a, key) + if tail.key == key then [tail.row] else []
  {
    BroughtSplits([head] + a + b, [tail], key);
    BroughtSplits([head] + a, b, key);
    BroughtSplits([head], a, key);
    BroughtOne(head, key);
    BroughtOne(tail, key);
  }

  lemma PlanBrings(id: Identity, e: Envelope, now: Metric.Time, raw: bool, deviceId: string, name: string)
    ensures LatestState.Brought(Plan(id, e, now, raw), LatestKey(id.hostId, deviceId, name))
         == SampleRows(e.samples, deviceId, name) + ClockRows(e, now, deviceId, name)
  {
    var key, clock := LatestKey(id.hostId, deviceId, name), LatestStatement(id, ClockOffsetSample(e.observedAt, now));
    OthersBringNone(InventoryStatements(id, e, |e.containers|), key);
    BroughtByParts(ReceiptStatement(id, e, now, raw), SampleStatements(id, e, now, raw, |e.samples|),
                   InventoryStatements(id, e, |e.containers|), clock, key);
    SamplesBring(id, e, now, raw, |e.samples|, deviceId, name);
    assert e.samples[..|e.samples|] == e.samples;
    ClockBrings(id, e, now, deviceId, name);
  }

  lemma ClockBrings(id: Identity, e: Envelope, now: Metric.Time, deviceId: string, name: string)
    ensures var clock := LatestStatement(id, ClockOffsetSample(e.observedAt, now));
            ClockRows(e, now, deviceId, name)
            == if clock.key == LatestKey(id.hostId, deviceId, name) then [clock.row] else []
  {
  }

  function RowOf(t: Tables, id: Identity, e: Envelope, now: Metric.Time, raw: bool, deviceId: string, name: string): Option<Row>
    requires Persist(t, id, e, now, raw).Some?
  {
    Lookup(Persist(t, id, e, now, raw).value.0, LatestKey(id.hostId, deviceId, name))
  }

  // Everything that competes for the row: what is there, the samples, the clock sample.
  function Candidates(existing: Option<Row>, rows: seq<Row>, clock: seq<Row>): seq<Row> {
    (if existing.Some? then [existing.value] else []) + rows + clock
  }

  lemma MergedFromNothing(existing: Option<Row>, rows: seq<Row>, clock: seq<Row>)
    ensures MergeAll(RowRank, true, existing, rows + clock)
         == MergeAll(RowRank, true, None, Candidates(existing, rows, clock))
  {
    match existing
    case None => assert Candidates(None, rows, clock) == rows + clock;
    case Some(row) =>
      ExistingIsFirstArrival(RowRank, true, row, rows + clock);
      assert Candidates(Some(row), rows, clock) == [row] + (rows + clock);
  }

  // The row a transaction leaves is the merge of its candidates, in this order.
  lemma RowLeft(t: Tables, id: Identity, e: Envelope, now: Metric.Time, raw: bool, deviceId: string, name: string)
    requires Persist(t, id, e, now, raw).Some? && !Received(t, Keys.EnvelopeKey(e))
    ensures RowOf(t, id, e, now, raw, deviceId, name)
         == MergeAll(RowRank, true, None,
                     Candidates(Lookup(t, LatestKey(id.hostId, deviceId, name)),
                                SampleRows(e.samples, deviceId, name), ClockRows(e, now, deviceId, name)))
  {
    var key := LatestKey(id.hostId, deviceId, name);
    PlanFits(id, e, now, raw);
    LatestState.StatementsMerge(t, Plan(id, e, now, raw), key);
    PlanBrings(id, e, now, raw, deviceId, name);
    MergedFromNothing(Lookup(t, key), SampleRows(e.samples, deviceId, name), ClockRows(e, now, deviceId, name));
  }

  // ---------- Reordering the samples ----------

  lemma Regrouped(x: seq<Row>, y: seq<Row>, z: seq<Row>)
    ensures x + y + z == x + (y + z)
  {
  }

  lemma {:induction false} SampleRowsSplit(a: seq<Sample>, b: seq<Sample>, deviceId: string, name: string)
    ensures SampleRows(a + b, deviceId, name) == SampleRows(a, deviceId, name) + SampleRows(b, deviceId, name)
  {
    if b == [] {
      assert a + b == a;
    } else {
      var init, last := b[..|b| - 1], b[|b| - 1];
      calc {
        SampleRows(a + b, deviceId, name);
      == { assert a + b == (a + init) + [last]; SampleRowsNext(a + init, last, deviceId, name); }
        SampleRows(a + init, deviceId, name) + RowsOf(last, deviceId, name);
      == { SampleRowsSplit(a, init, deviceId, name); }
        SampleRows(a, deviceId, name) + SampleRows(init, deviceId, name) + RowsOf(last, deviceId, name);
      == { Regrouped(SampleRows(a, deviceId, name), SampleRows(init, deviceId, name), RowsOf(last, deviceId, name)); }
        SampleRows(a, deviceId, name) + (SampleRows(init, deviceId, name) + RowsOf(last, deviceId, name));
      == { assert b == init + [last]; SampleRowsNext(init, last, deviceId, name); }
        SampleRows(a, deviceId, name) + SampleRows(b, deviceId, name);
      }
    }
  }

  lemma SampleRowsOne(s: Sample, deviceId: string, name: string)
    ensures SampleRows([s], deviceId, name) == RowsOf(s, deviceId, name)
  {
    assert [s][..0] == [];
  }

  // Taking one sample out takes its row out.
  lemma SampleRowsWithout(ss: seq<Sample>, j: nat, deviceId: string, name: string)
    requires j < |ss|
    ensures multiset(ss) == multiset(ss[..j] + ss[j + 1..]) + multiset{ss[j]}
    ensures multiset(SampleRows(ss, deviceId, name))
         == multiset(SampleRows(ss[..j] + ss[j + 1..], deviceId, name)) + multiset(RowsOf(ss[j], deviceId, name))
  {
    var front, back := ss[..j], ss[j + 1..];
    assert ss == front + [ss[j]] + back;
    SampleRowsSplit(front + [ss[j]], back, deviceId, name);
    SampleRowsSplit(front, [ss[j]], deviceId, name);
    SampleRowsSplit(front, back, deviceId, name);
    SampleRowsOne(ss[j], deviceId, name);
  }

  lemma TakenOut(m: multiset<Sample>, n: multiset<Sample>, s: Sample)
    requires m + multiset{s} == n + multiset{s}
    ensures m == n
  {
    assert m == (m + multiset{s}) - multiset{s} && n == (n + multiset{s}) - multiset{s};
  }

  lemma {:induction false} SampleRowsPermute(a: seq<Sample>, b: seq<Sample>, deviceId: string, name: string)
    requires multiset(a) == multiset(b)
    ensures multiset(SampleRows(a, deviceId, name)) == multiset(SampleRows(b, deviceId, name))
    decreases |a|
  {
    if a == [] {
      assert |multiset(b)| == |b|;
    } else {
      var n := |a| - 1;
      var j := SameElements(a, b, n);
      SampleRowsWithout(a, n, deviceId, name);
      SampleRowsWithout(b, j, deviceId, name);
      TakenOut(multiset(a[..n] + a[n + 1..]), multiset(b[..j] + b[j + 1..]), a[n]);
      SampleRowsPermute(a[..n] + a[n + 1..], b[..j] + b[j + 1..], deviceId, name);
    }
  }

  lemma {:induction false} SampleRowSource(ss: seq<Sample>, deviceId: string, name: string, row: Row) returns (i: nat)
    requires row in SampleRows(ss, deviceId, name)
    ensures i < |ss| && InSeries(ss[i], deviceId, name) && row == LatestRow(ReadingOf(ss[i].metric))
  {
    var n := |ss| - 1;
    if row in SampleRows(ss[..n], deviceId, name) {
      i := SampleRowSource(ss[..n], deviceId, name, row);
    } else {
      i := n;
    }
  }

  // ---------- When the order cannot show ----------

  predicate NoneBetter(candidates: seq<Row>, row: Row) {
    forall k :: 0 <= k < |candidates| ==> !Less(RowRank(row), RowRank(candidates[k]))
  }

  // The row already there wins every tie; otherwise the best samples have to be stored alike.
  predicate TiesSettled(existing: Option<Row>, rows: seq<Row>, clock: seq<Row>) {
    var candidates := Candidates(existing, rows, clock);
    || (existing.Some? && NoneBetter(candidates, existing.value))
    || forall i, j | 0 <= i < |rows| && 0 <= j < |rows| ::
         NoneBetter(candidates, rows[i]) && NoneBetter(candidates, rows[j]) ==> rows[i] == rows[j]
  }

  lemma CandidatesPermute(existing: Option<Row>, rows: seq<Row>, rows': seq<Row>, clock: seq<Row>)
    requires multiset(rows) == multiset(rows')
    ensures |rows| == |rows'|
    ensures multiset(Candidates(existing, rows, clock)) == multiset(Candidates(existing, rows', clock))
  {
    assert |multiset(rows)| == |rows| && |multiset(rows')| == |rows'|;
  }

  lemma NoneBetterPermutes(a: seq<Row>, b: seq<Row>, row: Row)
    requires multiset(a) == multiset(b) && NoneBetter(a, row)
    ensures NoneBetter(b, row)
  {
    forall k | 0 <= k < |b| ensures !Less(RowRank(row), RowRank(b[k])) {
      var j := SameElements(b, a, k);
    }
  }

  lemma ExistingWins(row: Row, rows: seq<Row>, clock: seq<Row>)
    requires NoneBetter(Candidates(Some(row), rows, clock), row)
    ensures MergeAll(RowRank, true, None, Candidates(Some(row), rows, clock)) == Some(row)
  {
    var all := Candidates(Some(row), rows, clock);
    var i := RemainingRow(RowRank, true, all);
    assert all[0] == row && Best(RowRank, all, 0);
  }

  // Otherwise the remaining row is a best one of the samples, or the clock sample when that
  // beats them all.
  lemma RemainingCandidate(existing: Option<Row>, rows: seq<Row>, clock: seq<Row>) returns (row: Row)
    requires |clock| <= 1 && rows + clock != []
    requires existing.Some? ==> !NoneBetter(Candidates(existing, rows, clock), existing.value)
    ensures MergeAll(RowRank, true, None, Candidates(existing, rows, clock)) == Some(row)
    ensures NoneBetter(Candidates(existing, rows, clock), row)
    ensures if exists r :: r in rows && NoneBetter(Candidates(existing, rows, clock), r) then row in rows else clock == [row]
  {
    var all, p := Candidates(existing, rows, clock), if existing.Some? then 1 else 0;
    var i := RemainingRow(RowRank, true, all);
    row := all[i];
    assert p == 1 ==> all[0] == existing.value && !Best(RowRank, all, 0);
    forall r | r in rows && NoneBetter(all, r) ensures i < p + |rows| {
      var j :| 0 <= j < |rows| && rows[j] == r;
      assert all[p + j] == r && Best(RowRank, all, p + j);
    }
  }

  // The merge itself, without the tables: settled ties make the order of the rows irrelevant.
  lemma SettledOrderIrrelevant(existing: Option<Row>, rows: seq<Row>, rows': seq<Row>, clock: seq<Row>)
    requires |clock| <= 1 && multiset(rows) == multiset(rows') && TiesSettled(existing, rows, clock)
    ensures MergeAll(RowRank, true, None, Candidates(existing, rows, clock))
         == MergeAll(RowRank, true, None, Candidates(existing, rows', clock))
  {
    var all, all' := Candidates(existing, rows, clock), Candidates(existing, rows', clock);
    CandidatesPermute(existing, rows, rows', clock);
    forall row ensures NoneBetter(all, row) <==> NoneBetter(all', row) {
      if NoneBetter(all, row) { NoneBetterPermutes(all, all', row); }
      if NoneBetter(all', row) { NoneBetterPermutes(all', all, row); }
    }
    if existing.Some? && NoneBetter(all, existing.value) {
      ExistingWins(existing.value, rows, clock);
      ExistingWins(existing.value, rows', clock);
    } else if rows + clock != [] {
      forall r ensures r in rows <==> r in rows' { assert r in multiset(rows) <==> r in multiset(rows'); }
      var row := RemainingCandidate(existing, rows, clock);
      var row' := RemainingCandidate(existing, rows', clock);
    }
  }

  // A best row that comes first among the samples stays, unless the row already there is as good.
  lemma FirstBestStays(existing: Option<Row>, row: Row, rest: seq<Row>, clock: seq<Row>)
    requires NoneBetter(Candidates(existing, [row] + rest, clock), row)
    requires existing.Some? ==> !NoneBetter(Candidates(existing, [row] + rest, clock), existing.value)
    ensures MergeAll(RowRank, true, None, Candidates(existing, [row] + rest, clock)) == Some(row)
  {
    var all, p := Candidates(existing, [row] + rest, clock), if existing.Some? then 1 else 0;
    var i := RemainingRow(RowRank, true, all);
    assert all[p] == row && Best(RowRank, all, p);
    assert p == 1 ==> all[0] == existing.value && !Best(RowRank, all, 0);
  }

  // ---------- The row a transaction leaves ----------

  predicate Reorders(e: Envelope, ss: seq<Sample>) {
    multiset(ss) == multiset(e.samples)
  }

  // Whatever order the samples come in, a transaction that goes through leaves the same row.
  ghost predicate OrderNeverShows(t: Tables, id: Identity, e: Envelope, now: Metric.Time, raw: bool, deviceId: string, name: string)
    requires Persist(t, id, e, now, raw).Some?
  {
    forall ss | Reorders(e, ss) && Persist(t, id, e.(samples := ss), now, raw).Some? ::
      RowOf(t, id, e.(samples := ss), now, raw, deviceId, name) == RowOf(t, id, e, now, raw, deviceId, name)
  }

  predicate Settled(t: Tables, id: Identity, e: Envelope, now: Metric.Time, deviceId: string, name: string) {
    TiesSettled(Lookup(t, LatestKey(id.hostId, deviceId, name)),
                SampleRows(e.samples, deviceId, name), ClockRows(e, now, deviceId, name))
  }

  lemma SettledNeverShows(t: Tables, id: Identity, e: Envelope, now: Metric.Time, raw: bool, deviceId: string, name: string)
    requires Persist(t, id, e, now, raw).Some? && !Received(t, Keys.EnvelopeKey(e))
    requires Settled(t, id, e, now, deviceId, name)
    ensures OrderNeverShows(t, id, e, now, raw, deviceId, name)
  {
    var existing := Lookup(t, LatestKey(id.hostId, deviceId, name));
    forall ss | Reorders(e, ss) && Persist(t, id, e.(samples := ss), now, raw).Some?
      ensures RowOf(t, id, e.(samples := ss), now, raw, deviceId, name) == RowOf(t, id, e, now, raw, deviceId, name)
    {
      RowLeft(t, id, e, now, raw, deviceId, name);
      RowLeft(t, id, e.(samples := ss), now, raw, deviceId, name);
      SampleRowsPermute(e.samples, ss, deviceId, name);
      SettledOrderIrrelevant(existing, SampleRows(e.samples, deviceId, name), SampleRows(ss, deviceId, name),
                             ClockRows(e, now, deviceId, name));
    }
  }

  lemma ReorderedIsStorable(id: Identity, e: Envelope, now: Metric.Time, ss: seq<Sample>)
    requires Checked(id, e, now) && StorableCompact(e) && Reorders(e, ss)
    ensures Checked(id, e.(samples := ss), now) && StorableCompact(e.(samples := ss))
  {
    assert |multiset(ss)| == |ss| && |multiset(e.samples)| == |e.samples|;
    forall i | 0 <= i < |ss| ensures ss[i] in e.samples {
      var j := SameElements(ss, e.samples, i);
    }
  }

  // In compact mode a best sample of the series can always be the one that stays: put it first.
  lemma BestCanStay(t: Tables, id: Identity, e: Envelope, now: Metric.Time, deviceId: string, name: string, row: Row)
      returns (ss: seq<Sample>)
    requires Checked(id, e, now) && StorableCompact(e)
    requires RawBatches.BatchIntact(t, Keys.EnvelopeKey(e)) && !Received(t, Keys.EnvelopeKey(e))
    requires row in SampleRows(e.samples, deviceId, name)
    requires var existing := Lookup(t, LatestKey(id.hostId, deviceId, name));
             var all := Candidates(existing, SampleRows(e.samples, deviceId, name), ClockRows(e, now, deviceId, name));
             NoneBetter(all, row) && (existing.Some? ==> !NoneBetter(all, existing.value))
    ensures Reorders(e, ss) && Persist(t, id, e.(samples := ss), now, false).Some?
    ensures RowOf(t, id, e.(samples := ss), now, false, deviceId, name) == Some(row)
  {
    var existing, clock := Lookup(t, LatestKey(id.hostId, deviceId, name)), ClockRows(e, now, deviceId, name);
    var rows := SampleRows(e.samples, deviceId, name);
    var k := SampleRowSource(e.samples, deviceId, name, row);
    var rest := e.samples[..k] + e.samples[k + 1..];
    ss := MoveTo(e.samples, k, true);
    MoveToPermutes(e.samples, k, true);
    ReorderedIsStorable(id, e, now, ss);
    StoredExactlyWhenStorable(t, id, e.(samples := ss), now, false);
    RowLeft(t, id, e.(samples := ss), now, false, deviceId, name);
    SampleRowsSplit([e.samples[k]], rest, deviceId, name);
    SampleRowsOne(e.samples[k], deviceId, name);
    var others := SampleRows(rest, deviceId, name);
    SampleRowsPermute(e.samples, ss, deviceId, name);
    CandidatesPermute(existing, rows, [row] + others, clock);
    NoneBetterPermutes(Candidates(existing, rows, clock), Candidates(existing, [row] + others, clock), row);
    if existing.Some? && NoneBetter(Candidates(existing, [row] + others, clock), existing.value) {
      NoneBetterPermutes(Candidates(existing, [row] + others, clock), Candidates(existing, rows, clock), existing.value);
      assert false;
    }
    FirstBestStays(existing, row, others, clock);
  }

  // In compact mode the order of the samples never shows in a latest row exactly when its ties
  // are settled: the row already there is as good as any, or the best samples are stored alike.
  lemma OrderShowsExactly(t: Tables, id: Identity, e: Envelope, now: Metric.Time, deviceId: string, name: string)
    requires Checked(id, e, now) && StorableCompact(e)
    requires RawBatches.BatchIntact(t, Keys.EnvelopeKey(e)) && !Received(t, Keys.EnvelopeKey(e))
    ensures Persist(t, id, e, now, false).Some?
    ensures OrderNeverShows(t, id, e, now, false, deviceId, name) <==> Settled(t, id, e, now, deviceId, name)
  {
    StoredExactlyWhenStorable(t, id, e, now, false);
    if Settled(t, id, e, now, deviceId, name) {
      SettledNeverShows(t, id, e, now, false, deviceId, name);
    } else {
      var existing, rows := Lookup(t, LatestKey(id.hostId, deviceId, name)), SampleRows(e.samples, deviceId, name);
      var all := Candidates(existing, rows, ClockRows(e, now, deviceId, name));
      var i, j :| 0 <= i < |rows| && 0 <= j < |rows| && NoneBetter(all, rows[i]) && NoneBetter(all, rows[j]) && rows[i] != rows[j];
      var first := BestCanStay(t, id, e, now, deviceId, name, rows[i]);
      var second := BestCanStay(t, id, e, now, deviceId, name, rows[j]);
    }
  }

  // ---------- Two cases in which ties are settled ----------

  // No two samples of the series fall into the same microsecond.
  predicate MicrosecondsApart(ss: seq<Sample>, deviceId: string, name: string) {
    forall i, j | 0 <= i < j < |ss| :: InSeries(ss[i], deviceId, name) && InSeries(ss[j], deviceId, name) ==>
      Micros(ss[i].metric.observedAt) != Micros(ss[j].metric.observedAt)
  }

  lemma {:induction false} SeriesDatesDiffer(ss: seq<Sample>, deviceId: string, name: string, i: nat, j: nat)
    requires MicrosecondsApart(ss, deviceId, name) && i < j < |SampleRows(ss, deviceId, name)|
    ensures RowRank(SampleRows(ss, deviceId, name)[i]).at != RowRank(SampleRows(ss, deviceId, name)[j]).at
  {
    var n := |ss| - 1;
    var before := SampleRows(ss[..n], deviceId, name);
    if j < |before| {
      SeriesDatesDiffer(ss[..n], deviceId, name, i, j);
    } else {
      var k := SampleRowSource(ss[..n], deviceId, name, before[i]);
      assert ss[..n][k] == ss[k];
    }
  }

  lemma DatesSettleTies(existing: Option<Row>, rows: seq<Row>, clock: seq<Row>)
    requires forall i, j :: 0 <= i < j < |rows| ==> RowRank(rows[i]).at != RowRank(rows[j]).at
    ensures TiesSettled(existing, rows, clock)
  {
    var all, p := Candidates(existing, rows, clock), if existing.Some? then 1 else 0;
    forall i, j | 0 <= i < |rows| && 0 <= j < |rows| && NoneBetter(all, rows[i]) && NoneBetter(all, rows[j])
      ensures i == j
    {
      assert all[p + i] == rows[i] && all[p + j] == rows[j];
    }
  }

  // In either mode, dates that differ by their microseconds are enough.
  lemma MicrosecondsApartNeverShow(t: Tables, id: Identity, e: Envelope, now: Metric.Time, raw: bool, deviceId: string, name: string)
    requires Persist(t, id, e, now, raw).Some? && !Received(t, Keys.EnvelopeKey(e))
    requires MicrosecondsApart(e.samples, deviceId, name)
    ensures OrderNeverShows(t, id, e, now, raw, deviceId, name)
  {
    var rows, clock := SampleRows(e.samples, deviceId, name), ClockRows(e, now, deviceId, name);
    forall i, j | 0 <= i < j < |rows| ensures RowRank(rows[i]).at != RowRank(rows[j]).at {
      SeriesDatesDiffer(e.samples, deviceId, name, i, j);
    }
    DatesSettleTies(Lookup(t, LatestKey(id.hostId, deviceId, name)), rows, clock);
    SettledNeverShows(t, id, e, now, raw, deviceId, name);
  }

  lemma {:induction false} AtMostOneRow(ss: seq<Sample>, deviceId: string, name: string)
    requires forall i, j | 0 <= i < j < |ss| :: !(InSeries(ss[i], deviceId, name) && InSeries(ss[j], deviceId, name))
    ensures |SampleRows(ss, deviceId, name)| <= 1
  {
    if ss != [] {
      var n := |ss| - 1;
      AtMostOneRow(ss[..n], deviceId, name);
      var before := SampleRows(ss[..n], deviceId, name);
      if before != [] {
        var k := SampleRowSource(ss[..n], deviceId, name, before[0]);
        assert InSeries(ss[k], deviceId, name);
      }
    }
  }

  lemma OnePerSeries(e: Envelope, deviceId: string, name: string)
    requires StorableRaw(e)
    ensures forall i, j | 0 <= i < j < |e.samples| ::
              !(InSeries(e.samples[i], deviceId, name) && InSeries(e.samples[j], deviceId, name))
  {
    forall i, j | 0 <= i < j < |e.samples|
      ensures !(InSeries(e.samples[i], deviceId, name) && InSeries(e.samples[j], deviceId, name))
    {
      assert RawBatches.SampleRowKey(Keys.EnvelopeKey(e), e.samples[i]) != RawBatches.SampleRowKey(Keys.EnvelopeKey(e), e.samples[j]);
    }
  }

  lemma OneRowSettles(existing: Option<Row>, rows: seq<Row>, clock: seq<Row>)
    requires |rows| <= 1
    ensures TiesSettled(existing, rows, clock)
  {
  }

  // In raw mode the primary key of the sample rows lets through one sample a series, so the
  // order never shows.
  lemma RawOrderNeverShows(t: Tables, id: Identity, e: Envelope, now: Metric.Time, deviceId: string, name: string)
    requires Persist(t, id, e, now, true).Some? && !Received(t, Keys.EnvelopeKey(e))
    ensures OrderNeverShows(t, id, e, now, true, deviceId, name)
  {
    StoredIsStorable(t, id, e, now, true);
    OnePerSeries(e, deviceId, name);
    AtMostOneRow(e.samples, deviceId, name);
    OneRowSettles(Lookup(t, LatestKey(id.hostId, deviceId, name)), SampleRows(e.samples, deviceId, name),
                  ClockRows(e, now, deviceId, name));
    SettledNeverShows(t, id, e, now, true, deviceId, name);
  }

  // ---------- A valid envelope whose order shows ----------

  predicate SameMicrosecond(a: Sample, b: Sample) {
    && b == a.(metric := a.metric.(observedAt := b.metric.observedAt, value := b.metric.value))
    && a.metric.value.Some? && b.metric.value.Some? && a.metric.value != b.metric.value
    && a.metric.observedAt < b.metric.observedAt && b.metric.observedAt != Metric.ZERO_TIME
    && Micros(a.metric.observedAt) == Micros(b.metric.observedAt)
  }

  lemma PairRows(a: Sample, b: Sample)
    ensures SampleRows([a, b], a.deviceId, a.metric.name)
         == RowsOf(a, a.deviceId, a.metric.name) + RowsOf(b, a.deviceId, a.metric.name)
  {
    assert [a] + [b] == [a, b];
    SampleRowsSplit([a], [b], a.deviceId, a.metric.name);
    SampleRowsOne(a, a.deviceId, a.metric.name);
    SampleRowsOne(b, a.deviceId, a.metric.name);
  }

  lemma FirstOfTwoStays(existing: Option<Row>, row: Row, other: Row)
    requires RowRank(row) == RowRank(other)
    requires existing.Some? ==> Less(RowRank(existing.value), RowRank(row))
    ensures MergeAll(RowRank, true, None, Candidates(existing, [row] + [other], [])) == Some(row)
  {
    var all, p := Candidates(existing, [row] + [other], []), if existing.Some? then 1 else 0;
    assert all[p] == row;
    FirstBestStays(existing, row, [other], []);
  }

  lemma FirstOfPairStays(t: Tables, id: Identity, e: Envelope, now: Metric.Time, a: Sample, b: Sample)
    requires Checked(id, e, now) && StorableCompact(e)
    requires RawBatches.BatchIntact(t, Keys.EnvelopeKey(e)) && !Received(t, Keys.EnvelopeKey(e))
    requires e.samples == [a, b] && InSeries(b, a.deviceId, a.metric.name)
    requires RowRank(LatestRow(ReadingOf(a.metric))) == RowRank(LatestRow(ReadingOf(b.metric)))
    requires ClockRows(e, now, a.deviceId, a.metric.name) == []
    requires Lookup(t, LatestKey(id.hostId, a.deviceId, a.metric.name)).Some? ==>
               Less(RowRank(Lookup(t, LatestKey(id.hostId, a.deviceId, a.metric.name)).value), RowRank(LatestRow(ReadingOf(a.metric))))
    ensures Persist(t, id, e, now, false).Some?
    ensures RowOf(t, id, e, now, false, a.deviceId, a.metric.name) == Some(LatestRow(ReadingOf(a.metric)))
  {
    var existing := Lookup(t, LatestKey(id.hostId, a.deviceId, a.metric.name));
    var row, rest := LatestRow(ReadingOf(a.metric)), [LatestRow(ReadingOf(b.metric))];
    StoredExactlyWhenStorable(t, id, e, now, false);
    RowLeft(t, id, e, now, false, a.deviceId, a.metric.name);
    PairRows(a, b);
    FirstOfTwoStays(existing, row, rest[0]);
  }

  lemma StaysAcceptable(id: Identity, e: Envelope, now: Metric.Time, a: Sample, b: Sample)
    requires Acceptable(id, e, now) && StorableCompact(e) && e.samples == [a, b]
    ensures Acceptable(id, e.(samples := [b, a]), now) && StorableCompact(e.(samples := [b, a]))
  {
    assert e.samples[0] == a && e.samples[1] == b;
    assert SampleKey(e.samples[0]) != SampleKey(e.samples[1]);
    assert multiset([b, a]) == multiset([a, b]);
    ReorderedIsStorable(id, e, now, [b, a]);
  }

  lemma SameMicrosecondTies(a: Sample, b: Sample)
    requires SameMicrosecond(a, b)
    ensures InSeries(b, a.deviceId, a.metric.name) && InSeries(a, b.deviceId, b.metric.name)
    ensures RowRank(LatestRow(ReadingOf(a.metric))) == RowRank(LatestRow(ReadingOf(b.metric)))
    ensures ReadingOf(a.metric) != ReadingOf(b.metric)
  {
  }

  lemma RawRefusesPair(t: Tables, id: Identity, e: Envelope, now: Metric.Time, a: Sample, b: Sample)
    requires !Received(t, Keys.EnvelopeKey(e)) && e.samples == [a, b] && InSeries(b, a.deviceId, a.metric.name)
    ensures Persist(t, id, e, now, true).None?
  {
    assert RawBatches.SampleRowKey(Keys.EnvelopeKey(e), e.samples[0]) == RawBatches.SampleRowKey(Keys.EnvelopeKey(e), e.samples[1]);
    if Persist(t, id, e, now, true).Some? {
      StoredIsStorable(t, id, e, now, true);
      assert false;
    }
  }

  // Validation tells dates apart by the nanosecond, the table by the microsecond. Two readings
  // of one series inside a microsecond pass in either order; in compact mode the first one
  // stays, and raw mode refuses both orders.
  lemma ValidTieInsideOneMicrosecond(t: Tables, id: Identity, e: Envelope, now: Metric.Time, a: Sample, b: Sample)
    requires Acceptable(id, e, now) && StorableCompact(e)
    requires RawBatches.BatchIntact(t, Keys.EnvelopeKey(e)) && !Received(t, Keys.EnvelopeKey(e))
    requires e.samples == [a, b] && SameMicrosecond(a, b)
    requires ClockRows(e, now, a.deviceId, a.metric.name) == []
    requires Lookup(t, LatestKey(id.hostId, a.deviceId, a.metric.name)).Some? ==>
               Less(RowRank(Lookup(t, LatestKey(id.hostId, a.deviceId, a.metric.name)).value), RowRank(LatestRow(ReadingOf(a.metric))))
    ensures Acceptable(id, e.(samples := [b, a]), now)
    ensures Persist(t, id, e, now, false).Some? && Persist(t, id, e.(samples := [b, a]), now, false).Some?
    ensures RowOf(t, id, e, now, false, a.deviceId, a.metric.name) == Some(LatestRow(ReadingOf(a.metric)))
    ensures RowOf(t, id, e.(samples := [b, a]), now, false, a.deviceId, a.metric.name) == Some(LatestRow(ReadingOf(b.metric)))
    ensures ReadingOf(a.metric) != ReadingOf(b.metric)
    ensures Persist(t, id, e, now, true).None? && Persist(t, id, e.(samples := [b, a]), now, true).None?
  {
    var swapped := e.(samples := [b, a]);
    SameMicrosecondTies(a, b);
    StaysAcceptable(id, e, now, a, b);
    FirstOfPairStays(t, id, e, now, a, b);
    FirstOfPairStays(t, id, swapped, now, b, a);
    RawRefusesPair(t, id, e, now, a, b);
    RawRefusesPair(t, id, swapped, now, b, a);
  }
}
