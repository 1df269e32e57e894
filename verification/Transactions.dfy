// Concurrent PersistEnvelope transactions of any number of replicas on one database, one SQL
// statement per step under read-committed isolation, with an advisory lock per hashed key,
// row locks held to the end, capacity changes, aborts, lost acknowledgements and the
// retention job. The committed tables are those of a serial run of the atomic Persist.
module Transactions {
  import opened Wrappers
  import Metric
  import Envelopes
  import Keys = IdempotencyKeys
  import opened Tables

  // What the HTTP handler answers once the transaction is over.
  datatype Reply = Accepted | Duplicate | Refused

  datatype Phase =
    | Waiting
    | Begun
    | Locked
    | Checked
    | Writing(raw: bool, plan: seq<Statement>, next: nat, written: Tables)
    | Done(reply: Reply)

  datatype Request = Request(identity: Identity, envelope: Envelopes.Envelope, now: Metric.Time, phase: Phase)

  datatype Event =
    | Inserted(request: nat, identity: Identity, envelope: Envelopes.Envelope, now: Metric.Time, raw: bool)
    | Purged(keys: set<string>, cutoff: Metric.Time)

  datatype Db = Db(
    tables: Tables,
    capacity: Option<bool>,
    requests: map<nat, Request>,
    log: seq<Event>)

  // One statement, or one local decision, of the transaction that serves a request.
  datatype Action =
    | Begin(now: Metric.Time)
    | Lock
    | CheckReceipt
    | ReadCapacity
    | WriteRow
    | Abort

  datatype Step =
    | Submit(request: nat, identity: Identity, envelope: Envelopes.Envelope)
    | Act(request: nat, action: Action)
    | Commit(request: nat, acknowledged: bool)
    | SetCapacity(capacity: Option<bool>)
    | Retain(keys: set<string>, cutoff: Metric.Time)

  const EMPTY: Db := Db(map[], None, map[], [])

  function ReqKey(r: Request): string {
    Keys.EnvelopeKey(r.envelope)
  }

  predicate HoldsLock(r: Request) {
    r.phase.Locked? || r.phase.Checked? || r.phase.Writing?
  }

  predicate Active(r: Request) {
    r.phase.Begun? || HoldsLock(r)
  }

  // The advisory lock is taken on a hash of the key, so distinct keys may exclude each other.
  predicate LockFree(hash: string -> int, db: Db, key: string) {
    forall i :: i in db.requests && HoldsLock(db.requests[i]) ==> hash(ReqKey(db.requests[i])) != hash(key)
  }

  predicate RowFree(db: Db, request: nat, key: RowKey) {
    forall i :: i in db.requests && i != request && db.requests[i].phase.Writing? ==>
      key !in db.requests[i].phase.written
  }

  // Runs the next statement of the plan on the rows it can see: its own writes, then what is
  // committed now. A failing statement ends the transaction.
  function WritePhase(tables: Tables, phase: Phase): (p: Phase)
    requires phase.Writing? && phase.next < |phase.plan|
    ensures p.Done? || (p.Writing? && p.plan == phase.plan && p.raw == phase.raw)
  {
    var s := phase.plan[phase.next];
    match Execute(Lookup(tables + phase.written, s.key), s)
    case None => Done(Refused)
    case Some(row) => phase.(next := phase.next + 1, written := phase.written[s.key := row])
  }

  // The phase a request moves to by a step of its own, or None when the step cannot be taken:
  // a lock is held by another transaction, or the request is not at that point.
  function Advance(hash: string -> int, db: Db, i: nat, action: Action): Option<Phase>
    requires i in db.requests
  {
    var r := db.requests[i];
    match action
    case Begin(now) =>
      if !r.phase.Waiting? then None
      else Some(if Acceptable(r.identity, r.envelope, now) then Begun else Done(Refused))
    case Lock =>
      if r.phase.Begun? && LockFree(hash, db, ReqKey(r)) then Some(Locked) else None
    case CheckReceipt =>
      if !r.phase.Locked? then None
      else Some(if Received(db.tables, ReqKey(r)) then Done(Duplicate) else Checked)
    case ReadCapacity =>
      if !r.phase.Checked? then None else
      var raw := RawRetentionAllowed(db.capacity);
      Some(Writing(raw, Plan(r.identity, r.envelope, r.now, raw), 0, map[]))
    case WriteRow =>
      if r.phase.Writing? && r.phase.next < |r.phase.plan| && RowFree(db, i, r.phase.plan[r.phase.next].key)
      then Some(WritePhase(db.tables, r.phase)) else None
    case Abort =>
      if Active(r) then Some(Done(Refused)) else None
  }

  function SetRequest(db: Db, i: nat, r: Request): Db {
    db.(requests := db.requests[i := r])
  }

  // The receipt time is read once, before the transaction begins.
  function Moved(r: Request, action: Action, phase: Phase): Request {
    r.(phase := phase, now := if action.Begin? then action.now else r.now)
  }

  function AdvanceTo(hash: string -> int, db: Db, i: nat, action: Action): Option<Db> {
    if i !in db.requests then None else
    match Advance(hash, db, i, action)
    case None => None
    case Some(phase) => Some(SetRequest(db, i, Moved(db.requests[i], action, phase)))
  }

  predicate ReadyToCommit(db: Db, i: nat) {
    i in db.requests && db.requests[i].phase.Writing? && db.requests[i].phase.next == |db.requests[i].phase.plan|
  }

  function CommitEvent(i: nat, r: Request): Event
    requires r.phase.Writing?
  {
    Inserted(i, r.identity, r.envelope, r.now, r.phase.raw)
  }

  function CommitTo(db: Db, i: nat, acknowledged: bool): Db
    requires ReadyToCommit(db, i)
  {
    var r := db.requests[i];
    SetRequest(db, i, r.(phase := Done(if acknowledged then Accepted else Refused)))
      .(tables := db.tables + r.phase.written,
        log := db.log + [CommitEvent(i, r)])
  }

  function RetainTo(db: Db, keys: set<string>, cutoff: Metric.Time): Db {
    db.(tables := Purge(db.tables, keys), log := db.log + [Purged(keys, cutoff)])
  }

  function Exec(hash: string -> int, db: Db, step: Step): Option<Db> {
    match step
    case Submit(i, id, e) =>
      if i in db.requests then None else Some(SetRequest(db, i, Request(id, e, 0, Waiting)))
    case Act(i, action) =>
      AdvanceTo(hash, db, i, action)
    case Commit(i, acknowledged) =>
      if ReadyToCommit(db, i) then Some(CommitTo(db, i, acknowledged)) else None
    case SetCapacity(capacity) =>
      Some(db.(capacity := capacity))
    case Retain(keys, cutoff) =>
      if Expired(db.tables, keys, cutoff) then Some(RetainTo(db, keys, cutoff)) else None
  }

  // ---------- The serial history ----------

  // Applies the events one after the other; None when some event could not have happened,
  // in particular when an insertion finds its key already received.
  function Apply(t: Tables, event: Event): Option<Tables> {
    match event
    case Inserted(_, id, e, now, raw) =>
      (match Persist(t, id, e, now, raw)
       case Some((u, result)) => if result.inserted then Some(u) else None
       case None => None)
    case Purged(keys, cutoff) =>
      if Expired(t, keys, cutoff) then Some(Purge(t, keys)) else None
  }

  function Replay(log: seq<Event>): Option<Tables> {
    if log == [] then Some(map[]) else
    match Replay(log[..|log| - 1])
    case None => None
    case Some(t) => Apply(t, log[|log| - 1])
  }

  predicate EventAcceptable(event: Event) {
    event.Inserted? ==> Acceptable(event.identity, event.envelope, event.now)
  }

  predicate LogAcceptable(log: seq<Event>) {
    forall i :: 0 <= i < |log| ==> EventAcceptable(log[i])
  }

  // ---------- The invariant ----------

  ghost predicate LocksExclusive(hash: string -> int, requests: map<nat, Request>) {
    forall i, j | i in requests && j in requests && i != j ::
      HoldsLock(requests[i]) && HoldsLock(requests[j]) ==> hash(ReqKey(requests[i])) != hash(ReqKey(requests[j]))
  }

  ghost predicate RowsExclusive(requests: map<nat, Request>) {
    forall i, j | i in requests && j in requests && i != j ::
      requests[i].phase.Writing? && requests[j].phase.Writing? ==>
        requests[i].phase.written.Keys !! requests[j].phase.written.Keys
  }

  // Past the receipt check the key stays absent, and what the transaction has written is what
  // its statements produce on the tables committed now.
  ghost predicate Consistent(tables: Tables, r: Request) {
    && (r.phase.Checked? || r.phase.Writing? ==> !Received(tables, ReqKey(r)))
    && (r.phase.Writing? ==>
          && r.phase.next <= |r.phase.plan|
          && Writes(tables, r.phase.plan[..r.phase.next]) == Some(r.phase.written))
  }

  ghost predicate AllConsistent(tables: Tables, requests: map<nat, Request>) {
    forall i :: i in requests ==> Consistent(tables, requests[i])
  }

  ghost predicate Admitted(r: Request) {
    Active(r) ==> Acceptable(r.identity, r.envelope, r.now)
  }

  ghost predicate HasPlan(r: Request) {
    r.phase.Writing? ==> r.phase.plan == Plan(r.identity, r.envelope, r.now, r.phase.raw)
  }

  ghost predicate Planned(r: Request) {
    Admitted(r) && HasPlan(r)
  }

  ghost predicate AllPlanned(requests: map<nat, Request>) {
    forall i :: i in requests ==> Planned(requests[i])
  }

  ghost predicate Inv(hash: string -> int, db: Db) {
    && LocksExclusive(hash, db.requests)
    && RowsExclusive(db.requests)
    && AllConsistent(db.tables, db.requests)
    && AllPlanned(db.requests)
    && Replay(db.log) == Some(db.tables)
    && LogAcceptable(db.log)
  }

  // ---------- Preservation ----------

  // A step of one request that leaves tables and history alone.
  lemma OneRequestKeepsInv(hash: string -> int, db: Db, i: nat, r: Request)
    requires Inv(hash, db)
    requires HoldsLock(r) ==>
               || LockFree(hash, db, ReqKey(r))
               || (i in db.requests && HoldsLock(db.requests[i]) && ReqKey(db.requests[i]) == ReqKey(r))
    requires r.phase.Writing? ==> forall k :: k in r.phase.written ==> RowFree(db, i, k)
    requires Consistent(db.tables, r) && Planned(r)
    ensures Inv(hash, SetRequest(db, i, r))
  {
    LocksStayExclusive(hash, db, i, r);
    RowsStayExclusive(db, i, r);
    AllStay(db.tables, db.requests, i, r);
    assert SetRequest(db, i, r).requests == db.requests[i := r];
  }

  lemma LocksStayExclusive(hash: string -> int, db: Db, i: nat, r: Request)
    requires LocksExclusive(hash, db.requests)
    requires HoldsLock(r) ==>
               || LockFree(hash, db, ReqKey(r))
               || (i in db.requests && HoldsLock(db.requests[i]) && ReqKey(db.requests[i]) == ReqKey(r))
    ensures LocksExclusive(hash, db.requests[i := r])
  {
  }

  lemma AllStay(tables: Tables, requests: map<nat, Request>, i: nat, r: Request)
    requires AllConsistent(tables, requests) && AllPlanned(requests)
    requires Consistent(tables, r) && Planned(r)
    ensures AllConsistent(tables, requests[i := r]) && AllPlanned(requests[i := r])
  {
  }

  lemma RowsStayExclusive(db: Db, i: nat, r: Request)
    requires RowsExclusive(db.requests)
    requires r.phase.Writing? ==> forall k :: k in r.phase.written ==> RowFree(db, i, k)
    ensures RowsExclusive(db.requests[i := r])
  {
  }

  // The statements of a plan, cut off anywhere, write only rows the key may touch.
  lemma WrittenRows(tables: Tables, r: Request)
    requires r.phase.Writing? && Consistent(tables, r) && Planned(r)
    ensures r.phase.written.Keys == Targets(r.phase.plan[..r.phase.next])
    ensures forall k :: k in r.phase.written ==> InPlanOf(k, ReqKey(r))
  {
    var plan, n := r.phase.plan, r.phase.next;
    WritesHitTargets(tables, plan[..n]);
    PlanTargets(r.identity, r.envelope, r.now, r.phase.raw);
    assert forall i :: 0 <= i < n ==> plan[..n][i] == plan[i] && plan[i].key in Targets(plan);
  }

  // A change of committed rows outside what a transaction has touched leaves it consistent.
  lemma ConsistentFrame(t: Tables, u: Tables, r: Request)
    requires Consistent(t, r) && Planned(r)
    requires r.phase.Writing? ==> AgreeOn(t, u, r.phase.written.Keys)
    requires r.phase.Checked? || r.phase.Writing? ==> !Received(u, ReqKey(r))
    ensures Consistent(u, r)
  {
    if r.phase.Writing? {
      WrittenRows(t, r);
      WritesFrame(t, u, r.phase.plan[..r.phase.next]);
    }
  }

  lemma WriteKeepsConsistent(tables: Tables, r: Request)
    requires r.phase.Writing? && r.phase.next < |r.phase.plan|
    requires Consistent(tables, r)
    ensures Consistent(tables, r.(phase := WritePhase(tables, r.phase)))
  {
    var plan, n := r.phase.plan, r.phase.next;
    assert plan[..n + 1][..n] == plan[..n] && plan[..n + 1][n] == plan[n];
  }

  lemma AdvanceKeepsConsistent(hash: string -> int, db: Db, i: nat, action: Action)
    requires i in db.requests && Advance(hash, db, i, action).Some?
    requires Consistent(db.tables, db.requests[i])
    ensures Consistent(db.tables, Moved(db.requests[i], action, Advance(hash, db, i, action).value))
  {
    if action.WriteRow? {
      WriteKeepsConsistent(db.tables, db.requests[i]);
    }
  }

  lemma AdvanceKeepsAdmitted(hash: string -> int, db: Db, i: nat, action: Action)
    requires i in db.requests && Advance(hash, db, i, action).Some?
    requires Admitted(db.requests[i])
    ensures Admitted(Moved(db.requests[i], action, Advance(hash, db, i, action).value))
  {
  }

  lemma AdvanceKeepsPlan(hash: string -> int, db: Db, i: nat, action: Action)
    requires i in db.requests && Advance(hash, db, i, action).Some?
    requires HasPlan(db.requests[i])
    ensures HasPlan(Moved(db.requests[i], action, Advance(hash, db, i, action).value))
  {
  }

  lemma AdvanceRespectsLocks(hash: string -> int, db: Db, i: nat, action: Action)
    requires i in db.requests && Advance(hash, db, i, action).Some?
    requires RowsExclusive(db.requests)
    ensures var r' := Moved(db.requests[i], action, Advance(hash, db, i, action).value);
            && ReqKey(r') == ReqKey(db.requests[i])
            && (HoldsLock(r') ==> LockFree(hash, db, ReqKey(r')) || HoldsLock(db.requests[i]))
            && (r'.phase.Writing? ==> forall k :: k in r'.phase.written ==> RowFree(db, i, k))
  {
  }

  lemma {:induction false} AdvanceKeepsInv(hash: string -> int, db: Db, i: nat, action: Action)
    requires Inv(hash, db) && AdvanceTo(hash, db, i, action).Some?
    ensures Inv(hash, AdvanceTo(hash, db, i, action).value)
  {
    var r' := Moved(db.requests[i], action, Advance(hash, db, i, action).value);
    assert Consistent(db.tables, r') && Planned(r') by {
      AdvanceKeepsConsistent(hash, db, i, action);
      AdvanceKeepsAdmitted(hash, db, i, action);
      AdvanceKeepsPlan(hash, db, i, action);
    }
    AdvanceRespectsLocks(hash, db, i, action);
    OneRequestKeepsInv(hash, db, i, r');
  }

  lemma ReplayNext(log: seq<Event>, event: Event)
    requires Replay(log).Some?
    ensures Replay(log + [event]) == Apply(Replay(log).value, event)
  {
    assert (log + [event])[..|log + [event]| - 1] == log;
  }

  // Committing a finished plan is one atomic insertion.
  lemma CommitIsInsertion(tables: Tables, i: nat, r: Request)
    requires r.phase.Writing? && r.phase.next == |r.phase.plan|
    requires Consistent(tables, r) && HasPlan(r)
    ensures Apply(tables, CommitEvent(i, r)) == Some(tables + r.phase.written)
  {
    assert r.phase.plan[..r.phase.next] == r.phase.plan;
  }

  lemma CommitKeepsConsistent(hash: string -> int, db: Db, i: nat, j: nat)
    requires ReadyToCommit(db, i) && AllConsistent(db.tables, db.requests) && AllPlanned(db.requests)
    requires LocksExclusive(hash, db.requests) && RowsExclusive(db.requests)
    requires j in db.requests && j != i
    ensures Consistent(db.tables + db.requests[i].phase.written, db.requests[j])
  {
    var r, q := db.requests[i], db.requests[j];
    assert Consistent(db.tables, r) && Planned(r) && Consistent(db.tables, q) && Planned(q);
    WrittenRows(db.tables, r);
    if q.phase.Checked? || q.phase.Writing? {
      assert ReqKey(q) != ReqKey(r);
      assert !InPlanOf(BatchKey(ReqKey(q)), ReqKey(r)) && !InPlanOf(ReceiptKey(ReqKey(q)), ReqKey(r));
    }
    ConsistentFrame(db.tables, db.tables + r.phase.written, q);
  }

  lemma FinishKeepsExclusive(hash: string -> int, requests: map<nat, Request>, i: nat, r: Request)
    requires LocksExclusive(hash, requests) && RowsExclusive(requests) && !HoldsLock(r)
    ensures LocksExclusive(hash, requests[i := r]) && RowsExclusive(requests[i := r])
  {
  }

  lemma CommitKeepsAllConsistent(hash: string -> int, db: Db, i: nat, r: Request)
    requires Inv(hash, db) && ReadyToCommit(db, i) && r.phase.Done?
    ensures AllConsistent(db.tables + db.requests[i].phase.written, db.requests[i := r])
  {
    var requests, tables := db.requests[i := r], db.tables + db.requests[i].phase.written;
    forall j | j in requests ensures Consistent(tables, requests[j]) {
      if j != i { CommitKeepsConsistent(hash, db, i, j); }
    }
  }

  lemma {:induction false} CommitKeepsInv(hash: string -> int, db: Db, i: nat, acknowledged: bool)
    requires Inv(hash, db) && ReadyToCommit(db, i)
    ensures Inv(hash, CommitTo(db, i, acknowledged))
  {
    var r := db.requests[i].(phase := Done(if acknowledged then Accepted else Refused));
    var db' := CommitTo(db, i, acknowledged);
    assert db'.requests == db.requests[i := r];
    ReplayNext(db.log, CommitEvent(i, db.requests[i]));
    CommitIsInsertion(db.tables, i, db.requests[i]);
    FinishKeepsExclusive(hash, db.requests, i, r);
    CommitKeepsAllConsistent(hash, db, i, r);
    assert AllPlanned(db'.requests);
    assert LogAcceptable(db'.log) by {
      assert Planned(db.requests[i]);
    }
  }

  lemma {:induction false} RetainKeepsInv(hash: string -> int, db: Db, keys: set<string>, cutoff: Metric.Time)
    requires Inv(hash, db) && Expired(db.tables, keys, cutoff)
    ensures Inv(hash, RetainTo(db, keys, cutoff))
  {
    var tables := Purge(db.tables, keys);
    forall j | j in db.requests ensures Consistent(tables, db.requests[j]) {
      RetainKeepsConsistent(db.tables, keys, cutoff, db.requests[j]);
    }
    ReplayNext(db.log, Purged(keys, cutoff));
  }

  lemma RetainKeepsConsistent(tables: Tables, keys: set<string>, cutoff: Metric.Time, q: Request)
    requires Expired(tables, keys, cutoff) && Consistent(tables, q) && Planned(q)
    ensures Consistent(Purge(tables, keys), q)
  {
    if q.phase.Writing? {
      WrittenRows(tables, q);
      assert ReqKey(q) !in keys;
      assert forall k :: k in q.phase.written ==> !OwnedBy(k, keys);
    }
    ConsistentFrame(tables, Purge(tables, keys), q);
  }

  lemma {:induction false} StepKeepsInv(hash: string -> int, db: Db, step: Step)
    requires Inv(hash, db) && Exec(hash, db, step).Some?
    ensures Inv(hash, Exec(hash, db, step).value)
  {
    match step
    case Submit(i, id, e) => OneRequestKeepsInv(hash, db, i, Request(id, e, 0, Waiting));
    case Act(i, action) => AdvanceKeepsInv(hash, db, i, action);
    case Commit(i, acknowledged) => CommitKeepsInv(hash, db, i, acknowledged);
    case Retain(keys, cutoff) => RetainKeepsInv(hash, db, keys, cutoff);
    case SetCapacity(_) =>
  }

  // ---------- Whole runs ----------

  function Run(hash: string -> int, db: Db, steps: seq<Step>): Option<Db> {
    if steps == [] then Some(db) else
    match Run(hash, db, steps[..|steps| - 1])
    case None => None
    case Some(before) => Exec(hash, before, steps[|steps| - 1])
  }

  lemma {:induction false} RunKeepsInv(hash: string -> int, steps: seq<Step>)
    requires Run(hash, EMPTY, steps).Some?
    ensures Inv(hash, Run(hash, EMPTY, steps).value)
  {
    if steps != [] {
      RunKeepsInv(hash, steps[..|steps| - 1]);
      StepKeepsInv(hash, Run(hash, EMPTY, steps[..|steps| - 1]).value, steps[|steps| - 1]);
    }
  }

  // Every interleaving commits exactly what a serial run of insert-if-absent commits.
  lemma {:induction false} Serializable(hash: string -> int, steps: seq<Step>)
    requires Run(hash, EMPTY, steps).Some?
    ensures Replay(Run(hash, EMPTY, steps).value.log) == Some(Run(hash, EMPTY, steps).value.tables)
    ensures LogAcceptable(Run(hash, EMPTY, steps).value.log)
  {
    RunKeepsInv(hash, steps);
  }

  // ---------- The retention mode of an insertion ----------

  // Step n reads the capacity for request i and finds raw retention granted or not.
  ghost predicate ReadsMode(hash: string -> int, steps: seq<Step>, n: nat, i: nat, raw: bool) {
    && n < |steps| && steps[n] == Act(i, ReadCapacity)
    && Run(hash, EMPTY, steps[..n]).Some?
    && (raw <==> Run(hash, EMPTY, steps[..n]).value.capacity == Some(true))
  }

  ghost predicate ModeWasRead(hash: string -> int, steps: seq<Step>, i: nat, raw: bool) {
    exists n: nat :: ReadsMode(hash, steps, n, i, raw)
  }

  lemma EarlierModeWasRead(hash: string -> int, steps: seq<Step>, i: nat, raw: bool)
    requires steps != [] && ModeWasRead(hash, steps[..|steps| - 1], i, raw)
    ensures ModeWasRead(hash, steps, i, raw)
  {
    var n: nat :| ReadsMode(hash, steps[..|steps| - 1], n, i, raw);
    assert steps[..|steps| - 1][..n] == steps[..n];
    assert ReadsMode(hash, steps, n, i, raw);
  }

  // A transaction that writes has chosen its mode by the capacity it read.
  lemma {:induction false} WritingModeWasRead(hash: string -> int, steps: seq<Step>, i: nat)
    requires Run(hash, EMPTY, steps).Some? && i in Run(hash, EMPTY, steps).value.requests
    requires Run(hash, EMPTY, steps).value.requests[i].phase.Writing?
    ensures ModeWasRead(hash, steps, i, Run(hash, EMPTY, steps).value.requests[i].phase.raw)
  {
    var n := |steps| - 1;
    var before, raw := Run(hash, EMPTY, steps[..n]).value, Run(hash, EMPTY, steps).value.requests[i].phase.raw;
    if steps[n] == Act(i, ReadCapacity) {
      assert ReadsMode(hash, steps, n, i, raw);
    } else {
      assert i in before.requests && before.requests[i].phase.Writing? && before.requests[i].phase.raw == raw;
      WritingModeWasRead(hash, steps[..n], i);
      EarlierModeWasRead(hash, steps, i, raw);
    }
  }

  // Every insertion kept raw rows exactly when its own request found the capacity record
  // granting them.
  lemma {:induction false} InsertedModeWasRead(hash: string -> int, steps: seq<Step>, k: nat)
    requires Run(hash, EMPTY, steps).Some? && k < |Run(hash, EMPTY, steps).value.log|
    requires Run(hash, EMPTY, steps).value.log[k].Inserted?
    ensures ModeWasRead(hash, steps, Run(hash, EMPTY, steps).value.log[k].request, Run(hash, EMPTY, steps).value.log[k].raw)
  {
    var n := |steps| - 1;
    var before, event := Run(hash, EMPTY, steps[..n]).value, Run(hash, EMPTY, steps).value.log[k];
    if k < |before.log| {
      assert before.log[k] == event;
      InsertedModeWasRead(hash, steps[..n], k);
    } else {
      WritingModeWasRead(hash, steps[..n], event.request);
    }
    EarlierModeWasRead(hash, steps, event.request, event.raw);
  }

  predicate PastReading(db: Db, i: nat) {
    i in db.requests && (db.requests[i].phase.Writing? || db.requests[i].phase.Done?)
  }

  lemma ReadingIsPast(hash: string -> int, db: Db, i: nat)
    requires Exec(hash, db, Act(i, ReadCapacity)).Some?
    ensures !PastReading(db, i) && PastReading(Exec(hash, db, Act(i, ReadCapacity)).value, i)
  {
  }

  lemma StaysPastReading(hash: string -> int, db: Db, step: Step, i: nat)
    requires Exec(hash, db, step).Some? && PastReading(db, i)
    ensures PastReading(Exec(hash, db, step).value, i)
  {
  }

  lemma {:induction false} HasReadIsPast(hash: string -> int, steps: seq<Step>, i: nat)
    requires Run(hash, EMPTY, steps).Some? && Act(i, ReadCapacity) in steps
    ensures PastReading(Run(hash, EMPTY, steps).value, i)
  {
    var n := |steps| - 1;
    var before := Run(hash, EMPTY, steps[..n]).value;
    if steps[n] == Act(i, ReadCapacity) {
      ReadingIsPast(hash, before, i);
    } else {
      HasReadIsPast(hash, steps[..n], i);
      StaysPastReading(hash, before, steps[n], i);
    }
  }

  // A request reads the capacity once, so the mode it found is the only one.
  lemma ReadsModeOnce(hash: string -> int, steps: seq<Step>, i: nat)
    requires steps != [] && Run(hash, EMPTY, steps).Some? && steps[|steps| - 1] == Act(i, ReadCapacity)
    ensures Act(i, ReadCapacity) !in steps[..|steps| - 1]
  {
    var n := |steps| - 1;
    ReadingIsPast(hash, Run(hash, EMPTY, steps[..n]).value, i);
    if Act(i, ReadCapacity) in steps[..n] { HasReadIsPast(hash, steps[..n], i); }
  }
}
