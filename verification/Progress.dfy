// The guarantees of the other modules are about runs that get somewhere: a request that is
// served alone is stored whenever the schema can hold it, and the agent can get any such
// envelope reported from a fresh start.
module Progress {
  import opened Wrappers
  import Metric
  import Envelopes
  import Keys = IdempotencyKeys
  import opened Tables
  import opened Transactions
  import RawBatches
  import Admission
  import opened SequenceStore
  import opened Delivery

  // No other request is inside its transaction.
  predicate Alone(db: Db, i: nat) {
    i in db.requests && forall j :: j in db.requests && j != i ==> !HoldsLock(db.requests[j])
  }

  lemma RunNext(hash: string -> int, db: Db, steps: seq<Step>, step: Step)
    requires Run(hash, db, steps).Some?
    ensures Run(hash, db, steps + [step]) == Exec(hash, Run(hash, db, steps).value, step)
  {
    assert (steps + [step])[..|steps + [step]| - 1] == steps;
  }

  lemma {:induction false} WritesPrefix(t: Tables, stmts: seq<Statement>, k: nat)
    requires Writes(t, stmts).Some? && k <= |stmts|
    ensures Writes(t, stmts[..k]).Some?
  {
    if k < |stmts| {
      WritesPrefix(t, stmts[..|stmts| - 1], k);
      assert stmts[..|stmts| - 1][..k] == stmts[..k];
    } else {
      assert stmts[..k] == stmts;
    }
  }

  // The state in which request i, begun at now, is in this phase and nothing else has changed.
  function InPhase(db: Db, i: nat, now: Metric.Time, phase: Phase): Db
    requires i in db.requests
  {
    SetRequest(db, i, db.requests[i].(now := now, phase := phase))
  }

  lemma Moves(hash: string -> int, db: Db, i: nat, now: Metric.Time, p: Phase, action: Action, q: Phase)
    requires i in db.requests && !action.Begin?
    requires Advance(hash, InPhase(db, i, now, p), i, action) == Some(q)
    ensures Exec(hash, InPhase(db, i, now, p), Act(i, action)) == Some(InPhase(db, i, now, q))
  {
    assert InPhase(db, i, now, p).requests[i := InPhase(db, i, now, q).requests[i]] == InPhase(db, i, now, q).requests;
  }

  // The writing transaction after k statements.
  function WrittenSoFar(tables: Tables, raw: bool, plan: seq<Statement>, k: nat): Phase
    requires k <= |plan| && Writes(tables, plan[..k]).Some?
  {
    Writing(raw, plan, k, Writes(tables, plan[..k]).value)
  }

  lemma WriteAdvances(hash: string -> int, db: Db, i: nat, now: Metric.Time, raw: bool, plan: seq<Statement>, k: nat)
    requires Alone(db, i) && k < |plan|
    requires Writes(db.tables, plan[..k]).Some? && Writes(db.tables, plan[..k + 1]).Some?
    ensures Advance(hash, InPhase(db, i, now, WrittenSoFar(db.tables, raw, plan, k)), i, WriteRow)
         == Some(WrittenSoFar(db.tables, raw, plan, k + 1))
  {
    assert plan[..k + 1][..k] == plan[..k] && plan[..k + 1][k] == plan[k];
    assert RowFree(InPhase(db, i, now, WrittenSoFar(db.tables, raw, plan, k)), i, plan[k].key);
  }

  lemma OneWrite(hash: string -> int, db: Db, i: nat, now: Metric.Time, raw: bool, plan: seq<Statement>, k: nat)
    requires Alone(db, i) && k < |plan|
    requires Writes(db.tables, plan[..k]).Some? && Writes(db.tables, plan[..k + 1]).Some?
    ensures Exec(hash, InPhase(db, i, now, WrittenSoFar(db.tables, raw, plan, k)), Act(i, WriteRow))
         == Some(InPhase(db, i, now, WrittenSoFar(db.tables, raw, plan, k + 1)))
  {
    WriteAdvances(hash, db, i, now, raw, plan, k);
    Moves(hash, db, i, now, WrittenSoFar(db.tables, raw, plan, k), WriteRow, WrittenSoFar(db.tables, raw, plan, k + 1));
  }

  lemma {:induction false} AllWrites(hash: string -> int, steps: seq<Step>, db: Db, i: nat, now: Metric.Time, raw: bool,
                                     plan: seq<Statement>, k: nat) returns (more: seq<Step>)
    requires Alone(db, i) && Writes(db.tables, plan).Some? && k <= |plan| && OwnSteps(steps)
    requires Run(hash, db, steps) == Some(InPhase(db, i, now, Writing(raw, plan, 0, map[])))
    ensures Writes(db.tables, plan[..k]).Some? && OwnSteps(more)
    ensures Run(hash, db, more) == Some(InPhase(db, i, now, WrittenSoFar(db.tables, raw, plan, k)))
  {
    WritesPrefix(db.tables, plan, k);
    if k == 0 { return steps; }
    more := AllWrites(hash, steps, db, i, now, raw, plan, k - 1);
    OneWrite(hash, db, i, now, raw, plan, k - 1);
    RunNext(hash, db, more, Act(i, WriteRow));
    more := more + [Act(i, WriteRow)];
  }

  // Steps that serve requests, and no submission of another party.
  predicate OwnSteps(steps: seq<Step>) {
    forall n :: 0 <= n < |steps| ==> steps[n].Act? || steps[n].Commit?
  }

  lemma ReachesLock(hash: string -> int, db: Db, i: nat, now: Metric.Time) returns (steps: seq<Step>)
    requires Alone(db, i) && db.requests[i].phase.Waiting?
    requires Acceptable(db.requests[i].identity, db.requests[i].envelope, now)
    ensures OwnSteps(steps) && Run(hash, db, steps) == Some(InPhase(db, i, now, Locked))
  {
    assert Exec(hash, db, Act(i, Begin(now))) == Some(InPhase(db, i, now, Begun));
    assert LockFree(hash, InPhase(db, i, now, Begun), ReqKey(db.requests[i]));
    Moves(hash, db, i, now, Begun, Lock, Locked);
    RunNext(hash, db, [], Act(i, Begin(now)));
    RunNext(hash, db, [] + [Act(i, Begin(now))], Act(i, Lock));
    steps := [] + [Act(i, Begin(now))] + [Act(i, Lock)];
  }

  // Up to the decision what to write.
  lemma ReachesWriting(hash: string -> int, db: Db, i: nat, now: Metric.Time) returns (steps: seq<Step>)
    requires Alone(db, i) && db.requests[i].phase.Waiting?
    requires Acceptable(db.requests[i].identity, db.requests[i].envelope, now)
    requires !Received(db.tables, ReqKey(db.requests[i]))
    ensures OwnSteps(steps)
    ensures var r, raw := db.requests[i], db.capacity == Some(true);
            Run(hash, db, steps)
            == Some(InPhase(db, i, now, Writing(raw, Plan(r.identity, r.envelope, now, raw), 0, map[])))
  {
    var r, raw := db.requests[i], db.capacity == Some(true);
    Moves(hash, db, i, now, Locked, CheckReceipt, Checked);
    Moves(hash, db, i, now, Checked, ReadCapacity, Writing(raw, Plan(r.identity, r.envelope, now, raw), 0, map[]));
    steps := ReachesLock(hash, db, i, now);
    RunNext(hash, db, steps, Act(i, CheckReceipt));
    steps := steps + [Act(i, CheckReceipt)];
    RunNext(hash, db, steps, Act(i, ReadCapacity));
    steps := steps + [Act(i, ReadCapacity)];
  }

  // The commit of the whole plan.
  lemma LastStep(hash: string -> int, db: Db, i: nat, now: Metric.Time, raw: bool)
    requires i in db.requests && !Received(db.tables, ReqKey(db.requests[i]))
    requires Persist(db.tables, db.requests[i].identity, db.requests[i].envelope, now, raw).Some?
    ensures var r := db.requests[i];
            var plan := Plan(r.identity, r.envelope, now, raw);
            var db' := Exec(hash, InPhase(db, i, now, Writing(raw, plan, |plan|, Writes(db.tables, plan).value)), Commit(i, true));
            && db'.Some? && db'.value.log == db.log + [Inserted(i, r.identity, r.envelope, now, raw)]
            && i in db'.value.requests && db'.value.requests[i] == r.(now := now, phase := Done(Accepted))
            && Persist(db.tables, r.identity, r.envelope, now, raw) == Some((db'.value.tables, PersistResult(true, raw)))
  {
  }

  // Served alone, a new acceptable submission that the schema can hold is stored and answered
  // as accepted.
  lemma LoneRequestIsStored(hash: string -> int, db: Db, i: nat, now: Metric.Time) returns (steps: seq<Step>)
    requires Alone(db, i) && db.requests[i].phase.Waiting?
    requires Acceptable(db.requests[i].identity, db.requests[i].envelope, now)
    requires !Received(db.tables, ReqKey(db.requests[i])) && RawBatches.BatchIntact(db.tables, ReqKey(db.requests[i]))
    requires Admission.Storable(db.requests[i].envelope, db.capacity == Some(true))
    ensures OwnSteps(steps) && Run(hash, db, steps).Some?
    ensures var r, raw, db' := db.requests[i], db.capacity == Some(true), Run(hash, db, steps).value;
            && db'.log == db.log + [Inserted(i, r.identity, r.envelope, now, raw)]
            && i in db'.requests && db'.requests[i] == r.(now := now, phase := Done(Accepted))
            && Persist(db.tables, r.identity, r.envelope, now, raw) == Some((db'.tables, PersistResult(true, raw)))
  {
    var r, raw := db.requests[i], db.capacity == Some(true);
    var plan := Plan(r.identity, r.envelope, now, raw);
    Admission.StoredExactlyWhenStorable(db.tables, r.identity, r.envelope, now, raw);
    steps := ReachesWriting(hash, db, i, now);
    steps := AllWrites(hash, steps, db, i, now, raw, plan, |plan|);
    assert plan[..|plan|] == plan;
    LastStep(hash, db, i, now, raw);
    RunNext(hash, db, steps, Commit(i, true));
    steps := steps + [Commit(i, true)];
  }

  // Served alone, a submission whose key is received is answered as a duplicate, and one that is
  // not acceptable is refused; neither changes the tables or the history.
  lemma LoneDuplicateIsAnswered(hash: string -> int, db: Db, i: nat, now: Metric.Time) returns (steps: seq<Step>)
    requires Alone(db, i) && db.requests[i].phase.Waiting?
    requires Acceptable(db.requests[i].identity, db.requests[i].envelope, now)
    requires Received(db.tables, ReqKey(db.requests[i]))
    ensures OwnSteps(steps) && Run(hash, db, steps) == Some(InPhase(db, i, now, Done(Duplicate)))
  {
    steps := ReachesLock(hash, db, i, now);
    Moves(hash, db, i, now, Locked, CheckReceipt, Done(Duplicate));
    RunNext(hash, db, steps, Act(i, CheckReceipt));
    steps := steps + [Act(i, CheckReceipt)];
  }

  lemma UnacceptableIsRefused(hash: string -> int, db: Db, i: nat, now: Metric.Time)
    requires i in db.requests && db.requests[i].phase.Waiting?
    requires !Acceptable(db.requests[i].identity, db.requests[i].envelope, now)
    ensures Exec(hash, db, Act(i, Begin(now))) == Some(InPhase(db, i, now, Done(Refused)))
  {
  }

  // A transaction can fail at any point between its begin and its end, and then leaves nothing.
  lemma AbortsExactly(hash: string -> int, db: Db, i: nat)
    ensures Exec(hash, db, Act(i, Abort)).Some? <==>
            i in db.requests && !db.requests[i].phase.Waiting? && !db.requests[i].phase.Done?
    ensures Exec(hash, db, Act(i, Abort)).Some? ==>
              Exec(hash, db, Act(i, Abort)) == Some(InPhase(db, i, db.requests[i].now, Done(Refused)))
  {
  }

  // ---------- The agent's side ----------

  // Steps of the database are moves of the system.
  lemma {:induction false} ServedMoves(hash: string -> int, start: System, moves: seq<Move>, s: System, steps: seq<Step>)
      returns (more: seq<Move>)
    requires SysRun(hash, start, moves) == Some(s) && OwnSteps(steps) && Run(hash, s.db, steps).Some?
    ensures SysRun(hash, start, more) == Some(s.(db := Run(hash, s.db, steps).value))
  {
    if steps == [] { return moves; }
    var n := |steps| - 1;
    more := ServedMoves(hash, start, moves, s, steps[..n]);
    SysNext(hash, start, more, Served(steps[n]));
    more := more + [Served(steps[n])];
  }

  // From a fresh start the agent can draw its first stamp and build an envelope with it.
  lemma CanIncrement(hash: string -> int, identity: Identity, bootId: string) returns (moves: seq<Move>)
    ensures SysRun(hash, Initial(identity, bootId), moves)
         == Some(Initial(identity, bootId).(store := FirstBoot(bootId).(
                   memory := Some(Stamp(bootId, 1)), progress := Incremented, calls := 1)))
  {
    var start := Initial(identity, bootId);
    moves := [];
    SysNext(hash, start, moves, Stored(SeqStep.Open));
    moves := moves + [Stored(SeqStep.Open)];
    SysNext(hash, start, moves, Stored(Increment));
    moves := moves + [Stored(Increment)];
  }

  lemma CanBuild(hash: string -> int, identity: Identity, bootId: string, e: Envelopes.Envelope) returns (moves: seq<Move>, s: System)
    requires StampedWith(e, identity, Stamp(bootId, 1))
    ensures SysRun(hash, Initial(identity, bootId), moves) == Some(s)
    ensures s.db == EMPTY && s.identity == identity && s.built == [e] && s.current == Some(e) && s.posted == {} && s.reported == {}
  {
    var start := Initial(identity, bootId);
    moves := CanIncrement(hash, identity, bootId);
    SysNext(hash, start, moves, Stored(WriteTemp(Complete)));
    moves := moves + [Stored(WriteTemp(Complete))];
    SysNext(hash, start, moves, Stored(Rename(true)));
    moves := moves + [Stored(Rename(true))];
    SysNext(hash, start, moves, Build(e));
    moves := moves + [Build(e)];
    s := SysRun(hash, start, moves).value;
  }

  // Any acceptable envelope with the agent's first stamp that the schema can hold can be
  // delivered: some run ends with its delivery reported.
  lemma CanDeliver(hash: string -> int, identity: Identity, bootId: string, e: Envelopes.Envelope, now: Metric.Time)
      returns (moves: seq<Move>)
    requires StampedWith(e, identity, Stamp(bootId, 1)) && Acceptable(identity, e, now)
    requires Admission.Storable(e, false)
    ensures SysRun(hash, Initial(identity, bootId), moves).Some?
    ensures e in SysRun(hash, Initial(identity, bootId), moves).value.reported
  {
    var start, s := Initial(identity, bootId), Initial(identity, bootId);
    moves, s := CanBuild(hash, identity, bootId, e);
    SysNext(hash, start, moves, Post(0));
    moves := moves + [Post(0)];
    var posted := SysRun(hash, start, moves).value;
    assert posted.db.tables == map[] && RawBatches.OwnSamples(posted.db.tables, Keys.EnvelopeKey(e)) == {};
    var steps := LoneRequestIsStored(hash, posted.db, 0, now);
    moves := ServedMoves(hash, start, moves, posted, steps);
    SysNext(hash, start, moves, Confirm(0));
    moves := moves + [Confirm(0)];
  }
}
