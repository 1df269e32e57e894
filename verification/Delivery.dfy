// One agent, any number of replicas and other agents, one database. The agent draws stamps
// from its sequence store, builds one envelope per stamp and posts it as often and wherever it
// likes; requests are served late or never, answers are lost, processes crash, the kernel
// restarts, capacity flips and the retention job runs. Every envelope is stored at most once
// while its receipt is retained, and one whose delivery was reported was stored exactly once.
//
// An envelope is meant here in the form its posts decode to: one payload is built per stamp and
// every post carries it (Runner.EveryPostCarriesTheKey), so one build has one decoded form.
module Delivery {
  import opened Wrappers
  import Metric
  import Envelopes
  import Keys = IdempotencyKeys
  import opened Tables
  import opened Transactions
  import opened Receipts
  import opened SequenceStore

  datatype System = System(
    db: Db,
    store: SeqState,
    identity: Identity,
    built: seq<Envelopes.Envelope>,
    current: Option<Envelopes.Envelope>,
    posted: set<nat>,
    reported: set<Envelopes.Envelope>)

  datatype Move =
    | Stored(storeStep: SeqStep)             // the sequence store, up to its last rename
    | Build(envelope: Envelopes.Envelope)              // Next returns and the envelope is built from its stamp
    | Post(request: nat)                     // to either replica, at any attempt
    | Confirm(request: nat)                  // a 2xx answer to one of this envelope's posts arrives
    | GiveUp                                 // final error, attempts exhausted or cancellation
    | Served(step: Step)                     // any step on the database side, or of another agent

  function Initial(identity: Identity, bootId: string): System {
    System(EMPTY, FirstBoot(bootId), identity, [], None, {}, {})
  }

  predicate StampedWith(e: Envelopes.Envelope, identity: Identity, stamp: Stamp) {
    e.agentId == identity.agentId && e.bootId == stamp.bootId && e.sequence == stamp.sequence
  }

  // What another party may submit: under a credential of its own. Agent identities are UUIDs
  // in the database, so none holds a colon.
  predicate ForeignSubmission(step: Step, identity: Identity) {
    step.Submit? ==> step.identity.agentId != identity.agentId && ':' !in step.identity.agentId
  }

  function SysExec(hash: string -> int, s: System, move: Move): Option<System> {
    match move
    case Stored(step) =>
      if step.Return? || SeqExec(s.store, step).None? then None
      else
        var dead := step.Crash? || step.Reboot?;
        Some(s.(store := SeqExec(s.store, step).value,
                current := if dead then None else s.current,
                posted := if dead then {} else s.posted))
    case Build(e) =>
      if s.current.Some? || SeqExec(s.store, Return).None? || !StampedWith(e, s.identity, s.store.memory.value) then None
      else Some(s.(store := SeqExec(s.store, Return).value, built := s.built + [e], current := Some(e), posted := {}))
    case Post(i) =>
      if s.current.None? then None else
      (match Exec(hash, s.db, Submit(i, s.identity, s.current.value))
       case None => None
       case Some(db) => Some(s.(db := db, posted := s.posted + {i})))
    case Confirm(i) =>
      if s.current.None? || i !in s.posted || i !in s.db.requests || !Succeeded(s.db.requests[i]) then None
      else Some(s.(reported := s.reported + {s.current.value}, current := None, posted := {}))
    case GiveUp =>
      Some(s.(current := None, posted := {}))
    case Served(step) =>
      if !ForeignSubmission(step, s.identity) then None else
      match Exec(hash, s.db, step)
      case None => None
      case Some(db) => Some(s.(db := db))
  }

  // The handler answers 202 for an insertion and 200 for a duplicate, 400 for every error.
  predicate Succeeded(r: Request) {
    r.phase == Done(Accepted) || r.phase == Done(Duplicate)
  }

  // ---------- What one database step does to requests and history ----------

  ghost predicate Grows(db: Db, db': Db) {
    && (forall i :: i in db.requests ==>
          && i in db'.requests
          && db'.requests[i].identity == db.requests[i].identity
          && db'.requests[i].envelope == db.requests[i].envelope)
    && (db'.log == db.log || (|db'.log| == |db.log| + 1 && db'.log[..|db.log|] == db.log))
  }

  // An insertion is made for a known request.
  ghost predicate EventFrom(event: Event, requests: map<nat, Request>) {
    event.Inserted? ==>
      && event.request in requests
      && requests[event.request].identity == event.identity
      && requests[event.request].envelope == event.envelope
  }

  lemma DbStepGrows(hash: string -> int, db: Db, step: Step)
    requires Exec(hash, db, step).Some?
    ensures Grows(db, Exec(hash, db, step).value)
    ensures var db' := Exec(hash, db, step).value;
            && (|db'.log| > |db.log| ==> EventFrom(db'.log[|db.log|], db.requests))
            && (forall i :: i in db'.requests && i !in db.requests ==>
                  step.Submit? && db'.requests[i] == Request(step.identity, step.envelope, 0, Waiting))
  {
  }

  // ---------- The invariant ----------

  ghost predicate BuiltFromStamps(s: System) {
    |s.built| == |s.store.issued|
    && forall i :: 0 <= i < |s.built| ==> StampedWith(s.built[i], s.identity, s.store.issued[i])
  }

  // Whoever submits under the agent's credential is the agent itself.
  ghost predicate Sourced(identity: Identity, from: Identity, e: Envelopes.Envelope, built: seq<Envelopes.Envelope>) {
    ':' !in from.agentId && (from.agentId == identity.agentId ==> e in built)
  }

  ghost predicate RequestsSourced(s: System) {
    forall i :: i in s.db.requests ==> Sourced(s.identity, s.db.requests[i].identity, s.db.requests[i].envelope, s.built)
  }

  ghost predicate LogSourced(s: System) {
    forall i :: 0 <= i < |s.db.log| && s.db.log[i].Inserted? ==>
      Sourced(s.identity, s.db.log[i].identity, s.db.log[i].envelope, s.built)
  }

  ghost predicate AnswersTrue(db: Db) {
    forall i :: i in db.requests && Succeeded(db.requests[i]) ==> Inserts(db.log, ReqKey(db.requests[i])) >= 1
  }

  ghost predicate AgentTracks(s: System) {
    && (s.current.Some? ==> s.current.value in s.built)
    && (forall i :: i in s.posted ==>
          i in s.db.requests && s.current.Some? && s.db.requests[i].envelope == s.current.value)
    && (forall e :: e in s.reported ==> e in s.built && Inserts(s.db.log, Keys.EnvelopeKey(e)) >= 1)
  }

  ghost predicate SysInv(hash: string -> int, s: System) {
    && ':' !in s.identity.agentId
    && Inv(hash, s.db)
    && SeqInv(s.store)
    && BuiltFromStamps(s)
    && RequestsSourced(s)
    && LogSourced(s)
    && AnswersTrue(s.db)
    && AgentTracks(s)
  }

  // ---------- Preservation ----------

  lemma InsertsGrow(db: Db, db': Db, key: string)
    requires Grows(db, db')
    ensures Inserts(db.log, key) <= Inserts(db'.log, key)
  {
  }

  // A request answers success only once its key has been inserted.
  lemma {:induction false} AnswersStayTrue(hash: string -> int, db: Db, step: Step)
    requires Inv(hash, db) && AnswersTrue(db) && Exec(hash, db, step).Some?
    ensures AnswersTrue(Exec(hash, db, step).value)
  {
    var db' := Exec(hash, db, step).value;
    DbStepGrows(hash, db, step);
    forall i | i in db'.requests && Succeeded(db'.requests[i])
      ensures Inserts(db'.log, ReqKey(db'.requests[i])) >= 1
    {
      InsertsGrow(db, db', ReqKey(db'.requests[i]));
      ReceiptsConserved(db.log, ReqKey(db'.requests[i]));
      AnswerBacked(hash, db, step, i);
    }
  }

  // Where a success answer comes from: an earlier one, a receipt found, or a commit just made.
  lemma AnswerBacked(hash: string -> int, db: Db, step: Step, i: nat)
    requires Exec(hash, db, step).Some?
    requires i in Exec(hash, db, step).value.requests && Succeeded(Exec(hash, db, step).value.requests[i])
    ensures i in db.requests
    ensures || Succeeded(db.requests[i])
            || Received(db.tables, ReqKey(db.requests[i]))
            || Inserts(Exec(hash, db, step).value.log, ReqKey(db.requests[i])) >= 1
  {
    match step
    case Commit(j, acknowledged) =>
      if i == j {
        var event := CommitEvent(j, db.requests[j]);
        assert (db.log + [event])[..|db.log + [event]| - 1] == db.log;
      }
    case _ =>
  }

  lemma LogStaysSourced(hash: string -> int, s: System, step: Step)
    requires RequestsSourced(s) && LogSourced(s) && Exec(hash, s.db, step).Some?
    ensures LogSourced(s.(db := Exec(hash, s.db, step).value))
  {
    var db' := Exec(hash, s.db, step).value;
    DbStepGrows(hash, s.db, step);
    forall i | 0 <= i < |db'.log| && db'.log[i].Inserted?
      ensures Sourced(s.identity, db'.log[i].identity, db'.log[i].envelope, s.built)
    {
      if i < |s.db.log| { assert db'.log[i] == db'.log[..|s.db.log|][i] == s.db.log[i]; }
    }
  }

  lemma RequestsStaySourced(hash: string -> int, s: System, step: Step)
    requires RequestsSourced(s) && Exec(hash, s.db, step).Some?
    requires step.Submit? ==> Sourced(s.identity, step.identity, step.envelope, s.built)
    ensures RequestsSourced(s.(db := Exec(hash, s.db, step).value))
  {
    DbStepGrows(hash, s.db, step);
  }

  lemma ReportsStayTrue(hash: string -> int, s: System, step: Step)
    requires AgentTracks(s) && Exec(hash, s.db, step).Some?
    ensures forall e :: e in s.reported ==> e in s.built && Inserts(Exec(hash, s.db, step).value.log, Keys.EnvelopeKey(e)) >= 1
  {
    DbStepGrows(hash, s.db, step);
    forall e | e in s.reported ensures Inserts(Exec(hash, s.db, step).value.log, Keys.EnvelopeKey(e)) >= 1 {
      InsertsGrow(s.db, Exec(hash, s.db, step).value, Keys.EnvelopeKey(e));
    }
  }

  lemma {:induction false} DbMoveKeepsInv(hash: string -> int, s: System, step: Step, s': System)
    requires SysInv(hash, s) && Exec(hash, s.db, step).Some?
    requires step.Submit? ==> Sourced(s.identity, step.identity, step.envelope, s.built)
    requires s' == s.(db := Exec(hash, s.db, step).value, posted := s'.posted)
    requires forall i :: i in s'.posted ==>
               i in s.posted || (step.Submit? && step.request == i && s.current == Some(step.envelope))
    ensures SysInv(hash, s')
  {
    StepKeepsInv(hash, s.db, step);
    AnswersStayTrue(hash, s.db, step);
    RequestsStaySourced(hash, s, step);
    LogStaysSourced(hash, s, step);
    ReportsStayTrue(hash, s, step);
    PostedStay(s, step, s', hash);
  }

  lemma PostedStay(s: System, step: Step, s': System, hash: string -> int)
    requires AgentTracks(s) && Exec(hash, s.db, step).Some?
    requires s' == s.(db := Exec(hash, s.db, step).value, posted := s'.posted)
    requires forall i :: i in s'.posted ==>
               i in s.posted || (step.Submit? && step.request == i && s.current == Some(step.envelope))
    ensures forall i :: i in s'.posted ==>
              i in s'.db.requests && s'.current.Some? && s'.db.requests[i].envelope == s'.current.value
  {
    DbStepGrows(hash, s.db, step);
  }

  lemma BuildKeepsInv(hash: string -> int, s: System, e: Envelopes.Envelope)
    requires SysInv(hash, s) && SysExec(hash, s, Build(e)).Some?
    ensures SysInv(hash, SysExec(hash, s, Build(e)).value)
  {
    var s' := SysExec(hash, s, Build(e)).value;
    SeqStepKeepsInv(s.store, Return);
    assert forall x :: x in s.built ==> x in s'.built;
    assert e in s'.built;
  }

  lemma StoredKeepsInv(hash: string -> int, s: System, step: SeqStep)
    requires SysInv(hash, s) && SysExec(hash, s, Stored(step)).Some?
    ensures SysInv(hash, SysExec(hash, s, Stored(step)).value)
  {
    SeqStepKeepsInv(s.store, step);
  }

  lemma ConfirmKeepsInv(hash: string -> int, s: System, request: nat)
    requires SysInv(hash, s) && SysExec(hash, s, Confirm(request)).Some?
    ensures SysInv(hash, SysExec(hash, s, Confirm(request)).value)
  {
  }

  lemma {:induction false} MoveKeepsInv(hash: string -> int, s: System, move: Move)
    requires SysInv(hash, s) && SysExec(hash, s, move).Some?
    ensures SysInv(hash, SysExec(hash, s, move).value)
  {
    var s' := SysExec(hash, s, move).value;
    match move
    case Stored(step) => StoredKeepsInv(hash, s, step);
    case Build(e) => BuildKeepsInv(hash, s, e);
    case Post(i) => DbMoveKeepsInv(hash, s, Submit(i, s.identity, s.current.value), s');
    case Confirm(i) => ConfirmKeepsInv(hash, s, i);
    case GiveUp =>
    case Served(step) => DbMoveKeepsInv(hash, s, step, s');
  }

  function SysRun(hash: string -> int, s: System, moves: seq<Move>): Option<System> {
    if moves == [] then Some(s) else
    match SysRun(hash, s, moves[..|moves| - 1])
    case None => None
    case Some(before) => SysExec(hash, before, moves[|moves| - 1])
  }

  lemma SysNext(hash: string -> int, s: System, moves: seq<Move>, move: Move)
    requires SysRun(hash, s, moves).Some?
    ensures SysRun(hash, s, moves + [move]) == SysExec(hash, SysRun(hash, s, moves).value, move)
  {
    assert (moves + [move])[..|moves + [move]| - 1] == moves;
  }

  lemma MoveKeepsIdentity(hash: string -> int, s: System, move: Move)
    requires SysExec(hash, s, move).Some?
    ensures SysExec(hash, s, move).value.identity == s.identity
  {
  }

  lemma InitialInv(hash: string -> int, identity: Identity, bootId: string)
    requires ':' !in identity.agentId
    ensures SysInv(hash, Initial(identity, bootId))
  {
  }

  lemma {:induction false} SysRunKeepsInv(hash: string -> int, identity: Identity, bootId: string, moves: seq<Move>)
    requires ':' !in identity.agentId
    requires SysRun(hash, Initial(identity, bootId), moves).Some?
    ensures SysInv(hash, SysRun(hash, Initial(identity, bootId), moves).value)
    ensures SysRun(hash, Initial(identity, bootId), moves).value.identity == identity
  {
    if moves == [] {
      InitialInv(hash, identity, bootId);
    } else {
      var n := |moves| - 1;
      SysRunKeepsInv(hash, identity, bootId, moves[..n]);
      var before := SysRun(hash, Initial(identity, bootId), moves[..n]).value;
      MoveKeepsInv(hash, before, moves[n]);
      MoveKeepsIdentity(hash, before, moves[n]);
    }
  }

  // ---------- The guarantees ----------

  // How often this very envelope, not merely its key, has been stored.
  function TimesStored(log: seq<Event>, e: Envelopes.Envelope): nat {
    if log == [] then 0 else
    var last := log[|log| - 1];
    TimesStored(log[..|log| - 1], e) + if last.Inserted? && last.envelope == e then 1 else 0
  }

  // No other submission in the history shares the key of an envelope the agent built.
  lemma KeyNamesEnvelope(hash: string -> int, s: System, e: Envelopes.Envelope, i: nat)
    requires SysInv(hash, s) && s.store.calls < SEQUENCE_MODULUS && e in s.built
    requires i < |s.db.log| && s.db.log[i].Inserted? && Keys.EnvelopeKey(s.db.log[i].envelope) == Keys.EnvelopeKey(e)
    ensures s.db.log[i].envelope == e
  {
    var event := s.db.log[i];
    assert EventAcceptable(event) && Sourced(s.identity, event.identity, event.envelope, s.built);
    assert event.envelope.agentId == event.identity.agentId;
    var j :| 0 <= j < |s.built| && s.built[j] == e;
    Keys.KeyInjective(event.envelope.agentId, event.envelope.bootId, event.envelope.sequence, e.agentId, e.bootId, e.sequence);
    var k :| 0 <= k < |s.built| && s.built[k] == event.envelope;
    assert s.store.issued[j] == s.store.issued[k];
    assert j == k;
  }

  lemma {:induction false} KeyCountsEnvelope(log: seq<Event>, e: Envelopes.Envelope)
    requires forall i :: 0 <= i < |log| && log[i].Inserted? && Keys.EnvelopeKey(log[i].envelope) == Keys.EnvelopeKey(e) ==>
               log[i].envelope == e
    ensures TimesStored(log, e) == Inserts(log, Keys.EnvelopeKey(e))
  {
    if log != [] { KeyCountsEnvelope(log[..|log| - 1], e); }
  }

  // For every envelope the agent ever built, in every run with fewer than 2^64 stamps drawn:
  // it has been stored once for each time the retention job has deleted it, plus once if its
  // receipt is there now. If its delivery was reported, it has been stored.
  lemma StoredOncePerReceipt(hash: string -> int, identity: Identity, bootId: string, moves: seq<Move>, e: Envelopes.Envelope)
    requires ':' !in identity.agentId
    requires SysRun(hash, Initial(identity, bootId), moves).Some?
    requires SysRun(hash, Initial(identity, bootId), moves).value.store.calls < SEQUENCE_MODULUS
    requires e in SysRun(hash, Initial(identity, bootId), moves).value.built
    ensures var s := SysRun(hash, Initial(identity, bootId), moves).value;
            && TimesStored(s.db.log, e) 
               == Purges(s.db.log, Keys.EnvelopeKey(e)) + (if Received(s.db.tables, Keys.EnvelopeKey(e)) then 1 else 0)
            && !(BatchKey(Keys.EnvelopeKey(e)) in s.db.tables && ReceiptKey(Keys.EnvelopeKey(e)) in s.db.tables)
            && (e in s.reported ==> TimesStored(s.db.log, e) >= 1)
  {
    var s := SysRun(hash, Initial(identity, bootId), moves).value;
    SysRunKeepsInv(hash, identity, bootId, moves);
    forall i | 0 <= i < |s.db.log| && s.db.log[i].Inserted? && Keys.EnvelopeKey(s.db.log[i].envelope) == Keys.EnvelopeKey(e)
      ensures s.db.log[i].envelope == e
    {
      KeyNamesEnvelope(hash, s, e, i);
    }
    KeyCountsEnvelope(s.db.log, e);
    ReceiptsConserved(s.db.log, Keys.EnvelopeKey(e));
  }

  // As long as the retention job's cutoffs stay short of 48 hours after the envelope's receipt,
  // it is stored at most once; if its delivery was reported, exactly once, and its receipt is
  // still in place.
  lemma ExactlyOnce(hash: string -> int, identity: Identity, bootId: string, moves: seq<Move>,
                     e: Envelopes.Envelope, since: Metric.Time)
    requires ':' !in identity.agentId
    requires SysRun(hash, Initial(identity, bootId), moves).Some?
    requires SysRun(hash, Initial(identity, bootId), moves).value.store.calls < SEQUENCE_MODULUS
    requires e in SysRun(hash, Initial(identity, bootId), moves).value.built
    requires ReceivedSince(SysRun(hash, Initial(identity, bootId), moves).value.db.log, Keys.EnvelopeKey(e), since)
    requires CutoffsBefore(SysRun(hash, Initial(identity, bootId), moves).value.db.log, Expiry(since))
    ensures var s := SysRun(hash, Initial(identity, bootId), moves).value;
            && TimesStored(s.db.log, e) <= 1
            && (TimesStored(s.db.log, e) == 1 <==> Received(s.db.tables, Keys.EnvelopeKey(e)))
            && (e in s.reported ==> TimesStored(s.db.log, e) == 1)
  {
    var s := SysRun(hash, Initial(identity, bootId), moves).value;
    StoredOncePerReceipt(hash, identity, bootId, moves, e);
    SysRunKeepsInv(hash, identity, bootId, moves);
    ReceiptsFollowed(s.db.log, Keys.EnvelopeKey(e));
    NotPurgedEarly(s.db.log, Keys.EnvelopeKey(e), since);
  }
}
