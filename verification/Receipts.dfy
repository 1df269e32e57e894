// Receipts over a serial history, and so, because every interleaving is serializable, over
// any concurrent run: how often a key is stored, and for how long.
module Receipts {
  import opened Wrappers
  import Metric
  import Envelopes
  import Keys = IdempotencyKeys
  import opened Tables
  import opened Transactions

  // ---------- The life of one receipt ----------

  datatype Receipt = Absent | Raw(expiresAt: Metric.Time) | Compact(expiresAt: Metric.Time)

  // What an event does to the receipt of one key; None when it cannot happen.
  function Follow(r: Receipt, event: Event, key: string): Option<Receipt> {
    match event
    case Inserted(_, _, e, now, raw) =>
      if Keys.EnvelopeKey(e) != key then Some(r)
      else if !r.Absent? then None
      else Some(if raw then Raw(Expiry(now)) else Compact(Expiry(now)))
    case Purged(keys, cutoff) =>
      if key !in keys then Some(r)
      else if r.Raw? && r.expiresAt <= cutoff then Some(Absent)
      else None
  }

  function ReceiptAfter(log: seq<Event>, key: string): Option<Receipt> {
    if log == [] then Some(Absent) else
    match ReceiptAfter(log[..|log| - 1], key)
    case None => None
    case Some(r) => Follow(r, log[|log| - 1], key)
  }

  // The tables hold at most one of the two receipts, and it is the one the key's own events say.
  ghost predicate Shows(t: Tables, key: string, r: Receipt) {
    match r
    case Absent => BatchKey(key) !in t && ReceiptKey(key) !in t
    case Raw(x) =>
      ReceiptKey(key) !in t && BatchKey(key) in t && t[BatchKey(key)].BatchRow? && t[BatchKey(key)].expiresAt == x
    case Compact(x) =>
      BatchKey(key) !in t && ReceiptKey(key) in t && t[ReceiptKey(key)].ReceiptRow? && t[ReceiptKey(key)].expiresAt == x
  }

  lemma PlanReceipt(t: Tables, id: Identity, e: Envelopes.Envelope, now: Metric.Time, raw: bool, key: string)
    requires Writes(t, Plan(id, e, now, raw)).Some?
    ensures var w := Writes(t, Plan(id, e, now, raw)).value;
            if Keys.EnvelopeKey(e) != key then BatchKey(key) !in w && ReceiptKey(key) !in w
            else var s := ReceiptStatement(id, e, now, raw);
                 && (BatchKey(key) in w <==> raw) && (ReceiptKey(key) in w <==> !raw)
                 && Lookup(w, s.key) == Some(s.row)
  {
    var stmts := Plan(id, e, now, raw);
    WritesHitTargets(t, stmts);
    PlanTargets(id, e, now, raw);
    PlanFits(id, e, now, raw);
    assert stmts[0] == ReceiptStatement(id, e, now, raw);
    PlainInsert(t, stmts, 0);
  }

  lemma EventFollowed(t: Tables, event: Event, key: string, r: Receipt)
    requires Apply(t, event).Some? && Shows(t, key, r)
    ensures Follow(r, event, key).Some? && Shows(Apply(t, event).value, key, Follow(r, event, key).value)
  {
    if event.Inserted? {
      PlanReceipt(t, event.identity, event.envelope, event.now, event.raw, key);
    }
  }

  lemma {:induction false} ReceiptsFollowed(log: seq<Event>, key: string)
    requires Replay(log).Some?
    ensures ReceiptAfter(log, key).Some? && Shows(Replay(log).value, key, ReceiptAfter(log, key).value)
  {
    if log != [] {
      ReceiptsFollowed(log[..|log| - 1], key);
      EventFollowed(Replay(log[..|log| - 1]).value, log[|log| - 1], key, ReceiptAfter(log[..|log| - 1], key).value);
    }
  }

  // ---------- Counting ----------

  function Inserts(log: seq<Event>, key: string): nat {
    if log == [] then 0 else
    var last := log[|log| - 1];
    Inserts(log[..|log| - 1], key) + if last.Inserted? && Keys.EnvelopeKey(last.envelope) == key then 1 else 0
  }

  function Purges(log: seq<Event>, key: string): nat {
    if log == [] then 0 else
    var last := log[|log| - 1];
    Purges(log[..|log| - 1], key) + if last.Purged? && key in last.keys then 1 else 0
  }

  lemma {:induction false} CountsFollowed(log: seq<Event>, key: string)
    requires ReceiptAfter(log, key).Some?
    ensures Inserts(log, key) == Purges(log, key) + if ReceiptAfter(log, key).value.Absent? then 0 else 1
  {
    if log != [] { CountsFollowed(log[..|log| - 1], key); }
  }

  // Receipts are conserved: a key has exactly one receipt, raw or compact, when it has been
  // inserted once more than it has been purged, and none otherwise.
  lemma ReceiptsConserved(log: seq<Event>, key: string)
    requires Replay(log).Some?
    ensures Inserts(log, key) == Purges(log, key) + if Received(Replay(log).value, key) then 1 else 0
    ensures !(BatchKey(key) in Replay(log).value && ReceiptKey(key) in Replay(log).value)
  {
    ReceiptsFollowed(log, key);
    CountsFollowed(log, key);
  }

  lemma {:induction false} ReceiptAfterPrefix(log: seq<Event>, n: nat, key: string)
    requires ReceiptAfter(log, key).Some? && n < |log|
    ensures ReceiptAfter(log[..n], key).Some? && ReceiptAfter(log[..n + 1], key).Some?
    ensures ReceiptAfter(log[..n + 1], key) == Follow(ReceiptAfter(log[..n], key).value, log[n], key)
  {
    var m := |log| - 1;
    if n < m {
      ReceiptAfterPrefix(log[..m], n, key);
      assert log[..m][..n] == log[..n] && log[..m][..n + 1] == log[..n + 1];
    } else {
      assert log[..n + 1] == log;
    }
  }

  lemma {:induction false} Persists(log: seq<Event>, i: nat, j: nat, key: string)
    requires ReceiptAfter(log, key).Some? && i <= j <= |log|
    requires ReceiptAfter(log[..i], key).Some? && !ReceiptAfter(log[..i], key).value.Absent?
    requires ReceiptAfter(log[..i], key).value.Raw? ==>
               forall k :: i <= k < j && log[k].Purged? && key in log[k].keys ==>
                 log[k].cutoff < ReceiptAfter(log[..i], key).value.expiresAt
    ensures ReceiptAfter(log[..j], key) == ReceiptAfter(log[..i], key)
  {
    if i < j {
      Persists(log, i, j - 1, key);
      ReceiptAfterPrefix(log, j - 1, key);
    }
  }

  // Between two insertions of one key the retention job has deleted its expired raw batch; a
  // key received compactly is never inserted again.
  lemma {:induction false} StoredAtMostOnce(log: seq<Event>, i: nat, j: nat)
    requires Replay(log).Some? && i < j < |log| && log[i].Inserted? && log[j].Inserted?
    requires Keys.EnvelopeKey(log[i].envelope) == Keys.EnvelopeKey(log[j].envelope)
    ensures log[i].raw
    ensures exists k :: i < k < j && log[k].Purged? && Keys.EnvelopeKey(log[i].envelope) in log[k].keys
                    && Expiry(log[i].now) <= log[k].cutoff
  {
    var key := Keys.EnvelopeKey(log[i].envelope);
    ReceiptsFollowed(log, key);
    ReceiptAfterPrefix(log, i, key);
    ReceiptAfterPrefix(log, j, key);
    if !log[i].raw || !exists k :: i < k < j && log[k].Purged? && key in log[k].keys && Expiry(log[i].now) <= log[k].cutoff {
      Persists(log, i + 1, j, key);
      assert false;
    }
  }

  // Until the retention job runs with a cutoff 48 hours after its receipt time, a stored
  // submission keeps its receipt, and forever when the receipt is compact.
  lemma {:induction false} ReceiptRetained(log: seq<Event>, i: nat)
    requires Replay(log).Some? && i < |log| && log[i].Inserted?
    requires log[i].raw ==> forall k :: i < k < |log| && log[k].Purged? ==> log[k].cutoff < Expiry(log[i].now)
    ensures Shows(Replay(log).value, Keys.EnvelopeKey(log[i].envelope),
                  if log[i].raw then Raw(Expiry(log[i].now)) else Compact(Expiry(log[i].now)))
  {
    var key := Keys.EnvelopeKey(log[i].envelope);
    ReceiptsFollowed(log, key);
    ReceiptAfterPrefix(log, i, key);
    Persists(log, i + 1, |log|, key);
    assert log[..|log|] == log;
  }

  ghost predicate ReceivedSince(log: seq<Event>, key: string, since: Metric.Time) {
    forall i :: 0 <= i < |log| && log[i].Inserted? && Keys.EnvelopeKey(log[i].envelope) == key ==> since <= log[i].now
  }

  ghost predicate CutoffsBefore(log: seq<Event>, limit: Metric.Time) {
    forall i :: 0 <= i < |log| && log[i].Purged? ==> log[i].cutoff < limit
  }

  // A key received no earlier than some time is not purged by cutoffs less than 48 hours later.
  lemma {:induction false} NotPurgedEarly(log: seq<Event>, key: string, since: Metric.Time)
    requires ReceiptAfter(log, key).Some?
    requires ReceivedSince(log, key, since) && CutoffsBefore(log, Expiry(since))
    ensures Purges(log, key) == 0
    ensures ReceiptAfter(log, key).value.Raw? ==> Expiry(since) <= ReceiptAfter(log, key).value.expiresAt
  {
    if log != [] {
      var n := |log| - 1;
      assert ReceivedSince(log[..n], key, since) && CutoffsBefore(log[..n], Expiry(since));
      NotPurgedEarly(log[..n], key, since);
    }
  }
}
