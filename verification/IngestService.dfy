// The in-memory admission control before persistence: deduplication with a time to live, and
// per-agent fixed windows of one minute. Calls are processed in the order of the list; the
// clock is read before the lock is taken, so clocks need not be in that order.
module IngestService {
  import opened Wrappers
  import opened Metric
  import Envelopes
  import Keys = IdempotencyKeys

  datatype Policy = Policy(maxRequestsPerMinute: int, burst: int, deduplicationTtl: int)
  {
    predicate Valid() {
      maxRequestsPerMinute >= 1 && burst >= 1 && deduplicationTtl > 0
    }

    function Budget(): int {
      maxRequestsPerMinute + burst
    }
  }

  const DEFAULT_POLICY: Policy := Policy(120, 20, 48 * HOUR)

  datatype Outcome = Accepted | Duplicate | Throttled

  datatype Receipt = Receipt(outcome: Outcome, idempotencyKey: string, acceptedAt: Time)

  datatype AcceptError = AgentMismatch | InvalidEnvelope(reason: Envelopes.EnvelopeError)

  datatype Window = Window(startedAt: Time, count: nat)

  const NO_WINDOW: Window := Window(ZERO_TIME, 0)

  datatype Limiter = Limiter(seen: map<string, Time>, rates: map<string, Window>)

  // A submission that passed the identity and envelope checks.
  datatype Call = Call(agent: string, key: string, now: Time)

  // ---------- The specification ----------

  function Pruned(seen: map<string, Time>, now: Time): map<string, Time> {
    map key | key in seen && seen[key] > now :: seen[key]
  }

  function RateOf(l: Limiter, agent: string): Window {
    if agent in l.rates then l.rates[agent] else NO_WINDOW
  }

  function Opened(w: Window, now: Time): Window {
    if w.startedAt == ZERO_TIME || now - w.startedAt >= MINUTE then Window(now, 0) else w
  }

  function Decide(policy: Policy, l: Limiter, c: Call): (Limiter, Outcome) {
    var seen, window := Pruned(l.seen, c.now), Opened(RateOf(l, c.agent), c.now);
    if c.key in seen then (Limiter(seen, l.rates), Duplicate)
    else if window.count >= policy.Budget() then (Limiter(seen, l.rates[c.agent := window]), Throttled)
    else (Limiter(seen[c.key := c.now + policy.deduplicationTtl],
                  l.rates[c.agent := window.(count := window.count + 1)]), Accepted)
  }

  function After(policy: Policy, calls: seq<Call>): Limiter {
    if calls == [] then Limiter(map[], map[])
    else Decide(policy, After(policy, calls[..|calls| - 1]), calls[|calls| - 1]).0
  }

  function OutcomeOf(policy: Policy, calls: seq<Call>, i: nat): Outcome
    requires i < |calls|
  {
    Decide(policy, After(policy, calls[..i]), calls[i]).1
  }

  predicate LastAccepted(policy: Policy, calls: seq<Call>)
    requires calls != []
  {
    OutcomeOf(policy, calls, |calls| - 1).Accepted?
  }

  // ---------- The service ----------

  class Service {
    const policy: Policy
    var seen: map<string, Time>
    var rates: map<string, Window>
    ghost var calls: seq<Call>

    ghost predicate Valid()
      reads this
    {
      policy.Valid() && Limiter(seen, rates) == After(policy, calls)
    }

    constructor (policy: Policy)
      requires policy.Valid()
      ensures Valid() && calls == [] && this.policy == policy
    {
      this.policy, seen, rates, calls := policy, map[], map[], [];
    }

    // NewService: null stands for the policy error.
    static method Create(policy: Policy) returns (service: Service?)
      ensures service != null <==> policy.maxRequestsPerMinute >= 1 && policy.burst >= 1 && policy.deduplicationTtl >= 1
      ensures service != null ==> fresh(service) && service.Valid() && service.calls == [] && service.policy == policy
    {
      if !policy.Valid() { return null; }
      service := new Service(policy);
    }

    method Prune(now: Time)
      modifies this`seen
      ensures seen == Pruned(old(seen), now)
    {
      var rest := seen.Keys;
      while rest != {}
        invariant rest <= old(seen).Keys
        invariant seen == map key | key in old(seen) && (key in rest || old(seen)[key] > now) :: old(seen)[key]
        decreases rest
      {
        var key :| key in rest;
        rest := rest - {key};
        if !(seen[key] > now) { seen := seen - {key}; }
      }
    }

    // The part of Accept that runs under the lock.
    method Reserve(agent: string, key: string, now: Time) returns (o: Outcome)
      modifies this`seen, this`rates
      ensures (Limiter(seen, rates), o) == Decide(policy, old(Limiter(seen, rates)), Call(agent, key, now))
    {
      Prune(now);
      if key in seen { return Duplicate; }
      var window := if agent in rates then rates[agent] else NO_WINDOW;
      if window.startedAt == ZERO_TIME || now - window.startedAt >= MINUTE {
        window := Window(now, 0);
      }
      if window.count >= policy.maxRequestsPerMinute + policy.burst {
        rates := rates[agent := window];
        return Throttled;
      }
      window := window.(count := window.count + 1);
      rates := rates[agent := window];
      seen := seen[key := now + policy.deduplicationTtl];
      o := Accepted;
    }

    method Accept(authenticatedAgentId: string, envelope: Envelopes.Envelope, now: Time) returns (r: Result<Receipt, AcceptError>)
      requires Valid()
      modifies this
      ensures Valid()
      ensures r.Ok? <==> envelope.agentId == authenticatedAgentId && Envelopes.ValidEnvelope(envelope)
      ensures r.Err? ==> calls == old(calls) && seen == old(seen) && rates == old(rates)
      ensures r.Ok? ==>
                && calls == old(calls) + [Call(authenticatedAgentId, Keys.EnvelopeKey(envelope), now)]
                && r.value == Receipt(OutcomeOf(policy, calls, |old(calls)|), Keys.EnvelopeKey(envelope), now)
    {
      if envelope.agentId != authenticatedAgentId { return Err(AgentMismatch); }
      var error := Envelopes.Validate(envelope);
      if error.Some? { return Err(InvalidEnvelope(error.value)); }
      var key := Keys.EnvelopeKey(envelope);
      ghost var before := calls;
      var outcome := Reserve(authenticatedAgentId, key, now);
      calls := calls + [Call(authenticatedAgentId, key, now)];
      assert calls[..|before|] == before;
      r := Ok(Receipt(outcome, key, now));
    }
  }

  // ---------- The state as a function of the accepted submissions alone ----------

  // Clocks in processing order, and past the zero time.
  predicate InOrder(calls: seq<Call>) {
    calls == [] ||
    var init, last := calls[..|calls| - 1], calls[|calls| - 1];
    InOrder(init) && (if init == [] then ZERO_TIME < last.now else init[|init| - 1].now <= last.now)
  }

  lemma {:induction false} InOrderAt(calls: seq<Call>, i: nat)
    requires InOrder(calls) && i < |calls|
    ensures ZERO_TIME < calls[i].now <= calls[|calls| - 1].now
    ensures InOrder(calls[..i + 1])
  {
    if i < |calls| - 1 {
      InOrderAt(calls[..|calls| - 1], i);
      assert calls[..|calls| - 1][..i + 1] == calls[..i + 1];
    } else {
      assert calls[..i + 1] == calls;
      if i > 0 { InOrderAt(calls[..i], i - 1); }
    }
  }

  // What comes before a call is in order and not later than it.
  lemma OrderBefore(calls: seq<Call>, j: nat)
    requires InOrder(calls) && j < |calls|
    ensures InOrder(calls[..j])
    ensures calls[j].now > ZERO_TIME && (calls[..j] != [] ==> calls[..j][j - 1].now <= calls[j].now)
  {
    InOrderAt(calls, j);
    if j > 0 {
      InOrderAt(calls, j - 1);
      assert calls[..j + 1][..j] == calls[..j];
    }
  }

  // When the last accepted submission of a key expires.
  function ExpiryOf(policy: Policy, calls: seq<Call>, key: string): Option<Time> {
    if calls == [] then None
    else if LastAccepted(policy, calls) && calls[|calls| - 1].key == key then
      Some(calls[|calls| - 1].now + policy.deduplicationTtl)
    else ExpiryOf(policy, calls[..|calls| - 1], key)
  }

  // The window the agent's accepted submissions have opened, and how many it holds.
  function WindowOf(policy: Policy, calls: seq<Call>, agent: string): Window {
    if calls == [] then NO_WINDOW else
    var before, last := WindowOf(policy, calls[..|calls| - 1], agent), calls[|calls| - 1];
    if !LastAccepted(policy, calls) || last.agent != agent then before else
    var window := Opened(before, last.now);
    window.(count := window.count + 1)
  }

  predicate Live(expiry: Option<Time>, now: Time) {
    expiry.Some? && expiry.value > now
  }

  // Duplicates and throttled submissions leave no trace in the windows: a fresh window always
  // has room, so only an acceptance opens one.
  lemma {:induction false} RatesAreAccepted(policy: Policy, calls: seq<Call>, agent: string)
    requires policy.Valid()
    ensures RateOf(After(policy, calls), agent) == WindowOf(policy, calls, agent)
  {
    if calls != [] { RatesAreAccepted(policy, calls[..|calls| - 1], agent); }
  }

  // The seen map holds exactly the accepted keys that had not expired at the last prune.
  lemma {:induction false} SeenIsAccepted(policy: Policy, calls: seq<Call>, key: string)
    requires policy.Valid() && calls != [] && InOrder(calls)
    ensures var seen, expiry := After(policy, calls).seen, ExpiryOf(policy, calls, key);
            && (key in seen <==> Live(expiry, calls[|calls| - 1].now))
            && (key in seen ==> seen[key] == expiry.value)
  {
    if |calls| > 1 { SeenIsAccepted(policy, calls[..|calls| - 1], key); }
  }

  // What a submission gets, told from the accepted ones alone.
  lemma OutcomeIsHistory(policy: Policy, calls: seq<Call>, i: nat)
    requires policy.Valid() && InOrder(calls) && i < |calls|
    ensures var before, c := calls[..i], calls[i];
            OutcomeOf(policy, calls, i) ==
            if Live(ExpiryOf(policy, before, c.key), c.now) then Duplicate
            else if Opened(WindowOf(policy, before, c.agent), c.now).count >= policy.maxRequestsPerMinute + policy.burst
            then Throttled
            else Accepted
  {
    var before, c := calls[..i], calls[i];
    InOrderAt(calls, i);
    assert calls[..i + 1][..i] == before;
    RatesAreAccepted(policy, before, c.agent);
    if i > 0 { SeenIsAccepted(policy, before, c.key); }
  }

  // ---------- The windows, told by the acceptance times ----------

  function AcceptedTimes(policy: Policy, calls: seq<Call>, agent: string): seq<Time> {
    if calls == [] then [] else
    var before, last := AcceptedTimes(policy, calls[..|calls| - 1], agent), calls[|calls| - 1];
    if LastAccepted(policy, calls) && last.agent == agent then before + [last.now] else before
  }

  // Of acceptance times in the order of processing, those since the last one that came a minute
  // or more after the first of its window.
  function Current(times: seq<Time>): seq<Time> {
    if times == [] then [] else
    var before, last := Current(times[..|times| - 1]), times[|times| - 1];
    if before == [] || last - before[0] >= 60_000_000_000 then [last] else before + [last]
  }

  predicate Pictures(w: Window, current: seq<Time>) {
    w.count == |current| && if current == [] then w == NO_WINDOW else w.startedAt == current[0] > ZERO_TIME
  }

  lemma {:induction false} WindowIsCurrent(policy: Policy, calls: seq<Call>, agent: string)
    requires PastZero(calls)
    ensures Pictures(WindowOf(policy, calls, agent), Current(AcceptedTimes(policy, calls, agent)))
  {
    if calls != [] {
      var init, last := calls[..|calls| - 1], calls[|calls| - 1];
      WindowIsCurrent(policy, init, agent);
      if LastAccepted(policy, calls) && last.agent == agent {
        assert AcceptedTimes(policy, calls, agent)[..|AcceptedTimes(policy, init, agent)|] == AcceptedTimes(policy, init, agent);
      }
    }
  }

  // For any clocks: a submission that is no duplicate is accepted exactly when the current
  // window is over or holds fewer acceptances than a minute's requests and the burst together.
  lemma AcceptedExactly(policy: Policy, calls: seq<Call>, j: nat)
    requires policy.Valid() && PastZero(calls) && j < |calls| && !OutcomeOf(policy, calls, j).Duplicate?
    ensures var current := Current(AcceptedTimes(policy, calls[..j], calls[j].agent));
            OutcomeOf(policy, calls, j).Accepted? <==>
            || current == [] || calls[j].now - current[0] >= 60_000_000_000
            || |current| < policy.maxRequestsPerMinute + policy.burst
  {
    RatesAreAccepted(policy, calls[..j], calls[j].agent);
    WindowIsCurrent(policy, calls[..j], calls[j].agent);
  }

  // Different submissions of one agent, none later than a minute after the first.
  predicate WithinAMinute(calls: seq<Call>) {
    && PastZero(calls)
    && (forall i :: 0 <= i < |calls| ==> calls[i].agent == calls[0].agent && calls[i].now - calls[0].now < 60_000_000_000)
    && (forall i, j :: 0 <= i < j < |calls| ==> calls[i].key != calls[j].key)
  }

  lemma {:induction false} NoneSeen(policy: Policy, calls: seq<Call>, key: string)
    requires forall i :: 0 <= i < |calls| ==> calls[i].key != key
    ensures key !in After(policy, calls).seen
  {
    if calls != [] { NoneSeen(policy, calls[..|calls| - 1], key); }
  }

  lemma NewIsNoDuplicate(policy: Policy, calls: seq<Call>, j: nat)
    requires WithinAMinute(calls) && j < |calls|
    ensures !OutcomeOf(policy, calls, j).Duplicate?
  {
    NoneSeen(policy, calls[..j], calls[j].key);
  }

  predicate OneWindow(times: seq<Time>, start: Time) {
    Current(times) == times && (times != [] ==> times[0] == start)
  }

  // The first n submissions have filled the window as far as there is room.
  predicate Filled(times: seq<Time>, start: Time, n: nat, limit: int) {
    OneWindow(times, start) && |times| == if n <= limit then n else limit
  }

  lemma NothingFilled(policy: Policy, calls: seq<Call>, agent: string, start: Time, limit: nat)
    ensures Filled(AcceptedTimes(policy, calls[..0], agent), start, 0, limit)
  {
  }

  lemma FillsOn(times: seq<Time>, times': seq<Time>, start: Time, now: Time, n: nat, limit: int)
    requires limit >= 1 && Filled(times, start, n, limit)
    requires now - start < 60_000_000_000 && (n == 0 ==> now == start)
    requires times' == times + if |times| < limit then [now] else []
    ensures Filled(times', start, n + 1, limit)
  {
    assert times + [] == times;
    assert (times + [now])[..|times|] == times;
  }

  lemma BurstDecides(policy: Policy, calls: seq<Call>, j: nat)
    requires policy.Valid() && WithinAMinute(calls) && j < |calls|
    requires OneWindow(AcceptedTimes(policy, calls[..j], calls[0].agent), calls[0].now)
    ensures var before := |AcceptedTimes(policy, calls[..j], calls[0].agent)|;
            OutcomeOf(policy, calls, j) == if before < policy.maxRequestsPerMinute + policy.burst then Accepted else Throttled
  {
    NewIsNoDuplicate(policy, calls, j);
    AcceptedExactly(policy, calls, j);
  }

  lemma TimesNext(policy: Policy, calls: seq<Call>, j: nat, agent: string)
    requires j < |calls| && calls[j].agent == agent
    ensures AcceptedTimes(policy, calls[..j + 1], agent)
         == AcceptedTimes(policy, calls[..j], agent) + if OutcomeOf(policy, calls, j).Accepted? then [calls[j].now] else []
  {
    assert calls[..j + 1][..j] == calls[..j];
  }

  lemma BurstStep(policy: Policy, calls: seq<Call>, n: nat, limit: int)
    requires policy.Valid() && WithinAMinute(calls) && n < |calls| && limit == policy.maxRequestsPerMinute + policy.burst
    requires Filled(AcceptedTimes(policy, calls[..n], calls[0].agent), calls[0].now, n, limit)
    ensures Filled(AcceptedTimes(policy, calls[..n + 1], calls[0].agent), calls[0].now, n + 1, limit)
  {
    var agent := calls[0].agent;
    BurstDecides(policy, calls, n);
    TimesNext(policy, calls, n, agent);
    FillsOn(AcceptedTimes(policy, calls[..n], agent), AcceptedTimes(policy, calls[..n + 1], agent), calls[0].now, calls[n].now, n, limit);
  }

  lemma {:induction false} BurstFills(policy: Policy, calls: seq<Call>, n: nat)
    requires policy.Valid() && WithinAMinute(calls) && n <= |calls| && calls != []
    ensures Filled(AcceptedTimes(policy, calls[..n], calls[0].agent), calls[0].now, n, policy.maxRequestsPerMinute + policy.burst)
  {
    var limit := policy.maxRequestsPerMinute + policy.burst;
    if n == 0 {
      NothingFilled(policy, calls, calls[0].agent, calls[0].now, limit);
    } else {
      BurstFills(policy, calls, n - 1);
      BurstStep(policy, calls, n - 1, limit);
    }
  }

  // Of different submissions of one agent within a minute exactly the first ones are accepted,
  // as many as a minute's requests and the burst together: 140 under the default policy.
  lemma BurstExactly(policy: Policy, calls: seq<Call>, j: nat)
    requires policy.Valid() && WithinAMinute(calls) && j < |calls|
    ensures OutcomeOf(policy, calls, j) == if j < policy.maxRequestsPerMinute + policy.burst then Accepted else Throttled
    ensures policy == DEFAULT_POLICY ==> (OutcomeOf(policy, calls, j).Accepted? <==> j < 140)
  {
    BurstFills(policy, calls, j);
    BurstDecides(policy, calls, j);
  }

  // ---------- Deduplication ----------

  predicate AcceptedKey(policy: Policy, calls: seq<Call>, i: nat, key: string) {
    i < |calls| && calls[i].key == key && OutcomeOf(policy, calls, i).Accepted?
  }

  predicate Unexpired(policy: Policy, calls: seq<Call>, i: nat, m: nat)
    requires i < |calls| && m <= |calls|
  {
    forall k :: i < k < m ==> calls[k].now < calls[i].now + policy.deduplicationTtl
  }

  // Call i was accepted with this key, and no clock processed since, that of call j included,
  // has reached its expiry.
  predicate Blocks(policy: Policy, calls: seq<Call>, i: int, j: nat, key: string) {
    0 <= i < j < |calls| && AcceptedKey(policy, calls, i, key) && Unexpired(policy, calls, i, j + 1)
  }

  // When the key expires according to the seen map before call m.
  function SeenAt(policy: Policy, calls: seq<Call>, key: string, m: nat): Option<Time>
    requires m <= |calls|
  {
    var seen := After(policy, calls[..m]).seen;
    if key in seen then Some(seen[key]) else None
  }

  lemma PrunedKeeps(seen: map<string, Time>, now: Time, key: string)
    ensures key in Pruned(seen, now) <==> key in seen && now < seen[key]
    ensures key in Pruned(seen, now) ==> Pruned(seen, now)[key] == seen[key]
  {
  }

  // One call: the key is accepted now and gets its expiry, or keeps the one it had while the
  // clock has not reached it.
  lemma SeenNext(policy: Policy, calls: seq<Call>, m: nat, key: string)
    requires m < |calls|
    ensures SeenAt(policy, calls, key, m + 1)
         == if AcceptedKey(policy, calls, m, key) then Some(calls[m].now + policy.deduplicationTtl)
            else if Live(SeenAt(policy, calls, key, m), calls[m].now) then SeenAt(policy, calls, key, m)
            else None
    ensures Live(SeenAt(policy, calls, key, m), calls[m].now) ==> !AcceptedKey(policy, calls, m, key)
  {
    assert calls[..m + 1][..m] == calls[..m];
    PrunedKeeps(After(policy, calls[..m]).seen, calls[m].now, key);
  }

  lemma DuplicateIsSeen(policy: Policy, calls: seq<Call>, j: nat)
    requires j < |calls|
    ensures OutcomeOf(policy, calls, j).Duplicate? <==> Live(SeenAt(policy, calls, calls[j].key, j), calls[j].now)
  {
    PrunedKeeps(After(policy, calls[..j]).seen, calls[j].now, calls[j].key);
  }

  // What the map shows of one key before each call, and at which calls the key was accepted.
  datatype Trace = Trace(seen: seq<Option<Time>>, accepted: seq<bool>, nows: seq<Time>)

  function TraceOf(policy: Policy, calls: seq<Call>, key: string): Trace {
    Trace(seq(|calls| + 1, m requires 0 <= m <= |calls| => SeenAt(policy, calls, key, m)),
          seq(|calls|, m requires 0 <= m < |calls| => AcceptedKey(policy, calls, m, key)),
          seq(|calls|, m requires 0 <= m < |calls| => calls[m].now))
  }

  predicate FollowsAt(t: Trace, ttl: int, m: nat) {
    && m + 1 < |t.seen| && m < |t.accepted| && m < |t.nows|
    && t.seen[m + 1] == (if t.accepted[m] then Some(t.nows[m] + ttl) else if Live(t.seen[m], t.nows[m]) then t.seen[m] else None)
    && (Live(t.seen[m], t.nows[m]) ==> !t.accepted[m])
  }

  predicate Follows(t: Trace, ttl: int) {
    && |t.seen| == |t.nows| + 1 && |t.accepted| == |t.nows| && t.seen[0].None?
    && forall m :: 0 <= m < |t.nows| ==> FollowsAt(t, ttl, m)
  }

  lemma TraceFollows(policy: Policy, calls: seq<Call>, key: string)
    ensures Follows(TraceOf(policy, calls, key), policy.deduplicationTtl)
  {
    forall m | 0 <= m < |calls| ensures FollowsAt(TraceOf(policy, calls, key), policy.deduplicationTtl, m) {
      SeenNext(policy, calls, m, key);
    }
  }

  // The key was accepted at i and no clock from then to m reached its expiry.
  predicate Holds(t: Trace, ttl: int, i: int, m: nat) {
    && 0 <= i < m <= |t.nows| && i < |t.accepted| && t.accepted[i]
    && forall k :: i < k < m ==> t.nows[k] < t.nows[i] + ttl
  }

  lemma {:induction false} SeenComesFrom(t: Trace, ttl: int, m: nat) returns (i: nat)
    requires Follows(t, ttl) && m < |t.seen| && t.seen[m].Some?
    ensures Holds(t, ttl, i, m) && t.seen[m] == Some(t.nows[i] + ttl)
  {
    assert FollowsAt(t, ttl, m - 1);
    if t.accepted[m - 1] { return m - 1; }
    i := SeenComesFrom(t, ttl, m - 1);
  }

  lemma {:induction false} SeenLasts(t: Trace, ttl: int, i: nat, m: nat)
    requires Follows(t, ttl) && Holds(t, ttl, i, m)
    ensures t.seen[m] == Some(t.nows[i] + ttl)
  {
    assert FollowsAt(t, ttl, m - 1);
    if i < m - 1 { SeenLasts(t, ttl, i, m - 1); }
  }

  lemma LiveExactly(t: Trace, ttl: int, j: nat)
    requires Follows(t, ttl) && j < |t.nows|
    ensures Live(t.seen[j], t.nows[j]) <==> exists i :: Holds(t, ttl, i, j) && t.nows[j] < t.nows[i] + ttl
  {
    if Live(t.seen[j], t.nows[j]) { var i := SeenComesFrom(t, ttl, j); }
    forall i | Holds(t, ttl, i, j) ensures t.seen[j] == Some(t.nows[i] + ttl) { SeenLasts(t, ttl, i, j); }
  }

  lemma BlocksHolds(policy: Policy, calls: seq<Call>, i: int, j: nat, key: string)
    requires j < |calls|
    ensures var t, ttl := TraceOf(policy, calls, key), policy.deduplicationTtl;
            Blocks(policy, calls, i, j, key) <==> Holds(t, ttl, i, j) && t.nows[j] < t.nows[i] + ttl
  {
    var t, ttl := TraceOf(policy, calls, key), policy.deduplicationTtl;
    if 0 <= i < j {
      assert t.accepted[i] == AcceptedKey(policy, calls, i, key);
      assert forall k :: 0 <= k < |calls| ==> t.nows[k] == calls[k].now;
    }
  }

  // For any clocks at all: a submission is a duplicate exactly when an earlier one with its key
  // was accepted and no clock processed since, its own included, has reached that one's expiry.
  // Throttled, duplicate and rejected submissions never cause a later duplicate.
  lemma DuplicateExactly(policy: Policy, calls: seq<Call>, j: nat)
    requires j < |calls|
    ensures OutcomeOf(policy, calls, j).Duplicate? <==> exists i :: Blocks(policy, calls, i, j, calls[j].key)
  {
    var key := calls[j].key;
    DuplicateIsSeen(policy, calls, j);
    TraceFollows(policy, calls, key);
    LiveExactly(TraceOf(policy, calls, key), policy.deduplicationTtl, j);
    forall i ensures Blocks(policy, calls, i, j, key)
                <==> Holds(TraceOf(policy, calls, key), policy.deduplicationTtl, i, j)
                     && TraceOf(policy, calls, key).nows[j] < TraceOf(policy, calls, key).nows[i] + policy.deduplicationTtl {
      BlocksHolds(policy, calls, i, j, key);
    }
  }

  // After an acceptance, the next acceptance of the key needs a clock that reached its expiry,
  // and when it comes too soon, the clock of a call in between.
  lemma ReacceptanceNeedsALateClock(policy: Policy, calls: seq<Call>, i: nat, j: nat) returns (k: nat)
    requires i < j < |calls| && calls[i].key == calls[j].key
    requires OutcomeOf(policy, calls, i).Accepted? && !OutcomeOf(policy, calls, j).Duplicate?
    ensures i < k <= j && calls[k].now >= calls[i].now + policy.deduplicationTtl
    ensures calls[j].now - calls[i].now < policy.deduplicationTtl ==> k < j
  {
    DuplicateExactly(policy, calls, j);
    assert !Blocks(policy, calls, i, j, calls[j].key);
    k :| i < k < j + 1 && calls[k].now >= calls[i].now + policy.deduplicationTtl;
  }

  // Until the next acceptance of a key, the key is free again exactly when some clock processed
  // since has reached the expiry, in whatever order the clocks come.
  lemma FreedExactlyByALateClock(policy: Policy, calls: seq<Call>, i: nat, j: nat)
    requires i < j < |calls| && calls[i].key == calls[j].key && OutcomeOf(policy, calls, i).Accepted?
    requires forall k :: i < k < j ==> !AcceptedKey(policy, calls, k, calls[i].key)
    ensures !OutcomeOf(policy, calls, j).Duplicate? <==>
            exists k :: i < k <= j && calls[k].now >= calls[i].now + policy.deduplicationTtl
  {
    if OutcomeOf(policy, calls, j).Duplicate? {
      DuplicateExactly(policy, calls, j);
      var m :| Blocks(policy, calls, m, j, calls[j].key);
      OnlyBlocker(policy, calls, i, j, m);
    } else {
      var k := ReacceptanceNeedsALateClock(policy, calls, i, j);
    }
  }

  // What blocks a key after its acceptance is that acceptance, up to the next one.
  lemma OnlyBlocker(policy: Policy, calls: seq<Call>, i: nat, j: nat, m: nat)
    requires i < j < |calls| && OutcomeOf(policy, calls, i).Accepted?
    requires forall k :: i < k < j ==> !AcceptedKey(policy, calls, k, calls[i].key)
    requires Blocks(policy, calls, m, j, calls[i].key)
    ensures m == i
  {
    assert AcceptedKey(policy, calls, m, calls[i].key);
    if m < i {
      assert Blocks(policy, calls, m, i, calls[i].key);
      DuplicateExactly(policy, calls, i);
      assert false;
    }
  }

  // ---------- Deduplication with clocks in order ----------

  // With clocks in order only the caller's own clock matters.
  lemma DuplicateExactlyWhenBlocked(policy: Policy, calls: seq<Call>, j: nat)
    requires InOrder(calls) && j < |calls|
    ensures OutcomeOf(policy, calls, j).Duplicate? <==>
            exists i :: 0 <= i < j && AcceptedKey(policy, calls, i, calls[j].key)
                        && calls[j].now - calls[i].now < policy.deduplicationTtl
    ensures policy == DEFAULT_POLICY ==> policy.deduplicationTtl == 172_800_000_000_000
  {
    DuplicateExactly(policy, calls, j);
    forall i | 0 <= i < j
      ensures Blocks(policy, calls, i, j, calls[j].key) <==>
              AcceptedKey(policy, calls, i, calls[j].key) && calls[j].now - calls[i].now < policy.deduplicationTtl
    {
      UnexpiredInOrder(policy, calls, i, j);
    }
  }

  lemma UnexpiredInOrder(policy: Policy, calls: seq<Call>, i: nat, j: nat)
    requires InOrder(calls) && i < j < |calls|
    ensures Unexpired(policy, calls, i, j + 1) <==> calls[j].now < calls[i].now + policy.deduplicationTtl
  {
    forall k | i < k <= j ensures calls[k].now <= calls[j].now { NowOrdered(calls, k, j); }
  }

  lemma NowOrdered(calls: seq<Call>, k: nat, j: nat)
    requires InOrder(calls) && k <= j < |calls|
    ensures calls[k].now <= calls[j].now
  {
    InOrderAt(calls, j);
    InOrderAt(calls[..j + 1], k);
  }

  // Two acceptances of one key are then at least the time to live apart.
  lemma AcceptancesAreTtlApart(policy: Policy, calls: seq<Call>, i: nat, j: nat)
    requires InOrder(calls) && i < j < |calls| && calls[i].key == calls[j].key
    requires OutcomeOf(policy, calls, i).Accepted? && OutcomeOf(policy, calls, j).Accepted?
    ensures calls[j].now - calls[i].now >= policy.deduplicationTtl
  {
    var k := ReacceptanceNeedsALateClock(policy, calls, i, j);
    NowOrdered(calls, k, j);
  }

  // The order matters: a later clock processed first prunes the key, which is then accepted
  // again one nanosecond before its time.
  lemma OutOfOrderClocksBreakTheTtl(policy: Policy, agent: string, key: string, other: string, start: Time)
    requires policy.Valid() && policy.Budget() >= 3 && key != other && start > ZERO_TIME
    ensures var ttl := policy.deduplicationTtl;
            var calls := [Call(agent, key, start), Call(agent, other, start + ttl), Call(agent, key, start + ttl - 1)];
            && !InOrder(calls)
            && OutcomeOf(policy, calls, 0).Accepted?
            && OutcomeOf(policy, calls, 2).Accepted?
  {
    var ttl := policy.deduplicationTtl;
    var calls := [Call(agent, key, start), Call(agent, other, start + ttl), Call(agent, key, start + ttl - 1)];
    assert calls[..0] == [] && calls[..2][..1] == calls[..1] && calls[..1][..0] == [];
    var nothing := Limiter(map[], map[]);
    var first := After(policy, calls[..1]);
    assert After(policy, calls[..0]) == nothing && RateOf(nothing, agent) == NO_WINDOW;
    assert first == Decide(policy, nothing, calls[0]).0 && Pruned(map[], start) == map[];
    assert first.seen == map[key := start + ttl] && RateOf(first, agent) == Window(start, 1);
    var second := After(policy, calls[..2]);
    assert second == Decide(policy, first, calls[1]).0;
    assert key !in second.seen && RateOf(second, agent).count <= 2;
  }

  // ---------- Rate limiting ----------

  function AcceptedIn(policy: Policy, calls: seq<Call>, agent: string, lo: Time, hi: Time): nat {
    if calls == [] then 0 else
    var last := calls[|calls| - 1];
    AcceptedIn(policy, calls[..|calls| - 1], agent, lo, hi)
    + if LastAccepted(policy, calls) && last.agent == agent && lo <= last.now <= hi then 1 else 0
  }

  function Product(x: int, y: int): int {
    x * y
  }

  lemma ProductGrows(x: int, y: int, z: int)
    requires x >= 0 && y <= z
    ensures Product(x, y) <= Product(x, z)
    ensures Product(x, y + 1) == Product(x, y) + x
  {
    assert x * (z - y) >= 0;
  }

  // Whole minutes from the earliest start of a window that can reach lo.
  function Slot(lo: Time, startedAt: Time): int {
    (startedAt - (lo - MINUTE + 1)) / MINUTE
  }

  // Every window since has spent at most one budget, the current one its count.
  predicate WithinBudget(policy: Policy, w: Window, lo: Time, accepted: nat) {
    if w.startedAt < lo - MINUTE + 1 then accepted == 0
    else accepted <= Product(policy.Budget(), Slot(lo, w.startedAt)) + w.count
  }

  predicate PastZero(calls: seq<Call>) {
    forall i :: 0 <= i < |calls| ==> calls[i].now > ZERO_TIME
  }

  // No clock is further behind one processed before it.
  predicate SkewedBy(calls: seq<Call>, skew: int) {
    skew >= 0 && PastZero(calls) && forall i, j :: 0 <= i < j < |calls| ==> calls[i].now <= calls[j].now + skew
  }

  lemma InOrderHasNoSkew(calls: seq<Call>)
    requires InOrder(calls)
    ensures SkewedBy(calls, 0)
  {
    forall i | 0 <= i < |calls| ensures calls[i].now > ZERO_TIME { InOrderAt(calls, i); }
    forall i, j | 0 <= i < j < |calls| ensures calls[i].now <= calls[j].now { NowOrdered(calls, i, j); }
  }

  lemma {:induction false} WindowsNeverOverfill(policy: Policy, calls: seq<Call>, agent: string)
    requires policy.Valid()
    ensures WindowOf(policy, calls, agent).count <= policy.Budget()
  {
    if calls != [] {
      WindowsNeverOverfill(policy, calls[..|calls| - 1], agent);
      RatesAreAccepted(policy, calls[..|calls| - 1], agent);
    }
  }

  // A window opens with one of the calls.
  lemma {:induction false} WindowStart(policy: Policy, calls: seq<Call>, agent: string) returns (i: nat)
    requires WindowOf(policy, calls, agent) != NO_WINDOW
    ensures i < |calls| && WindowOf(policy, calls, agent).startedAt == calls[i].now
  {
    var n, before := |calls| - 1, WindowOf(policy, calls[..|calls| - 1], agent);
    if WindowOf(policy, calls, agent).startedAt == calls[n].now { return n; }
    i := WindowStart(policy, calls[..n], agent);
  }

  lemma AcceptanceStaysWithin(policy: Policy, w: Window, lo: Time, now: Time, accepted: nat, counted: bool)
    requires policy.Valid() && w.count <= policy.Budget() && (counted ==> now >= lo)
    requires if w.startedAt == ZERO_TIME then w == NO_WINDOW && accepted == 0 else WithinBudget(policy, w, lo, accepted)
    ensures var w' := Opened(w, now);
            WithinBudget(policy, w'.(count := w'.count + 1), lo, accepted + if counted then 1 else 0)
  {
    var earliest := lo - MINUTE + 1;
    if now >= earliest { ProductGrows(policy.Budget(), 0, Slot(lo, now)); }
    if w.startedAt >= earliest && now - w.startedAt >= MINUTE {
      SlotsApart(lo, w.startedAt, now);
      ProductGrows(policy.Budget(), Slot(lo, w.startedAt), Slot(lo, w.startedAt));
      ProductGrows(policy.Budget(), Slot(lo, w.startedAt) + 1, Slot(lo, now));
    }
  }

  lemma SlotsApart(lo: Time, s: Time, t: Time)
    requires t - s >= MINUTE
    ensures Slot(lo, t) >= Slot(lo, s) + 1
  {
  }

  // One budget for every window that can still have opened.
  function Ceiling(policy: Policy, lo: Time, latest: Time): int {
    Product(policy.Budget(), Slot(lo, latest) + 1)
  }

  lemma WithinCeiling(policy: Policy, w: Window, lo: Time, latest: Time, accepted: nat)
    requires policy.Valid() && w.count <= policy.Budget() && w.startedAt <= latest && lo <= latest
    requires WithinBudget(policy, w, lo, accepted)
    ensures accepted <= Ceiling(policy, lo, latest)
  {
    ProductGrows(policy.Budget(), 0, Slot(lo, latest) + 1);
    if w.startedAt >= lo - MINUTE + 1 {
      ProductGrows(policy.Budget(), Slot(lo, w.startedAt), Slot(lo, latest));
      ProductGrows(policy.Budget(), Slot(lo, latest), Slot(lo, latest));
    }
  }

  // What has been accepted in an interval, as far as the current window tells; latest is the
  // last moment at which a window can open that still takes clocks of the interval.
  predicate Spent(policy: Policy, w: Window, lo: Time, latest: Time, accepted: nat) {
    if w == NO_WINDOW then accepted == 0
    else if w.startedAt <= latest then WithinBudget(policy, w, lo, accepted)
    else accepted <= Ceiling(policy, lo, latest)
  }

  lemma AcceptanceSpends(policy: Policy, w: Window, lo: Time, latest: Time, now: Time, accepted: nat, counted: bool)
    requires policy.Valid() && w.count <= policy.Budget() && lo <= latest
    requires w == NO_WINDOW || w.startedAt > ZERO_TIME
    requires Spent(policy, w, lo, latest, accepted)
    requires counted ==> lo <= now <= latest && (w == NO_WINDOW || w.startedAt <= latest)
    ensures var w' := Opened(w, now);
            Spent(policy, w'.(count := w'.count + 1), lo, latest, accepted + if counted then 1 else 0)
  {
    if w == NO_WINDOW || w.startedAt <= latest {
      AcceptanceStaysWithin(policy, w, lo, now, accepted, counted);
      if w == NO_WINDOW {
        ProductGrows(policy.Budget(), 0, Slot(lo, latest) + 1);
      } else {
        WithinCeiling(policy, w, lo, latest, accepted);
      }
    }
  }

  // One accepted call of the agent, given what the calls before it have spent.
  lemma CallSpends(policy: Policy, init: seq<Call>, last: Call, lo: Time, hi: Time, skew: int, accepted: nat)
    requires policy.Valid() && SkewedBy(init + [last], skew) && lo <= hi
    requires Spent(policy, WindowOf(policy, init, last.agent), lo, hi + skew, accepted)
    ensures var w := Opened(WindowOf(policy, init, last.agent), last.now);
            Spent(policy, w.(count := w.count + 1), lo, hi + skew, accepted + if lo <= last.now <= hi then 1 else 0)
  {
    var w, calls := WindowOf(policy, init, last.agent), init + [last];
    WindowsNeverOverfill(policy, init, last.agent);
    if w != NO_WINDOW {
      var i := WindowStart(policy, init, last.agent);
      assert calls[i] == init[i] && calls[|init|] == last;
    }
    AcceptanceSpends(policy, w, lo, hi + skew, last.now, accepted, lo <= last.now <= hi);
  }

  lemma {:induction false} AcceptedIsSpent(policy: Policy, calls: seq<Call>, agent: string, lo: Time, hi: Time, skew: int)
    requires policy.Valid() && SkewedBy(calls, skew) && lo <= hi
    ensures Spent(policy, WindowOf(policy, calls, agent), lo, hi + skew, AcceptedIn(policy, calls, agent, lo, hi))
  {
    if calls != [] {
      var init, last := calls[..|calls| - 1], calls[|calls| - 1];
      AcceptedIsSpent(policy, init, agent, lo, hi, skew);
      if LastAccepted(policy, calls) && last.agent == agent {
        assert init + [last] == calls;
        CallSpends(policy, init, last, lo, hi, skew, AcceptedIn(policy, init, agent, lo, hi));
      }
    }
  }

  lemma SpentBound(policy: Policy, w: Window, lo: Time, latest: Time, accepted: nat)
    requires policy.Valid() && w.count <= policy.Budget() && lo <= latest && Spent(policy, w, lo, latest, accepted)
    ensures accepted <= Ceiling(policy, lo, latest)
  {
    if w == NO_WINDOW {
      ProductGrows(policy.Budget(), 0, Slot(lo, latest) + 1);
    } else if w.startedAt <= latest {
      WithinCeiling(policy, w, lo, latest, accepted);
    }
  }

  function MinutesUp(length: nat): nat {
    (length + MINUTE - 1) / MINUTE
  }

  // In any closed interval the agent gets at most one budget for each started minute of the
  // interval's length and the clocks' skew, and one more.
  lemma RateBound(policy: Policy, calls: seq<Call>, agent: string, lo: Time, hi: Time, skew: int)
    requires policy.Valid() && SkewedBy(calls, skew) && lo <= hi
    ensures AcceptedIn(policy, calls, agent, lo, hi) 
         <= Product(policy.maxRequestsPerMinute + policy.burst, MinutesUp(hi - lo + skew) + 1)
  {
    AcceptedIsSpent(policy, calls, agent, lo, hi, skew);
    WindowsNeverOverfill(policy, calls, agent);
    SpentBound(policy, WindowOf(policy, calls, agent), lo, hi + skew, AcceptedIn(policy, calls, agent, lo, hi));
    SlotBound(lo, hi + skew);
  }

  lemma SlotBound(lo: Time, latest: Time)
    requires lo <= latest
    ensures Slot(lo, latest) == MinutesUp(latest - lo)
  {
  }

  // With clocks in order, at most twice the window budget in any minute: 280 by default.
  lemma MinuteBound(policy: Policy, calls: seq<Call>, agent: string, lo: Time)
    requires policy.Valid() && InOrder(calls)
    ensures AcceptedIn(policy, calls, agent, lo, lo + MINUTE) <= 2 * (policy.maxRequestsPerMinute + policy.burst)
    ensures policy == DEFAULT_POLICY ==> AcceptedIn(policy, calls, agent, lo, lo + MINUTE) <= 280
  {
    InOrderHasNoSkew(calls);
    RateBound(policy, calls, agent, lo, lo + MINUTE, 0);
    TwoInAMinute(policy.Budget());
  }

  lemma TwoInAMinute(budget: int)
    ensures Product(budget, MinutesUp(MINUTE) + 1) == 2 * budget
  {
  }

  // A window's count is the number of acceptances since it opened.
  lemma {:induction false} WindowCounts(policy: Policy, calls: seq<Call>, agent: string, hi: Time)
    requires policy.Valid() && InOrder(calls) && (calls != [] ==> calls[|calls| - 1].now <= hi)
    ensures var w := WindowOf(policy, calls, agent);
            w != NO_WINDOW ==> w.startedAt <= hi && w.count == AcceptedIn(policy, calls, agent, w.startedAt, hi)
  {
    if calls != [] {
      var init, last := calls[..|calls| - 1], calls[|calls| - 1];
      WindowCounts(policy, init, agent, hi);
      InOrderHasNoSkew(init);
      AcceptedIsSpent(policy, init, agent, last.now, hi, 0);
      if WindowOf(policy, init, agent) != NO_WINDOW { var i := WindowStart(policy, init, agent); }
    }
  }

  lemma {:induction false} EarlierStartHoldsMore(policy: Policy, calls: seq<Call>, agent: string, lo: Time, lo': Time, hi: Time)
    requires lo <= lo'
    ensures AcceptedIn(policy, calls, agent, lo, hi) >= AcceptedIn(policy, calls, agent, lo', hi)
  {
    if calls != [] { EarlierStartHoldsMore(policy, calls[..|calls| - 1], agent, lo, lo', hi); }
  }

  lemma ClockNearWindow(policy: Policy, calls: seq<Call>, agent: string, skew: int)
    requires SkewedBy(calls, skew) && WindowOf(policy, calls, agent) != NO_WINDOW
    ensures calls != [] && calls[|calls| - 1].now >= WindowOf(policy, calls, agent).startedAt - skew
  {
    var i := WindowStart(policy, calls, agent);
  }

  predicate Until(calls: seq<Call>, hi: Time) {
    forall i :: 0 <= i < |calls| ==> calls[i].now <= hi
  }

  lemma AcceptedNext(policy: Policy, calls: seq<Call>, agent: string, lo: Time, hi: Time)
    requires calls != [] && LastAccepted(policy, calls) && calls[|calls| - 1].agent == agent
    requires lo <= calls[|calls| - 1].now <= hi
    ensures AcceptedIn(policy, calls, agent, lo, hi) == AcceptedIn(policy, calls[..|calls| - 1], agent, lo, hi) + 1
  {
  }

  // A call that counts for the window either joins it or opens it.
  lemma WindowNext(policy: Policy, calls: seq<Call>, agent: string)
    requires calls != [] && LastAccepted(policy, calls) && calls[|calls| - 1].agent == agent
    ensures var w, w' := WindowOf(policy, calls[..|calls| - 1], agent), WindowOf(policy, calls, agent);
            w' == w.(count := w.count + 1) || (w'.startedAt == calls[|calls| - 1].now && w'.count == 1)
  {
  }

  // With skewed clocks a window's acceptances lie up to the skew before its opening.
  lemma {:induction false} WindowIsAccepted(policy: Policy, calls: seq<Call>, agent: string, hi: Time, skew: int)
    requires SkewedBy(calls, skew) && Until(calls, hi)
    ensures WindowOf(policy, calls, agent).count
         <= AcceptedIn(policy, calls, agent, WindowOf(policy, calls, agent).startedAt - skew, hi)
  {
    if calls != [] {
      var n, lo := |calls| - 1, WindowOf(policy, calls, agent).startedAt - skew;
      WindowIsAccepted(policy, calls[..n], agent, hi, skew);
      if LastAccepted(policy, calls) && calls[n].agent == agent {
        WindowNext(policy, calls, agent);
        ClockNearWindow(policy, calls, agent, skew);
        AcceptedNext(policy, calls, agent, lo, hi);
      } else {
        NothingNext(policy, calls, agent, lo, hi);
      }
    }
  }

  // Any other call changes neither the window nor the count.
  lemma NothingNext(policy: Policy, calls: seq<Call>, agent: string, lo: Time, hi: Time)
    requires calls != [] && !(LastAccepted(policy, calls) && calls[|calls| - 1].agent == agent)
    ensures AcceptedIn(policy, calls, agent, lo, hi) == AcceptedIn(policy, calls[..|calls| - 1], agent, lo, hi)
    ensures WindowOf(policy, calls, agent) == WindowOf(policy, calls[..|calls| - 1], agent)
  {
  }

  // An agent is throttled only when it had a whole budget accepted in less than a minute, give
  // or take the clocks' skew.
  lemma ThrottledOnlyAfterABudget(policy: Policy, calls: seq<Call>, j: nat, skew: int)
    requires policy.Valid() && SkewedBy(calls, skew) && j < |calls| && OutcomeOf(policy, calls, j).Throttled?
    ensures AcceptedIn(policy, calls[..j], calls[j].agent, calls[j].now - MINUTE + 1 - skew, calls[j].now + skew)
         >= policy.maxRequestsPerMinute + policy.burst
  {
    var before, agent, now := calls[..j], calls[j].agent, calls[j].now;
    RatesAreAccepted(policy, before, agent);
    WindowIsAccepted(policy, before, agent, now + skew, skew);
    EarlierStartHoldsMore(policy, before, agent, now - MINUTE + 1 - skew, WindowOf(policy, before, agent).startedAt - skew, now + skew);
  }
}
