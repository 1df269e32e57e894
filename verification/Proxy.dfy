// The inference proxy: one request is forwarded to a primary backend and at most once to a
// secondary one, its response is relayed or replaced by a problem, and one usage event is
// recorded. Bodies are objects that must not be read once closed.
module Proxy {
  import opened Wrappers
  import Metric
  import WireCodec

  type Byte = WireCodec.Byte

  const MAX_REQUEST_BYTES: nat := 0x80_0000
  const MAX_BUFFERED_RESPONSE_BYTES: nat := 0x200_0000
  const STREAM_BUFFER: nat := 0x8000

  // ---------- Response bodies ----------

  function Flat(chunks: seq<seq<Byte>>): seq<Byte> {
    if chunks == [] then [] else chunks[0] + Flat(chunks[1..])
  }

  function Size(chunks: seq<seq<Byte>>): nat {
    if chunks == [] then 0 else 1 + |chunks[0]| + Size(chunks[1..])
  }

  // What the network delivers, in chunks of any size, some of them empty. The end, a clean one
  // or a failure, is reported with the last chunk or by a read of its own.
  class Body {
    const fails: bool
    const endsWithLast: bool
    var rest: seq<seq<Byte>>
    var open: bool

    constructor (chunks: seq<seq<Byte>>, fails: bool, endsWithLast: bool)
      ensures rest == chunks && this.fails == fails && this.endsWithLast == endsWithLast && open
    {
      this.fails, this.endsWithLast, rest, open := fails, endsWithLast, chunks, true;
    }

    method Read(limit: nat) returns (data: seq<Byte>, ended: bool)
      requires open && limit >= 1
      modifies this`rest
      ensures |data| <= limit
      ensures old(Flat(rest)) == data + Flat(rest)
      ensures ended ==> rest == []
      ensures !ended ==> Size(rest) < old(Size(rest))
    {
      if rest == [] { return [], true; }
      var chunk := rest[0];
      if |chunk| > limit {
        data, ended := chunk[..limit], false;
        rest := [chunk[limit..]] + rest[1..];
        assert rest[1..] == old(rest[1..]);
      } else {
        data := chunk;
        rest := rest[1..];
        ended := rest == [] && endsWithLast;
      }
    }

    method Close()
      modifies this`open
      ensures !open
    {
      open := false;
    }
  }

  // ---------- The client's side ----------

  // statuses holds every status line that went out to the client.
  class ResponseWriter {
    var wroteHeader: bool
    var statuses: seq<int>
    var body: seq<Byte>

    ghost predicate Valid()
      reads this
    {
      |statuses| == if wroteHeader then 1 else 0
    }

    constructor ()
      ensures Valid() && statuses == [] && body == []
    {
      wroteHeader, statuses, body := false, [], [];
    }

    method WriteHeader(status: int)
      requires Valid()
      modifies this`wroteHeader, this`statuses
      ensures Valid() && wroteHeader
      ensures statuses == if old(wroteHeader) then old(statuses) else [status]
    {
      if wroteHeader { return; }
      wroteHeader := true;
      statuses := statuses + [status];
    }

    method Write(payload: seq<Byte>)
      requires Valid()
      modifies this
      ensures Valid() && wroteHeader
      ensures statuses == if old(wroteHeader) then old(statuses) else [200]
      ensures body == old(body) + payload
    {
      if !wroteHeader { WriteHeader(200); }
      body := body + payload;
    }

    method Flush()
      requires Valid()
      modifies this
      ensures Valid() && wroteHeader
      ensures statuses == (if old(wroteHeader) then old(statuses) else [200]) && body == old(body)
    {
      if !wroteHeader { WriteHeader(200); }
    }

    method WriteProblem(problem: Problem, encode: Problem -> seq<Byte>)
      requires Valid()
      modifies this
      ensures Valid() && wroteHeader
      ensures statuses == if old(wroteHeader) then old(statuses) else [ProblemStatus(problem)]
      ensures body == old(body) + encode(problem)
    {
      WriteHeader(ProblemStatus(problem));
      Write(encode(problem));
    }

    // What the deferred recovery does after a panic at any point: a response that has begun is
    // left alone.
    method RecoverPanic(encode: Problem -> seq<Byte>)
      requires Valid()
      modifies this
      ensures Valid() && |statuses| == 1
      ensures old(wroteHeader) ==> statuses == old(statuses) && body == old(body)
      ensures !old(wroteHeader) ==> statuses == [500] && body == old(body) + encode(UnexpectedFailure)
    {
      if !wroteHeader { WriteProblem(UnexpectedFailure, encode); }
    }
  }

  datatype Problem =
    | MethodNotAllowed
    | NotConfigured
    | CredentialRequired
    | CredentialInvalid
    | RequestTooLarge
    | ModelRequired
    | RouteUnavailable
    | NoResponse
    | UnsupportedRedirect
    | BackendFailed
    | UnexpectedFailure

  function ProblemStatus(problem: Problem): int {
    match problem
    case MethodNotAllowed => 405
    case NotConfigured => 503
    case CredentialRequired => 401
    case CredentialInvalid => 401
    case RequestTooLarge => 413
    case ModelRequired => 400
    case RouteUnavailable => 404
    case NoResponse => 502
    case UnsupportedRedirect => 502
    case BackendFailed => 502
    case UnexpectedFailure => 500
  }

  // ---------- Copying ----------

  // firstByte says whether a time to first token was taken.
  method CopyStreaming(writer: ResponseWriter, source: Body) returns (firstByte: bool, failed: bool)
    requires writer.Valid() && writer.wroteHeader && source.open
    modifies writer, source`rest
    ensures writer.Valid() && writer.wroteHeader && writer.statuses == old(writer.statuses)
    ensures writer.body == old(writer.body) + old(Flat(source.rest))
    ensures firstByte <==> old(Flat(source.rest)) != []
    ensures failed <==> source.fails
  {
    firstByte, failed := false, source.fails;
    var ended := false;
    while !ended
      invariant writer.Valid() && writer.wroteHeader && writer.statuses == old(writer.statuses)
      invariant source.open && (ended ==> source.rest == [])
      invariant writer.body + Flat(source.rest) == old(writer.body) + old(Flat(source.rest))
      invariant |writer.body| >= |old(writer.body)| && (firstByte <==> |writer.body| > |old(writer.body)|)
      decreases !ended, Size(source.rest)
    {
      var data;
      data, ended := source.Read(STREAM_BUFFER);
      if |data| > 0 {
        firstByte := true;
        writer.Write(data);
        writer.Flush();
      }
    }
  }

  // Reads at most limit bytes, in reads of any size.
  method ReadUpTo(source: Body, limit: nat) returns (data: seq<Byte>, failed: bool)
    requires source.open
    modifies source`rest
    ensures |data| <= limit
    ensures data + Flat(source.rest) == old(Flat(source.rest))
    ensures |data| < limit ==> source.rest == [] && failed == source.fails
  {
    data, failed := [], false;
    var ended := false;
    while !ended && |data| < limit
      invariant |data| <= limit && source.open
      invariant data + Flat(source.rest) == old(Flat(source.rest))
      invariant ended ==> source.rest == [] && failed == source.fails
      decreases !ended, Size(source.rest)
    {
      var size: nat :| 1 <= size <= limit - |data|;
      var more;
      more, ended := source.Read(size);
      data := data + more;
      if ended { failed := source.fails; }
    }
  }

  method CopyRest(writer: ResponseWriter, source: Body)
    requires writer.Valid() && writer.wroteHeader && source.open
    modifies writer, source`rest
    ensures writer.Valid() && writer.wroteHeader && writer.statuses == old(writer.statuses)
    ensures writer.body == old(writer.body) + old(Flat(source.rest))
  {
    var ended := false;
    while !ended
      invariant writer.Valid() && writer.wroteHeader && writer.statuses == old(writer.statuses)
      invariant source.open && (ended ==> source.rest == [])
      invariant writer.body + Flat(source.rest) == old(writer.body) + old(Flat(source.rest))
      decreases !ended, Size(source.rest)
    {
      var data;
      data, ended := source.Read(STREAM_BUFFER);
      writer.Write(data);
    }
  }

  // ---------- Requests, routes and replies ----------

  datatype Route = Route(id: string, primaryUrl: string, secondaryUrl: string)

  // What asking a backend leads to; Unreachable covers an invalid URL and a transport error.
  datatype Reply = Unreachable | Answered(status: int, chunks: seq<seq<Byte>>, fails: bool, endsWithLast: bool)

  // A body that cannot be read to its end is None.
  datatype Inbound = Inbound(isPost: bool, authorization: string, body: Option<seq<Byte>>)

  datatype Metadata = Metadata(model: string, stream: bool)

  datatype Usage = Usage(prompt: Option<int>, output: Option<int>, total: Option<int>)

  const NO_USAGE: Usage := Usage(None, None, None)

  datatype Outcome = Completed | BackendError | BackendRedirect | StreamError | TransportError

  // Times are left out; firstByte says whether a time to first token is present.
  datatype UsageEvent = UsageEvent(
    routeId: string,
    model: string,
    clientId: string,
    backendId: string,
    statusCode: int,
    streaming: bool,
    firstByte: bool,
    usage: Usage,
    outcome: Outcome)

  datatype Setup = Setup(
    configured: bool,
    authenticate: string -> Option<string>,
    parse: seq<Byte> -> Option<Metadata>,
    resolve: string -> Option<Route>,
    usageOf: seq<Byte> -> Usage,
    encode: Problem -> seq<Byte>)

  datatype Admitted = Admitted(clientId: string, metadata: Metadata, route: Route)

  predicate ShouldFailOver(status: int) {
    status == 502 || status == 503 || status == 504
  }

  predicate IsRedirect(status: int) {
    300 <= status < 400
  }

  function TrimLeft(s: string): string {
    if s != [] && Metric.IsSpace(s[0]) then TrimLeft(s[1..]) else s
  }

  function TrimRight(s: string): string {
    if s != [] && Metric.IsSpace(s[|s| - 1]) then TrimRight(s[..|s| - 1]) else s
  }

  function BearerToken(authorization: string): Option<string> {
    var prefix := "Bearer ";
    if !(prefix <= authorization) || Metric.Blank(authorization[|prefix|..]) then None
    else Some(TrimRight(TrimLeft(authorization[|prefix|..])))
  }

  // The checks before any backend is contacted.
  function Admit(setup: Setup, q: Inbound): Result<Admitted, Problem> {
    if !q.isPost then Err(MethodNotAllowed)
    else if !setup.configured then Err(NotConfigured)
    else if BearerToken(q.authorization).None? then Err(CredentialRequired) else
    var client := setup.authenticate(BearerToken(q.authorization).value);
    if client.None? then Err(CredentialInvalid)
    else if q.body.None? || |q.body.value| > MAX_REQUEST_BYTES then Err(RequestTooLarge) else
    var metadata := setup.parse(q.body.value);
    if metadata.None? || Metric.Blank(metadata.value.model) then Err(ModelRequired) else
    var route := setup.resolve(metadata.value.model);
    if route.None? then Err(RouteUnavailable) else Ok(Admitted(client.value, metadata.value, route.value))
  }

  // ---------- The specification ----------

  predicate NeedsSecond(route: Route, first: Reply) {
    !Metric.Blank(route.secondaryUrl) && (first.Unreachable? || ShouldFailOver(first.status))
  }

  function Contacts(route: Route, first: Reply): seq<string> {
    [route.primaryUrl] + if NeedsSecond(route, first) then [route.secondaryUrl] else []
  }

  // Whether the answer is the secondary's. When both fail in transport the secondary is named;
  // a gateway failure of the primary stands when the secondary cannot be reached.
  predicate FromSecondary(route: Route, first: Reply, second: Reply) {
    NeedsSecond(route, first) && (first.Unreachable? || second.Answered?)
  }

  function Chosen(route: Route, first: Reply, second: Reply): Reply {
    if FromSecondary(route, first, second) then second else first
  }

  function BackendId(route: Route, first: Reply, second: Reply): string {
    route.id + if FromSecondary(route, first, second) then ":secondary" else ":primary"
  }

  datatype Answer = Answer(status: int, body: seq<Byte>, events: seq<UsageEvent>, contacts: seq<string>)

  function EventOf(a: Admitted, backendId: string, statusCode: int, outcome: Outcome): UsageEvent {
    UsageEvent(a.route.id, a.metadata.model, a.clientId, backendId, statusCode, a.metadata.stream, false, NO_USAGE, outcome)
  }

  function ResponseOutcome(status: int): Outcome {
    if IsRedirect(status) then BackendRedirect else if status < 400 then Completed else BackendError
  }

  // A whole response that fits the buffer is searched for token counts.
  predicate Buffered(reply: Reply)
    requires reply.Answered?
  {
    !reply.fails && |Flat(reply.chunks)| <= MAX_BUFFERED_RESPONSE_BYTES
  }

  function RelayEvent(setup: Setup, event: UsageEvent, reply: Reply): UsageEvent
    requires reply.Answered?
  {
    if event.streaming then
      event.(firstByte := Flat(reply.chunks) != [], outcome := if reply.fails then StreamError else event.outcome)
    else if Buffered(reply) then event.(firstByte := true, usage := setup.usageOf(Flat(reply.chunks)))
    else event
  }

  function Forwarded(setup: Setup, a: Admitted, first: Reply, second: Reply): Answer {
    var reply, id, contacts := Chosen(a.route, first, second), BackendId(a.route, first, second), Contacts(a.route, first);
    match reply
    case Unreachable =>
      Answer(502, setup.encode(NoResponse), [EventOf(a, id, 0, TransportError)], contacts)
    case Answered(status, chunks, _, _) =>
      var event := EventOf(a, id, status, ResponseOutcome(status));
      if IsRedirect(status) then Answer(502, setup.encode(UnsupportedRedirect), [event], contacts)
      else if status >= 400 then Answer(502, setup.encode(BackendFailed), [event], contacts)
      else Answer(status, Flat(chunks), [RelayEvent(setup, event, reply)], contacts)
  }

  function Served(setup: Setup, q: Inbound, first: Reply, second: Reply): Answer {
    match Admit(setup, q)
    case Err(problem) => Answer(ProblemStatus(problem), setup.encode(problem), [], [])
    case Ok(a) => Forwarded(setup, a, first, second)
  }

  // ---------- The handler ----------

  datatype Response = Response(status: int, body: Body)

  class Handler {
    const setup: Setup
    var events: seq<UsageEvent>
    var contacts: seq<string>

    constructor (setup: Setup)
      ensures this.setup == setup && events == [] && contacts == []
    {
      this.setup, events, contacts := setup, [], [];
    }

    method ForwardOnce(url: string, reply: Reply) returns (r: Option<Response>)
      modifies this`contacts
      ensures contacts == old(contacts) + [url]
      ensures r.Some? <==> reply.Answered?
      ensures r.Some? ==> fresh(r.value.body) && r.value.status == reply.status && Delivers(r.value.body, reply)
    {
      contacts := contacts + [url];
      if reply.Unreachable? { return None; }
      var body := new Body(reply.chunks, reply.fails, reply.endsWithLast);
      r := Some(Response(reply.status, body));
    }

    ghost predicate Delivers(body: Body, reply: Reply)
      requires reply.Answered?
      reads body
    {
      body.open && body.rest == reply.chunks && body.fails == reply.fails
    }

    // The response is open unless its status is one that ServeHTTP never relays; every other
    // body that was opened is closed.
    method Forward(route: Route, first: Reply, second: Reply)
      returns (r: Option<Response>, backendId: string, ghost bodies: set<Body>)
      modifies this`contacts
      ensures contacts == old(contacts) + Contacts(route, first)
      ensures backendId == BackendId(route, first, second)
      ensures r.Some? <==> Chosen(route, first, second).Answered?
      ensures fresh(bodies)
      ensures forall body :: body in bodies && (r.None? || body != r.value.body) ==> !body.open
      ensures r.Some? ==> r.value.body in bodies && r.value.status == Chosen(route, first, second).status
      ensures r.Some? && !ShouldFailOver(r.value.status) ==> Delivers(r.value.body, Chosen(route, first, second))
    {
      bodies := {};
      var primary := ForwardOnce(route.primaryUrl, first);
      if primary.Some? {
        bodies := bodies + {primary.value.body};
        if ShouldFailOver(primary.value.status) && !Metric.Blank(route.secondaryUrl) {
          primary.value.body.Close();
          var secondary := ForwardOnce(route.secondaryUrl, second);
          if secondary.Some? {
            bodies := bodies + {secondary.value.body};
            return secondary, route.id + ":secondary", bodies;
          }
          return primary, route.id + ":primary", bodies;
        }
        return primary, route.id + ":primary", bodies;
      }
      if Metric.Blank(route.secondaryUrl) { return None, route.id + ":primary", bodies; }
      var secondary := ForwardOnce(route.secondaryUrl, second);
      if secondary.None? { return None, route.id + ":secondary", bodies; }
      bodies := bodies + {secondary.value.body};
      return secondary, route.id + ":secondary", bodies;
    }

    method Record(event: UsageEvent)
      modifies this`events
      ensures events == old(events) + [event]
    {
      events := events + [event];
    }

    // Copies an open response to a client whose header has gone out.
    method Relay(writer: ResponseWriter, body: Body, event: UsageEvent, ghost reply: Reply) returns (final: UsageEvent)
      requires writer.Valid() && writer.wroteHeader && reply.Answered? && Delivers(body, reply)
      modifies writer, body`rest
      ensures writer.Valid() && writer.statuses == old(writer.statuses)
      ensures writer.body == old(writer.body) + Flat(reply.chunks)
      ensures final == RelayEvent(setup, event, reply)
    {
      final := event;
      if event.streaming {
        var firstByte, failed := CopyStreaming(writer, body);
        final := final.(firstByte := firstByte);
        if failed { final := final.(outcome := StreamError); }
        return;
      }
      var bytes, failed := ReadUpTo(body, MAX_BUFFERED_RESPONSE_BYTES + 1);
      if !failed && |bytes| <= MAX_BUFFERED_RESPONSE_BYTES {
        assert bytes + [] == bytes;
        writer.Write(bytes);
        final := final.(usage := setup.usageOf(bytes), firstByte := true);
      } else {
        writer.Write(bytes);
        CopyRest(writer, body);
      }
    }

    method CheckRequest(q: Inbound) returns (r: Result<Admitted, Problem>)
      ensures r == Admit(setup, q)
    {
      if !q.isPost { return Err(MethodNotAllowed); }
      if !setup.configured { return Err(NotConfigured); }
      var token := BearerToken(q.authorization);
      if token.None? { return Err(CredentialRequired); }
      var client := setup.authenticate(token.value);
      if client.None? { return Err(CredentialInvalid); }
      if q.body.None? || |q.body.value| > MAX_REQUEST_BYTES { return Err(RequestTooLarge); }
      var metadata := setup.parse(q.body.value);
      if metadata.None? || Metric.Blank(metadata.value.model) { return Err(ModelRequired); }
      var route := setup.resolve(metadata.value.model);
      if route.None? { return Err(RouteUnavailable); }
      r := Ok(Admitted(client.value, metadata.value, route.value));
    }

    // The part of ServeHTTP that follows a resolved route.
    method Exchange(writer: ResponseWriter, a: Admitted, first: Reply, second: Reply) returns (ghost bodies: set<Body>)
      requires writer.Valid() && writer.statuses == [] && writer.body == []
      modifies this, writer
      ensures writer.Valid() && writer.wroteHeader
      ensures fresh(bodies) && forall body :: body in bodies ==> !body.open
      ensures var answer := Forwarded(setup, a, first, second);
              && writer.statuses == [answer.status] && writer.body == answer.body
              && events == old(events) + answer.events
              && contacts == old(contacts) + answer.contacts
    {
      var response, backendId;
      response, backendId, bodies := Forward(a.route, first, second);
      if response.None? {
        Record(EventOf(a, backendId, 0, TransportError));
        writer.WriteProblem(NoResponse, setup.encode);
        return;
      }
      var status, body := response.value.status, response.value.body;
      var event := EventOf(a, backendId, status, if status < 400 then Completed else BackendError);
      if IsRedirect(status) || status >= 400 {
        if IsRedirect(status) { event := event.(outcome := BackendRedirect); }
        Record(event);
        writer.WriteProblem(if IsRedirect(status) then UnsupportedRedirect else BackendFailed, setup.encode);
      } else {
        writer.WriteHeader(status);
        event := Relay(writer, body, event, Chosen(a.route, first, second));
        Record(event);
      }
      body.Close();
    }

    // Every body opened on the way is closed at the end, and none is read after its close.
    method ServeHTTP(writer: ResponseWriter, q: Inbound, first: Reply, second: Reply) returns (ghost bodies: set<Body>)
      requires writer.Valid() && writer.statuses == [] && writer.body == []
      modifies this, writer
      ensures writer.Valid() && writer.wroteHeader
      ensures fresh(bodies) && forall body :: body in bodies ==> !body.open
      ensures var answer := Served(setup, q, first, second);
              && writer.statuses == [answer.status] && writer.body == answer.body
              && events == old(events) + answer.events
              && contacts == old(contacts) + answer.contacts
    {
      bodies := {};
      var checked := CheckRequest(q);
      if checked.Err? {
        writer.WriteProblem(checked.error, setup.encode);
      } else {
        bodies := Exchange(writer, checked.value, first, second);
      }
    }
  }

  // ---------- What every request gets ----------

  lemma {:induction false} TrimLeftKeeps(s: string)
    requires !Metric.Blank(s)
    ensures !Metric.Blank(TrimLeft(s)) && !Metric.IsSpace(TrimLeft(s)[0])
  {
    if Metric.IsSpace(s[0]) {
      assert s == [s[0]] + s[1..];
      TrimLeftKeeps(s[1..]);
    }
  }

  lemma {:induction false} TrimRightKeeps(s: string)
    requires !Metric.Blank(s) && !Metric.IsSpace(s[0])
    ensures TrimRight(s) != [] && TrimRight(s)[0] == s[0] && !Metric.IsSpace(TrimRight(s)[|TrimRight(s)| - 1])
  {
    if Metric.IsSpace(s[|s| - 1]) {
      assert s[..|s| - 1][0] == s[0];
      TrimRightKeeps(s[..|s| - 1]);
    }
  }

  lemma {:induction false} TrimLeftDropsSpace(s: string) returns (i: nat)
    ensures i <= |s| && TrimLeft(s) == s[i..] && Metric.Blank(s[..i])
  {
    if s != [] && Metric.IsSpace(s[0]) {
      i := TrimLeftDropsSpace(s[1..]);
      assert s[..i + 1] == [s[0]] + s[1..][..i];
      i := i + 1;
    } else {
      i := 0;
    }
  }

  lemma {:induction false} TrimRightDropsSpace(s: string) returns (j: nat)
    ensures j <= |s| && TrimRight(s) == s[..j] && Metric.Blank(s[j..])
  {
    if s != [] && Metric.IsSpace(s[|s| - 1]) {
      j := TrimRightDropsSpace(s[..|s| - 1]);
      assert s[j..] == s[..|s| - 1][j..] + [s[|s| - 1]];
    } else {
      j := |s|;
    }
  }

  // The authenticator sees what follows the scheme without the space around it, and sees
  // anything only when that is not all space.
  lemma TokenIsTrimmed(authorization: string) returns (i: nat, j: nat)
    ensures BearerToken(authorization).Some? <==>
            "Bearer " <= authorization && exists c :: c in authorization[7..] && !Metric.IsSpace(c)
    ensures BearerToken(authorization).Some? ==>
              var token := BearerToken(authorization).value;
              && token != [] && !Metric.IsSpace(token[0]) && !Metric.IsSpace(token[|token| - 1])
              && 7 <= i <= j <= |authorization| && token == authorization[i..j]
              && Metric.Blank(authorization[7..i]) && Metric.Blank(authorization[j..])
  {
    i, j := 0, 0;
    if BearerToken(authorization).Some? {
      var text := authorization[7..];
      TrimLeftKeeps(text);
      TrimRightKeeps(TrimLeft(text));
      i := TrimLeftDropsSpace(text);
      j := TrimRightDropsSpace(TrimLeft(text));
      TrimmedSlice(authorization, text, i, j);
      i, j := 7 + i, 7 + i + j;
    }
  }

  lemma TrimmedSlice(authorization: string, text: string, i: nat, j: nat)
    requires |authorization| >= 7 && text == authorization[7..] && i <= |text| && j <= |text[i..]|
    ensures text[i..][..j] == authorization[7 + i..7 + i + j]
    ensures text[..i] == authorization[7..7 + i] && text[i..][j..] == authorization[7 + i + j..]
  {
  }

  // ---------- The checks and the failover in plain terms ----------

  // The first check that fails decides the status, and no backend hears of the request.
  lemma RefusedExactly(setup: Setup, q: Inbound, first: Reply, second: Reply)
    ensures var token, answer := BearerToken(q.authorization), Served(setup, q, first, second);
            var refusal :=
              if !q.isPost then 405
              else if !setup.configured then 503
              else if token.None? || setup.authenticate(token.value).None? then 401
              else if q.body.None? || |q.body.value| > 8_388_608 then 413
              else if setup.parse(q.body.value).None? || Metric.Blank(setup.parse(q.body.value).value.model) then 400
              else if setup.resolve(setup.parse(q.body.value).value.model).None? then 404
              else 0;
            if refusal != 0 then Admit(setup, q).Err? && answer.status == refusal && answer.events == [] && answer.contacts == []
            else Admit(setup, q) == Ok(Admitted(setup.authenticate(token.value).value, setup.parse(q.body.value).value,
                                                setup.resolve(setup.parse(q.body.value).value.model).value))
  {
  }

  // What the client gets of one backend's reply.
  ghost predicate AnswersWith(setup: Setup, answer: Answer, reply: Reply) {
    match reply
    case Unreachable => answer.status == 502 && answer.body == setup.encode(NoResponse)
    case Answered(status, chunks, _, _) =>
      if status < 300 then answer.status == status && answer.body == Flat(chunks)
      else answer.status == 502 && answer.body == setup.encode(if status < 400 then UnsupportedRedirect else BackendFailed)
  }

  ghost predicate Names(answer: Answer, backendId: string, statusCode: int) {
    |answer.events| == 1 && answer.events[0].backendId == backendId && answer.events[0].statusCode == statusCode
  }

  // The secondary is asked exactly when there is one and the primary did not answer or answered
  // 502, 503 or 504. Its answer then counts in every respect; if it gives none, the client gets
  // 502 and the event names the primary after a gateway status and the secondary after no reply.
  lemma FailoverExactly(setup: Setup, q: Inbound, first: Reply, second: Reply, a: Admitted)
    requires Admit(setup, q) == Ok(a)
    ensures var answer, route := Served(setup, q, first, second), a.route;
            if (exists c :: c in route.secondaryUrl && !Metric.IsSpace(c))
               && (first.Unreachable? || first.status in {502, 503, 504}) then
              && answer.contacts == [route.primaryUrl, route.secondaryUrl]
              && (second.Answered? ==> AnswersWith(setup, answer, second) && Names(answer, route.id + ":secondary", second.status))
              && (second.Unreachable? ==> answer.status == 502)
              && (second.Unreachable? && first.Answered? ==>
                    AnswersWith(setup, answer, first) && Names(answer, route.id + ":primary", first.status))
              && (second.Unreachable? && first.Unreachable? ==>
                    AnswersWith(setup, answer, second) && Names(answer, route.id + ":secondary", 0))
            else
              && answer.contacts == [route.primaryUrl]
              && AnswersWith(setup, answer, first)
              && Names(answer, route.id + ":primary", if first.Answered? then first.status else 0)
  {
  }

  // What the event tells besides the backend.
  lemma EventExactly(setup: Setup, q: Inbound, first: Reply, second: Reply, a: Admitted)
    requires Admit(setup, q) == Ok(a)
    ensures var answer := Served(setup, q, first, second);
            && |answer.events| == 1
            && var event, status := answer.events[0], answer.events[0].statusCode;
               && event.routeId == a.route.id && event.model == a.metadata.model && event.clientId == a.clientId
               && event.streaming == a.metadata.stream
               && (event.outcome.BackendRedirect? <==> 300 <= status < 400)
               && (event.outcome.BackendError? <==> status >= 400)
               && (event.outcome.TransportError? <==>
                     first.Unreachable? && (Metric.Blank(a.route.secondaryUrl) || second.Unreachable?))
               && (event.outcome.StreamError? ==> a.metadata.stream && status < 300)
               && (event.firstByte ==> status < 300)
               && (event.firstByte && a.metadata.stream ==> answer.body != [])
               && (event.usage != NO_USAGE ==>
                     !a.metadata.stream && event.usage == setup.usageOf(answer.body) && |answer.body| <= 33_554_432)
  {
  }

  // A success that came whole: a stream with its first byte, a buffered answer with the token
  // counts found in it as long as it fits 32 MiB.
  lemma WholeSuccessIsRecorded(setup: Setup, q: Inbound, first: Reply, second: Reply, a: Admitted)
    requires Admit(setup, q) == Ok(a)
    requires first.Answered? && first.status < 300 && !first.fails
    ensures var event, body := Served(setup, q, first, second).events[0], Flat(first.chunks);
            && event.outcome == Completed && event.statusCode == first.status
            && event.usage == (if a.metadata.stream || |body| > 33_554_432 then NO_USAGE else setup.usageOf(body))
            && (event.firstByte <==> if a.metadata.stream then body != [] else |body| <= 33_554_432)
  {
  }

  function StatusOf(reply: Reply): int {
    if reply.Unreachable? then 0 else reply.status
  }

  // An event names a backend that was contacted and carries the status that very backend
  // answered, zero for none.
  predicate NamesItsBackend(event: UsageEvent, a: Admitted, contacts: seq<string>, first: Reply, second: Reply) {
    && event.routeId == a.route.id && event.model == a.metadata.model && event.clientId == a.clientId
    && 1 <= |contacts| <= 2 && contacts[0] == a.route.primaryUrl
    && (|| (event.backendId == a.route.id + ":primary" && event.statusCode == StatusOf(first))
        || (event.backendId == a.route.id + ":secondary" && event.statusCode == StatusOf(second)
            && |contacts| == 2 && contacts[1] == a.route.secondaryUrl))
  }

  lemma ForwardedRecordsItsBackend(setup: Setup, a: Admitted, first: Reply, second: Reply)
    ensures var answer := Forwarded(setup, a, first, second);
            |answer.events| == 1 && NamesItsBackend(answer.events[0], a, answer.contacts, first, second)
  {
    if FromSecondary(a.route, first, second) {
      assert Contacts(a.route, first) == [a.route.primaryUrl, a.route.secondaryUrl];
    }
  }

  // Exactly one usage event for every request that resolved a route, none for any other; and
  // at most two backends are contacted.
  lemma RecordedBackendAnswered(setup: Setup, q: Inbound, first: Reply, second: Reply)
    ensures var answer := Served(setup, q, first, second);
            match Admit(setup, q)
            case Err(_) => answer.events == [] && answer.contacts == []
            case Ok(a) => |answer.events| == 1 && NamesItsBackend(answer.events[0], a, answer.contacts, first, second)
  {
    if Admit(setup, q).Ok? { ForwardedRecordsItsBackend(setup, Admit(setup, q).value, first, second); }
  }

  // The secondary is asked only when the first answer was none or a gateway failure, and its
  // own answer is the one that counts whenever it gives one.
  lemma FailoverOnlyOnGatewayFailure(setup: Setup, a: Admitted, first: Reply, second: Reply)
    requires |Forwarded(setup, a, first, second).contacts| == 2
    ensures first.Unreachable? || first.status in {502, 503, 504}
    ensures second.Answered? ==> Forwarded(setup, a, first, second).events[0].statusCode == second.status
  {
  }

  predicate SameContent(r: Reply, r': Reply) {
    if r.Unreachable? then r'.Unreachable?
    else r'.Answered? && r.status == r'.status && r.fails == r'.fails && Flat(r.chunks) == Flat(r'.chunks)
  }

  lemma ChosenIgnoresChunking(route: Route, first: Reply, second: Reply, first': Reply, second': Reply)
    requires SameContent(first, first') && SameContent(second, second')
    ensures FromSecondary(route, first, second) == FromSecondary(route, first', second')
    ensures SameContent(Chosen(route, first, second), Chosen(route, first', second'))
    ensures NeedsSecond(route, first) == NeedsSecond(route, first')
  {
  }

  lemma RelayEventIgnoresChunking(setup: Setup, event: UsageEvent, r: Reply, r': Reply)
    requires r.Answered? && SameContent(r, r')
    ensures RelayEvent(setup, event, r) == RelayEvent(setup, event, r')
  {
  }

  lemma ForwardedIgnoresChunking(setup: Setup, a: Admitted, first: Reply, second: Reply, first': Reply, second': Reply)
    requires SameContent(first, first') && SameContent(second, second')
    ensures Forwarded(setup, a, first, second) == Forwarded(setup, a, first', second')
  {
    ChosenIgnoresChunking(a.route, first, second, first', second');
    var reply, reply' := Chosen(a.route, first, second), Chosen(a.route, first', second');
    if reply.Answered? {
      var event := EventOf(a, BackendId(a.route, first, second), reply.status, ResponseOutcome(reply.status));
      RelayEventIgnoresChunking(setup, event, reply, reply');
    }
  }

  // What the client gets and what is recorded depend on the bytes alone, not on how the
  // network cut them into reads.
  lemma ChunkingIsInvisible(setup: Setup, q: Inbound, first: Reply, second: Reply, first': Reply, second': Reply)
    requires SameContent(first, first') && SameContent(second, second')
    ensures Served(setup, q, first, second) == Served(setup, q, first', second')
  {
    if Admit(setup, q).Ok? { ForwardedIgnoresChunking(setup, Admit(setup, q).value, first, second, first', second'); }
  }

  predicate IsRelayed(reply: Reply) {
    reply.Answered? && reply.status < 300
  }

  // A success is relayed byte for byte; of any other answer not one byte reaches the client,
  // whose status is then an error of the proxy's own.
  lemma RelayedOrReplaced(setup: Setup, q: Inbound, first: Reply, second: Reply, a: Admitted)
    requires Admit(setup, q) == Ok(a)
    ensures var answer, reply := Served(setup, q, first, second), Chosen(a.route, first, second);
            if IsRelayed(reply) then answer.status == reply.status && answer.body == Flat(reply.chunks)
            else answer.status == 502
                 && exists problem: Problem :: ProblemStatus(problem) == 502 && answer.body == setup.encode(problem)
  {
    var reply := Chosen(a.route, first, second);
    if reply.Unreachable? {
      assert ProblemStatus(NoResponse) == 502;
    } else if IsRedirect(reply.status) {
      assert ProblemStatus(UnsupportedRedirect) == 502;
    } else {
      assert ProblemStatus(BackendFailed) == 502;
    }
  }

  // A relayed response cut short by its backend is recorded as completed exactly when it was
  // not a stream.
  lemma TruncationIsRecordedForStreamsOnly(setup: Setup, q: Inbound, first: Reply, second: Reply, a: Admitted)
    requires Admit(setup, q) == Ok(a)
    requires IsRelayed(Chosen(a.route, first, second)) && Chosen(a.route, first, second).fails
    ensures Served(setup, q, first, second).events[0].outcome.Completed? <==> !a.metadata.stream
  {
  }
}
