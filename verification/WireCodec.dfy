// The compressed wire form of an envelope. The encoder embeds the sizes and the checksum of
// its own output by a bounded number of rounds; the decoder checks all three again.
module WireCodec {
  import opened Wrappers
  import opened Metric
  import opened Envelopes

  type Byte = b: int | 0 <= b < 256
  type I64 = x: int | -0x8000_0000_0000_0000 <= x < 0x8000_0000_0000_0000

  const DIGEST_SIZE: nat := 32
  const ROUNDS: nat := 6

  datatype Scalar = NoScalar | NumberValue(number: Number) | BooleanValue(flag: bool) | TextValue(text: string)

  datatype ProtoSample = ProtoSample(
    deviceId: string,
    metricName: string,
    unit: string,
    quality: int,
    source: string,
    semantics: string,
    observedUnixNano: I64,
    scalar: Scalar)

  datatype ProtoContainer = ProtoContainer(
    containerId: string,
    name: string,
    image: string,
    state: string,
    health: string,
    selectedForAlerting: bool)

  // An absent checksum and an empty one are the same message in proto3.
  datatype ProtoEnvelope = ProtoEnvelope(
    schemaVersion: U32,
    codec: string,
    agentId: string,
    hostId: string,
    bootId: string,
    sequence: U64,
    observedUnixNano: I64,
    monotonicElapsedNano: U64,
    sampleCount: U32,
    metricValueCount: U32,
    uncompressedBytes: U32,
    compressedBytes: U32,
    checksumSha256: seq<Byte>,
    samples: seq<ProtoSample>,
    containers: seq<ProtoContainer>)

  // The foreign calls: protobuf, zstd and SHA-256.
  datatype Primitives = Primitives(
    marshal: ProtoEnvelope -> Option<seq<Byte>>,
    unmarshal: seq<Byte> -> Option<ProtoEnvelope>,
    compress: seq<Byte> -> seq<Byte>,
    decompress: seq<Byte> -> Option<seq<Byte>>,
    sha256: seq<Byte> -> seq<Byte>)
  {
    // The laws used of them: parsing undoes printing, a message with a schema version prints
    // at least one byte, and decompression undoes compression up to the decoder's memory.
    ghost predicate Lawful() {
      && (forall m :: marshal(m).Some? ==> unmarshal(marshal(m).value) == Some(m))
      && (forall m :: marshal(m).Some? && m.schemaVersion != 0 ==> marshal(m).value != [])
      && (forall b :: |b| <= MAX_UNCOMPRESSED_BYTES ==> decompress(compress(b)) == Some(b))
      && (forall b :: compress(b) != [])
      && (forall b :: |sha256(b)| == DIGEST_SIZE)
    }
  }

  // ---------- Field mappings ----------

  function QualityToWire(q: Quality): Option<int> {
    match q
    case Fresh => Some(1)
    case Stale => Some(2)
    case Unavailable => Some(3)
    case Unsupported => Some(4)
    case Estimated => Some(5)
    case Experimental => Some(6)
    case Unknown(_) => None
  }

  function QualityFromWire(n: int): Option<Quality> {
    if n == 1 then Some(Fresh)
    else if n == 2 then Some(Stale)
    else if n == 3 then Some(Unavailable)
    else if n == 4 then Some(Unsupported)
    else if n == 5 then Some(Estimated)
    else if n == 6 then Some(Experimental)
    else None
  }

  // Time.UnixNano keeps the low 64 bits.
  function UnixNano(t: Time): I64 {
    (t + 0x8000_0000_0000_0000) % 0x1_0000_0000_0000_0000 - 0x8000_0000_0000_0000
  }

  predicate Representable(t: Time) {
    -0x8000_0000_0000_0000 <= t < 0x8000_0000_0000_0000
  }

  predicate RepresentableTimes(e: Envelope) {
    Representable(e.observedAt)
    && forall i :: 0 <= i < |e.samples| ==> Representable(e.samples[i].metric.observedAt)
  }

  function SampleToProto(s: Sample): Option<ProtoSample> {
    match QualityToWire(s.metric.quality)
    case None => None
    case Some(quality) =>
      Some(ProtoSample(s.deviceId, s.metric.name, s.metric.unit, quality, s.metric.source,
                       s.metric.semantics, UnixNano(s.metric.observedAt),
                       if s.metric.value.Some? then NumberValue(s.metric.value.value) else NoScalar))
  }

  // Only numbers and absent values are supported; booleans and texts are refused.
  function SampleFromProto(p: ProtoSample): Option<Sample> {
    match (QualityFromWire(p.quality), p.scalar)
    case (Some(quality), NumberValue(x)) =>
      Some(Sample(p.deviceId, MetricValue(p.metricName, p.unit, Some(x), quality, p.source,
                                          p.semantics, p.observedUnixNano)))
    case (Some(quality), NoScalar) =>
      Some(Sample(p.deviceId, MetricValue(p.metricName, p.unit, None, quality, p.source,
                                          p.semantics, p.observedUnixNano)))
    case _ => None
  }

  function ContainerToProto(c: Container): ProtoContainer {
    ProtoContainer(c.containerId, c.name, c.image, c.state, c.health, c.selectedForAlerting)
  }

  function ContainerFromProto(p: ProtoContainer): Container {
    Container(p.containerId, p.name, p.image, p.state, p.health, p.selectedForAlerting)
  }

  predicate Encodable(e: Envelope) {
    forall i :: 0 <= i < |e.samples| ==> SampleToProto(e.samples[i]).Some?
  }

  // The sizes and the checksum are left for the encoder to fill in.
  function ToProto(e: Envelope): ProtoEnvelope
    requires Encodable(e)
  {
    ProtoEnvelope(e.schemaVersion, e.codec, e.agentId, e.hostId, e.bootId, e.sequence,
                  UnixNano(e.observedAt), e.monotonicElapsedNano, e.sampleCount, e.metricValueCount,
                  0, 0, [],
                  seq(|e.samples|, i requires 0 <= i < |e.samples| => SampleToProto(e.samples[i]).value),
                  seq(|e.containers|, i requires 0 <= i < |e.containers| => ContainerToProto(e.containers[i])))
  }

  predicate Decodable(m: ProtoEnvelope) {
    forall i :: 0 <= i < |m.samples| ==> SampleFromProto(m.samples[i]).Some?
  }

  function FromProto(m: ProtoEnvelope): Envelope
    requires Decodable(m)
  {
    Envelope(m.schemaVersion, m.codec, m.agentId, m.hostId, m.bootId, m.sequence,
             m.observedUnixNano, m.monotonicElapsedNano, m.sampleCount, m.metricValueCount,
             m.uncompressedBytes, m.compressedBytes, HexEncode(m.checksumSha256),
             seq(|m.samples|, i requires 0 <= i < |m.samples| => SampleFromProto(m.samples[i]).value),
             seq(|m.containers|, i requires 0 <= i < |m.containers| => ContainerFromProto(m.containers[i])))
  }

  function HexChar(d: int): (c: char)
    requires 0 <= d < 16
    ensures HexDigit(c)
  {
    if d < 10 then (('0' as int) + d) as char else (('a' as int) + d - 10) as char
  }

  function HexEncode(bytes: seq<Byte>): (s: string)
    ensures |s| == 2 * |bytes| && forall c :: c in s ==> HexDigit(c)
  {
    if bytes == [] then [] else [HexChar(bytes[0] / 16), HexChar(bytes[0] % 16)] + HexEncode(bytes[1..])
  }

  method EnvelopeToProto(e: Envelope) returns (r: Option<ProtoEnvelope>)
    ensures r == if Encodable(e) then Some(ToProto(e)) else None
  {
    var samples: seq<ProtoSample> := [];
    for i := 0 to |e.samples|
      invariant |samples| == i
      invariant forall k :: 0 <= k < i ==> SampleToProto(e.samples[k]) == Some(samples[k])
    {
      var sample := SampleToProto(e.samples[i]);
      if sample.None? { return None; }
      samples := samples + [sample.value];
    }
    var containers: seq<ProtoContainer> := [];
    for i := 0 to |e.containers|
      invariant |containers| == i
      invariant forall k :: 0 <= k < i ==> containers[k] == ContainerToProto(e.containers[k])
    {
      containers := containers + [ContainerToProto(e.containers[i])];
    }
    var message := ProtoEnvelope(e.schemaVersion, e.codec, e.agentId, e.hostId, e.bootId, e.sequence,
                                 UnixNano(e.observedAt), e.monotonicElapsedNano, e.sampleCount,
                                 e.metricValueCount, 0, 0, [], samples, containers);
    assert message.samples == ToProto(e).samples && message.containers == ToProto(e).containers;
    r := Some(message);
  }

  // ---------- Decoding ----------

  datatype DecodeError =
    | CompressedOutOfBounds
    | Undecompressable
    | UncompressedOutOfBounds
    | Unparsable
    | SizeMismatch
    | BadChecksum
    | UnsupportedSample
    | InvalidEnvelope

  function Canonical(m: ProtoEnvelope): ProtoEnvelope {
    m.(checksumSha256 := [])
  }

  predicate ChecksumMatches(p: Primitives, m: ProtoEnvelope) {
    && |m.checksumSha256| == DIGEST_SIZE
    && p.marshal(Canonical(m)).Some?
    && m.checksumSha256 == p.sha256(p.marshal(Canonical(m)).value)
  }

  function FromMessage(m: ProtoEnvelope): Result<Envelope, DecodeError> {
    if !Decodable(m) then Err(UnsupportedSample)
    else if !ValidEnvelope(FromProto(m)) then Err(InvalidEnvelope)
    else Ok(FromProto(m))
  }

  function Decode(p: Primitives, compressed: seq<Byte>): Result<Envelope, DecodeError> {
    if !(0 < |compressed| <= MAX_COMPRESSED_BYTES) then Err(CompressedOutOfBounds) else
    match p.decompress(compressed)
    case None => Err(Undecompressable)
    case Some(raw) =>
      if !(0 < |raw| <= MAX_UNCOMPRESSED_BYTES) then Err(UncompressedOutOfBounds) else
      match p.unmarshal(raw)
      case None => Err(Unparsable)
      case Some(m) =>
        if m.compressedBytes != |compressed| || m.uncompressedBytes != |raw| then Err(SizeMismatch)
        else if !ChecksumMatches(p, m) then Err(BadChecksum)
        else FromMessage(m)
  }

  // The mutable message both directions work on.
  class Message {
    var fields: ProtoEnvelope

    constructor (fields: ProtoEnvelope)
      ensures this.fields == fields
    {
      this.fields := fields;
    }

    // Clears the checksum, digests what is left and restores the field.
    method VerifyWireChecksum(p: Primitives) returns (ok: bool)
      modifies this
      ensures ok <==> ChecksumMatches(p, old(fields))
      ensures fields == old(fields)
    {
      if |fields.checksumSha256| != DIGEST_SIZE { return false; }
      var expected := fields.checksumSha256;
      fields := fields.(checksumSha256 := []);
      var canonical := p.marshal(fields);
      fields := fields.(checksumSha256 := expected);
      if canonical.None? { return false; }
      ok := expected == p.sha256(canonical.value);
    }

    // One digest-and-print pass of the encoder.
    method Seal(p: Primitives) returns (raw: Option<seq<Byte>>)
      modifies this
      ensures raw == SealedBytes(p, old(fields))
      ensures raw.Some? ==> fields == Sealed(p, old(fields))
    {
      fields := fields.(checksumSha256 := []);
      var canonical := p.marshal(fields);
      if canonical.None? { return None; }
      fields := fields.(checksumSha256 := p.sha256(canonical.value));
      raw := p.marshal(fields);
    }

    // The encoder's bounded loop: each pass declares the sizes of the pass before it.
    method SettleSizes(p: Primitives) returns (ok: bool)
      modifies this
      ensures ok <==> Rounds(p, old(fields), ROUNDS).Some?
      ensures ok ==> fields == Rounds(p, old(fields), ROUNDS).value
    {
      for attempt := 0 to ROUNDS
        invariant Rounds(p, old(fields), attempt) == Some(fields)
      {
        ghost var before := fields;
        var raw := Seal(p);
        assert Rounds(p, old(fields), attempt + 1) == Round(p, before);
        if raw.None? {
          RoundsStayFailed(p, old(fields), attempt + 1, ROUNDS);
          return false;
        }
        fields := fields.(uncompressedBytes := |raw.value| % 0x1_0000_0000);
        var compressed := p.compress(raw.value);
        fields := fields.(compressedBytes := |compressed| % 0x1_0000_0000);
      }
      ok := true;
    }

    method Finish(p: Primitives) returns (r: Result<seq<Byte>, EncodeError>)
      modifies this
      ensures r == Finished(p, old(fields))
    {
      var raw := Seal(p);
      if raw.None? { return Err(Unmarshalable); }
      var compressed := p.compress(raw.value);
      if |raw.value| > MAX_UNCOMPRESSED_BYTES || |compressed| > MAX_COMPRESSED_BYTES {
        return Err(ExceedsBounds);
      }
      if fields.uncompressedBytes != |raw.value| || fields.compressedBytes != |compressed| {
        return Err(DidNotConverge);
      }
      r := Ok(compressed);
    }
  }

  method EnvelopeFromProto(m: ProtoEnvelope) returns (r: Result<Envelope, DecodeError>)
    ensures r == FromMessage(m)
  {
    var samples: seq<Sample> := [];
    for i := 0 to |m.samples|
      invariant |samples| == i
      invariant forall k :: 0 <= k < i ==> SampleFromProto(m.samples[k]) == Some(samples[k])
    {
      var sample := SampleFromProto(m.samples[i]);
      if sample.None? { return Err(UnsupportedSample); }
      samples := samples + [sample.value];
    }
    var containers: seq<Container> := [];
    for i := 0 to |m.containers|
      invariant |containers| == i
      invariant forall k :: 0 <= k < i ==> containers[k] == ContainerFromProto(m.containers[k])
    {
      containers := containers + [ContainerFromProto(m.containers[i])];
    }
    var envelope := Envelope(m.schemaVersion, m.codec, m.agentId, m.hostId, m.bootId, m.sequence,
                             m.observedUnixNano, m.monotonicElapsedNano, m.sampleCount,
                             m.metricValueCount, m.uncompressedBytes, m.compressedBytes,
                             HexEncode(m.checksumSha256), samples, containers);
    assert envelope == FromProto(m);
    var error := Validate(envelope);
    r := if error.Some? then Err(InvalidEnvelope) else Ok(envelope);
  }

  method DecodeCompressedEnvelope(p: Primitives, compressed: seq<Byte>)
    returns (r: Result<Envelope, DecodeError>)
    ensures r == Decode(p, compressed)
  {
    if |compressed| == 0 || |compressed| > MAX_COMPRESSED_BYTES { return Err(CompressedOutOfBounds); }
    var decompressed := p.decompress(compressed);
    if decompressed.None? { return Err(Undecompressable); }
    var raw := decompressed.value;
    if |raw| == 0 || |raw| > MAX_UNCOMPRESSED_BYTES { return Err(UncompressedOutOfBounds); }
    var parsed := p.unmarshal(raw);
    if parsed.None? { return Err(Unparsable); }
    var message := new Message(parsed.value);
    if message.fields.compressedBytes != |compressed| || message.fields.uncompressedBytes != |raw| {
      return Err(SizeMismatch);
    }
    var verified := message.VerifyWireChecksum(p);
    if !verified { return Err(BadChecksum); }
    r := EnvelopeFromProto(message.fields);
  }

  // ---------- Encoding ----------

  datatype EncodeError = Invalid | Unencodable | Unmarshalable | ExceedsBounds | DidNotConverge

  function Sealed(p: Primitives, m: ProtoEnvelope): ProtoEnvelope
    requires p.marshal(Canonical(m)).Some?
  {
    m.(checksumSha256 := p.sha256(p.marshal(Canonical(m)).value))
  }

  function SealedBytes(p: Primitives, m: ProtoEnvelope): Option<seq<Byte>> {
    if p.marshal(Canonical(m)).None? then None else p.marshal(Sealed(p, m))
  }

  // A round declares the sizes the message has just had.
  function Round(p: Primitives, m: ProtoEnvelope): Option<ProtoEnvelope> {
    match SealedBytes(p, m)
    case None => None
    case Some(raw) =>
      Some(Sealed(p, m).(uncompressedBytes := |raw| % 0x1_0000_0000,
                         compressedBytes := |p.compress(raw)| % 0x1_0000_0000))
  }

  function Rounds(p: Primitives, m: ProtoEnvelope, n: nat): Option<ProtoEnvelope> {
    if n == 0 then Some(m) else
    match Rounds(p, m, n - 1)
    case None => None
    case Some(previous) => Round(p, previous)
  }

  // The message goes out only when it declares the sizes it really has.
  function Finished(p: Primitives, m: ProtoEnvelope): Result<seq<Byte>, EncodeError> {
    match SealedBytes(p, m)
    case None => Err(Unmarshalable)
    case Some(raw) =>
      var compressed := p.compress(raw);
      if |raw| > MAX_UNCOMPRESSED_BYTES || |compressed| > MAX_COMPRESSED_BYTES then Err(ExceedsBounds)
      else if m.uncompressedBytes != |raw| || m.compressedBytes != |compressed| then Err(DidNotConverge)
      else Ok(compressed)
  }

  function Encode(p: Primitives, e: Envelope): Result<seq<Byte>, EncodeError> {
    if !ValidEnvelope(e) then Err(Invalid)
    else if !Encodable(e) then Err(Unencodable) else
    match Rounds(p, ToProto(e), ROUNDS)
    case None => Err(Unmarshalable)
    case Some(m) => Finished(p, m)
  }

  method EncodeCompressedEnvelope(p: Primitives, e: Envelope) returns (r: Result<seq<Byte>, EncodeError>)
    ensures r == Encode(p, e)
  {
    var error := Validate(e);
    if error.Some? { return Err(Invalid); }
    var converted := EnvelopeToProto(e);
    if converted.None? { return Err(Unencodable); }
    var message := new Message(converted.value);
    var settled := message.SettleSizes(p);
    if !settled { return Err(Unmarshalable); }
    r := message.Finish(p);
  }

  lemma {:induction false} RoundsStayFailed(p: Primitives, m: ProtoEnvelope, n: nat, total: nat)
    requires n <= total && Rounds(p, m, n).None?
    ensures Rounds(p, m, total).None?
  {
    if n < total { RoundsStayFailed(p, m, n, total - 1); }
  }

  // ---------- Convergence ----------

  predicate SameSizes(m: ProtoEnvelope, n: ProtoEnvelope) {
    m.uncompressedBytes == n.uncompressedBytes && m.compressedBytes == n.compressedBytes
  }

  // Encoding succeeds exactly when one more round would change neither size and the message
  // fits the transport.
  lemma EncodesExactlyWhenSettled(p: Primitives, e: Envelope)
    requires ValidEnvelope(e) && Encodable(e)
    ensures Encode(p, e).Ok? <==>
            && Rounds(p, ToProto(e), 7).Some?
            && SameSizes(Rounds(p, ToProto(e), 6).value, Rounds(p, ToProto(e), 7).value)
            && |SealedBytes(p, Rounds(p, ToProto(e), 6).value).value| <= 8_388_608
            && |p.compress(SealedBytes(p, Rounds(p, ToProto(e), 6).value).value)| <= 1_048_576
  {
    assert Rounds(p, ToProto(e), 7).Some? ==> Rounds(p, ToProto(e), 6).Some?;
  }

  // A round depends on the sizes and the content alone, so sizes that repeat once stay put.
  lemma {:induction false} SettledStaysSettled(p: Primitives, m: ProtoEnvelope, n: nat, k: nat)
    requires n < k && Rounds(p, m, n + 1).Some?
    requires SameSizes(Rounds(p, m, n).value, Rounds(p, m, n + 1).value)
    ensures Rounds(p, m, k) == Rounds(p, m, n + 1)
  {
    RoundsKeepTheMessage(p, m, n);
    RoundsKeepTheMessage(p, m, n + 1);
    assert Canonical(Rounds(p, m, n).value) == Canonical(Rounds(p, m, n + 1).value);
    if k > n + 1 { SettledStaysSettled(p, m, n, k - 1); }
  }

  // ---------- Round trip ----------

  predicate SameMessage(m: ProtoEnvelope, n: ProtoEnvelope) {
    n == m.(uncompressedBytes := n.uncompressedBytes, compressedBytes := n.compressedBytes,
            checksumSha256 := n.checksumSha256)
  }

  // The decoded envelope is the one that was encoded, up to the three transport fields.
  predicate SameSubmission(e: Envelope, d: Envelope) {
    d == e.(uncompressedBytes := d.uncompressedBytes, compressedBytes := d.compressedBytes,
            checksumSha256 := d.checksumSha256)
  }

  lemma {:induction false} RoundsKeepTheMessage(p: Primitives, m: ProtoEnvelope, n: nat)
    requires Rounds(p, m, n).Some?
    ensures SameMessage(m, Rounds(p, m, n).value)
  {
    if n > 0 { RoundsKeepTheMessage(p, m, n - 1); }
  }

  // What the bytes of a successful encoding hold.
  lemma EncodedMessage(p: Primitives, e: Envelope) returns (m: ProtoEnvelope, raw: seq<Byte>)
    requires p.Lawful() && Encode(p, e).Ok?
    ensures Encodable(e) && SameMessage(ToProto(e), m)
    ensures ChecksumMatches(p, m)
    ensures p.unmarshal(raw) == Some(m) && p.decompress(Encode(p, e).value) == Some(raw)
    ensures m.uncompressedBytes == |raw| && 0 < |raw| <= MAX_UNCOMPRESSED_BYTES
    ensures m.compressedBytes == |Encode(p, e).value| && 0 < |Encode(p, e).value| <= MAX_COMPRESSED_BYTES
  {
    var settled := Rounds(p, ToProto(e), ROUNDS).value;
    RoundsKeepTheMessage(p, ToProto(e), ROUNDS);
    m, raw := Sealed(p, settled), SealedBytes(p, settled).value;
    assert Canonical(m) == Canonical(settled);
    assert p.marshal(m) == Some(raw);
  }

  lemma SampleRoundTrip(s: Sample)
    requires SampleToProto(s).Some?
    ensures SampleFromProto(SampleToProto(s).value)
         == Some(s.(metric := s.metric.(observedAt := UnixNano(s.metric.observedAt))))
  {
  }

  lemma ConversionRoundTrip(e: Envelope, m: ProtoEnvelope)
    requires Encodable(e) && SameMessage(ToProto(e), m)
    ensures Decodable(m)
    ensures SameSubmission(e, FromProto(m)) <==> RepresentableTimes(e)
  {
    forall i | 0 <= i < |m.samples|
      ensures SampleFromProto(m.samples[i])
           == Some(e.samples[i].(metric := e.samples[i].metric.(observedAt := UnixNano(e.samples[i].metric.observedAt))))
    {
      SampleRoundTrip(e.samples[i]);
    }
    var d := FromProto(m);
    assert d.containers == e.containers;
    if RepresentableTimes(e) {
      assert d.samples == e.samples;
    }
    if SameSubmission(e, d) {
      forall i | 0 <= i < |e.samples| ensures Representable(e.samples[i].metric.observedAt) {
        assert d.samples[i] == e.samples[i];
      }
    }
  }

  // Decoding returns the encoded envelope exactly when its times fit 64-bit nanoseconds, and
  // the size fields then state the real byte lengths.
  lemma RoundTrip(p: Primitives, e: Envelope)
    requires p.Lawful() && Encode(p, e).Ok?
    ensures Decode(p, Encode(p, e).value).Ok? && SameSubmission(e, Decode(p, Encode(p, e).value).value)
       <==> RepresentableTimes(e)
    ensures RepresentableTimes(e) ==>
              var bytes := Encode(p, e).value;
              var d := Decode(p, bytes).value;
              && d.compressedBytes == |bytes|
              && p.decompress(bytes).Some? && d.uncompressedBytes == |p.decompress(bytes).value|
  {
    var m, raw := EncodedMessage(p, e);
    ConversionRoundTrip(e, m);
    assert Decode(p, Encode(p, e).value) == FromMessage(m);
    if RepresentableTimes(e) {
      var d := FromProto(m);
      assert ValidEnvelope(d) by {
        assert d.samples == e.samples && d.containers == e.containers;
      }
    }
  }

  // Encoding does not object to dates outside that range: every date, the envelope's and each
  // sample's, arrives reduced to its low 64 bits, and so unchanged exactly when it fits them.
  lemma UnrepresentableTimeIsShifted(p: Primitives, e: Envelope)
    requires p.Lawful() && Encode(p, e).Ok? && Decode(p, Encode(p, e).value).Ok?
    ensures var d := Decode(p, Encode(p, e).value).value;
            && d.observedAt == UnixNano(e.observedAt)
            && |d.samples| == |e.samples|
            && forall i :: 0 <= i < |e.samples| ==> d.samples[i].metric.observedAt == UnixNano(e.samples[i].metric.observedAt)
  {
    var m, raw := EncodedMessage(p, e);
    assert Decode(p, Encode(p, e).value) == FromMessage(m);
    forall i | 0 <= i < |e.samples|
      ensures SampleFromProto(m.samples[i]).value.metric.observedAt == UnixNano(e.samples[i].metric.observedAt)
    {
      SampleRoundTrip(e.samples[i]);
    }
  }

  lemma UnchangedExactlyWhenRepresentable(t: Time)
    ensures UnixNano(t) == t <==> Representable(t)
    ensures (UnixNano(t) - t) % 0x1_0000_0000_0000_0000 == 0
  {
  }

  // ---------- The wire format in plain terms ----------

  // The numbers of the enumeration telemetry.v1.MetricQuality.
  const QUALITY_NUMBERS: map<Quality, int> :=
    map[Fresh := 1, Stale := 2, Unavailable := 3, Unsupported := 4, Estimated := 5, Experimental := 6]

  predicate CarriesSample(w: ProtoSample, s: Sample) {
    && w.deviceId == s.deviceId && w.metricName == s.metric.name && w.unit == s.metric.unit
    && s.metric.quality in QUALITY_NUMBERS && w.quality == QUALITY_NUMBERS[s.metric.quality]
    && w.source == s.metric.source && w.semantics == s.metric.semantics
    && (w.observedUnixNano - s.metric.observedAt) % 0x1_0000_0000_0000_0000 == 0
    && (match s.metric.value case None => w.scalar.NoScalar? case Some(x) => w.scalar == NumberValue(x))
  }

  predicate CarriesContainer(w: ProtoContainer, c: Container) {
    && w.containerId == c.containerId && w.name == c.name && w.image == c.image && w.state == c.state
    && w.health == c.health && (w.selectedForAlerting <==> c.selectedForAlerting)
  }

  predicate CarriesHeader(m: ProtoEnvelope, e: Envelope) {
    && m.schemaVersion == e.schemaVersion && m.codec == e.codec
    && m.agentId == e.agentId && m.hostId == e.hostId && m.bootId == e.bootId && m.sequence == e.sequence
    && (m.observedUnixNano - e.observedAt) % 0x1_0000_0000_0000_0000 == 0
    && m.monotonicElapsedNano == e.monotonicElapsedNano
    && m.sampleCount == e.sampleCount && m.metricValueCount == e.metricValueCount
  }

  lemma SampleCarries(s: Sample)
    requires SampleToProto(s).Some?
    ensures CarriesSample(SampleToProto(s).value, s)
  {
    UnchangedExactlyWhenRepresentable(s.metric.observedAt);
  }

  lemma MessageCarries(e: Envelope, m: ProtoEnvelope)
    requires Encodable(e) && SameMessage(ToProto(e), m)
    ensures CarriesHeader(m, e) && |m.samples| == |e.samples| && |m.containers| == |e.containers|
    ensures forall i :: 0 <= i < |e.samples| ==> CarriesSample(m.samples[i], e.samples[i])
    ensures forall i :: 0 <= i < |e.containers| ==> CarriesContainer(m.containers[i], e.containers[i])
  {
    UnchangedExactlyWhenRepresentable(e.observedAt);
    forall i | 0 <= i < |e.samples| ensures CarriesSample(m.samples[i], e.samples[i]) { SampleCarries(e.samples[i]); }
  }

  // Whatever a successful encoding sends parses to a message that carries the envelope field by
  // field, with its own sizes and with the digest of itself without checksum.
  lemma EncodedCarries(p: Primitives, e: Envelope) returns (m: ProtoEnvelope, raw: seq<Byte>)
    requires p.Lawful() && Encode(p, e).Ok?
    ensures p.decompress(Encode(p, e).value) == Some(raw) && p.unmarshal(raw) == Some(m)
    ensures CarriesHeader(m, e)
    ensures |m.samples| == |e.samples| && forall i :: 0 <= i < |e.samples| ==> CarriesSample(m.samples[i], e.samples[i])
    ensures |m.containers| == |e.containers| && forall i :: 0 <= i < |e.containers| ==> CarriesContainer(m.containers[i], e.containers[i])
    ensures m.uncompressedBytes == |raw| <= 8_388_608 && m.compressedBytes == |Encode(p, e).value| <= 1_048_576
    ensures var canonical := p.marshal(m.(checksumSha256 := []));
            canonical.Some? && m.checksumSha256 == p.sha256(canonical.value)
  {
    m, raw := EncodedMessage(p, e);
    MessageCarries(e, m);
  }

  function DigitValue(c: char): int {
    if '0' <= c <= '9' then c as int - '0' as int
    else if 'a' <= c <= 'f' then c as int - 'a' as int + 10
    else -1
  }

  // Two lower-case digits for each byte, the high half first.
  lemma {:induction false} HexReadsBack(bytes: seq<Byte>, i: nat)
    requires i < |bytes|
    ensures 0 <= DigitValue(HexEncode(bytes)[2 * i]) < 16
    ensures bytes[i] == 16 * DigitValue(HexEncode(bytes)[2 * i]) + DigitValue(HexEncode(bytes)[2 * i + 1])
    ensures 0 <= DigitValue(HexEncode(bytes)[2 * i + 1]) < 16
  {
    if i > 0 { HexReadsBack(bytes[1..], i - 1); }
  }

  // A payload decodes exactly when it is within the bounds, declares the sizes it has, carries
  // the digest of itself without checksum, and holds supported samples and a valid envelope.
  lemma DecodesExactly(p: Primitives, bytes: seq<Byte>)
    ensures Decode(p, bytes).Ok? <==>
            && 1 <= |bytes| <= 1_048_576
            && p.decompress(bytes).Some? && 1 <= |p.decompress(bytes).value| <= 8_388_608
            && p.unmarshal(p.decompress(bytes).value).Some?
            && var m := p.unmarshal(p.decompress(bytes).value).value;
               var canonical := p.marshal(m.(checksumSha256 := []));
               && m.compressedBytes == |bytes| && m.uncompressedBytes == |p.decompress(bytes).value|
               && |m.checksumSha256| == 32 && canonical.Some? && m.checksumSha256 == p.sha256(canonical.value)
               && (forall i :: 0 <= i < |m.samples| ==>
                     1 <= m.samples[i].quality <= 6 && (m.samples[i].scalar.NoScalar? || m.samples[i].scalar.NumberValue?))
               && Decodable(m) && ValidEnvelope(FromProto(m))
  {
    if p.decompress(bytes).Some? && p.unmarshal(p.decompress(bytes).value).Some? {
      SupportedSamples(p.unmarshal(p.decompress(bytes).value).value);
    }
  }

  lemma SupportedSamples(m: ProtoEnvelope)
    ensures Decodable(m) <==>
            forall i :: 0 <= i < |m.samples| ==>
              1 <= m.samples[i].quality <= 6 && (m.samples[i].scalar.NoScalar? || m.samples[i].scalar.NumberValue?)
  {
  }

  // A payload is accepted only as a whole: sizes, checksum and content all come from it.
  lemma DecodedIsConsistent(p: Primitives, bytes: seq<Byte>)
    requires Decode(p, bytes).Ok?
    ensures var d := Decode(p, bytes).value;
            && ValidEnvelope(d) && RepresentableTimes(d)
            && d.compressedBytes == |bytes|
            && p.decompress(bytes).Some?
            && d.uncompressedBytes == |p.decompress(bytes).value|
            && var m := p.unmarshal(p.decompress(bytes).value);
               && m.Some? && p.marshal(Canonical(m.value)).Some?
               && d.checksumSha256 == HexEncode(p.sha256(p.marshal(Canonical(m.value)).value))
  {
    var m := p.unmarshal(p.decompress(bytes).value).value;
    assert Decode(p, bytes) == FromMessage(m);
  }

  // ---------- The laws can be met ----------

  function ZeroDigest(): (digest: seq<Byte>)
    ensures |digest| == DIGEST_SIZE
  {
    seq(DIGEST_SIZE, _ => 0)
  }

  // The four messages that encoding meets when printing takes one byte and compression adds one.
  function Stage(base: ProtoEnvelope, settled: bool, sealed: bool): ProtoEnvelope {
    var sized := if settled then base.(uncompressedBytes := 1, compressedBytes := 2)
                 else base.(uncompressedBytes := 0, compressedBytes := 0);
    if sealed then sized.(checksumSha256 := ZeroDigest()) else sized.(checksumSha256 := [])
  }

  function ToyMarshal(base: ProtoEnvelope, m: ProtoEnvelope): Option<seq<Byte>> {
    if m == Stage(base, false, false) then Some([1])
    else if m == Stage(base, false, true) then Some([2])
    else if m == Stage(base, true, false) then Some([3])
    else if m == Stage(base, true, true) then Some([4])
    else None
  }

  function ToyUnmarshal(base: ProtoEnvelope, bytes: seq<Byte>): Option<ProtoEnvelope> {
    if bytes == [1] then Some(Stage(base, false, false))
    else if bytes == [2] then Some(Stage(base, false, true))
    else if bytes == [3] then Some(Stage(base, true, false))
    else if bytes == [4] then Some(Stage(base, true, true))
    else None
  }

  function ToyDecompress(bytes: seq<Byte>): Option<seq<Byte>> {
    if bytes == [] then None else Some(bytes[1..])
  }

  function Toy(base: ProtoEnvelope): Primitives {
    Primitives(m => ToyMarshal(base, m), bytes => ToyUnmarshal(base, bytes),
               bytes => [0] + bytes, ToyDecompress, bytes => ZeroDigest())
  }

  lemma ToyUndoesMarshal(base: ProtoEnvelope, m: ProtoEnvelope)
    ensures var bytes := ToyMarshal(base, m);
            bytes.Some? ==> ToyUnmarshal(base, bytes.value) == Some(m) && bytes.value != []
  {
  }

  lemma ToyUndoesCompress(bytes: seq<Byte>)
    ensures ToyDecompress([0] + bytes) == Some(bytes)
  {
    assert ([0] + bytes)[1..] == bytes;
  }

  lemma ToyIsLawful(base: ProtoEnvelope)
    ensures Toy(base).Lawful()
  {
    var p := Toy(base);
    forall m ensures p.marshal(m).Some? ==> p.unmarshal(p.marshal(m).value) == Some(m) && p.marshal(m).value != [] {
      ToyUndoesMarshal(base, m);
    }
    forall b: seq<Byte> ensures p.decompress(p.compress(b)) == Some(b) { ToyUndoesCompress(b); }
  }

  lemma {:induction false} ToySettles(base: ProtoEnvelope, n: nat)
    requires n >= 1 && base == Stage(base, false, false)
    ensures Rounds(Toy(base), base, n) == Some(Stage(base, true, true))
  {
    var p := Toy(base);
    var before := if n == 1 then base else Stage(base, true, true);
    if n > 1 { ToySettles(base, n - 1); }
    assert Rounds(p, base, 0) == Some(base);
    assert Canonical(before) == Stage(base, n > 1, false);
    assert Sealed(p, before) == Stage(base, n > 1, true);
    assert |SealedBytes(p, before).value| == 1;
  }

  lemma ToyFinishes(base: ProtoEnvelope)
    ensures Finished(Toy(base), Stage(base, true, true)) == Ok([0, 4])
  {
    var settled := Stage(base, true, true);
    assert Canonical(settled) == Stage(base, true, false) && Sealed(Toy(base), settled) == settled;
    assert [0] + [4] == [0, 4];
  }

  // Every envelope that passes validation encodes under some lawful primitives, so the laws and
  // success do not exclude each other.
  lemma LawsAreConsistent(e: Envelope) returns (p: Primitives)
    requires ValidEnvelope(e) && Encodable(e)
    ensures p.Lawful() && Encode(p, e).Ok?
  {
    var base := ToProto(e);
    p := Toy(base);
    ToyIsLawful(base);
    assert base == Stage(base, false, false);
    ToySettles(base, ROUNDS);
    ToyFinishes(base);
  }
}
