// The decoded telemetry envelope and the checks every submission passes before it is stored.
module Envelopes {
  import opened Wrappers
  import opened Metric

  type U32 = x: int | 0 <= x < 0x1_0000_0000
  type U64 = x: int | 0 <= x < 0x1_0000_0000_0000_0000

  const CURRENT_SCHEMA_VERSION: U32 := 1
  const CODEC_PROTO_ZSTD := "protobuf+zstd"
  const MAX_COMPRESSED_BYTES: U32 := 0x10_0000
  const MAX_UNCOMPRESSED_BYTES: U32 := 0x80_0000
  const MAX_METRIC_VALUES: U32 := 10_000
  const MAX_CONTAINER_INVENTORY: nat := 2_000
  const MAX_FUTURE_OBSERVATION_SKEW: int := MINUTE

  datatype Sample = Sample(deviceId: string, metric: MetricValue)

  datatype Container = Container(
    containerId: string,
    name: string,
    image: string,
    state: string,
    health: string,
    selectedForAlerting: bool)

  datatype Envelope = Envelope(
    schemaVersion: U32,
    codec: string,
    agentId: string,
    hostId: string,
    bootId: string,
    sequence: U64,
    observedAt: Time,
    monotonicElapsedNano: U64,
    sampleCount: U32,
    metricValueCount: U32,
    uncompressedBytes: U32,
    compressedBytes: U32,
    checksumSha256: string,
    samples: seq<Sample>,
    containers: seq<Container>)

  datatype EnvelopeError =
    | UnsupportedSchema
    | UnsupportedCodec
    | MissingIdentity
    | MissingSequence
    | MissingObservedTime
    | CompressedSizeOutOfRange
    | UncompressedSizeOutOfRange
    | MetricCountOutOfRange
    | CountMismatch
    | MalformedChecksum
    | TooManyContainers
    | IncompleteContainer(index: nat)
    | DuplicateContainer(index: nat)
    | MissingDevice(index: nat)
    | InvalidMetric(index: nat)
    | DuplicateSample(index: nat)

  predicate HexDigit(c: char) {
    '0' <= c <= '9' || 'a' <= c <= 'f' || 'A' <= c <= 'F'
  }

  predicate ValidChecksum(s: string) {
    |s| == 64 && forall c :: c in s ==> HexDigit(c)
  }

  predicate CompleteContainer(c: Container) {
    !Blank(c.containerId) && !Blank(c.name) && !Blank(c.image) && !Blank(c.state)
  }

  // The source joins device, metric name and formatted UTC time with colons. The formatted
  // time always holds exactly two colons, so two joined strings are equal exactly when the
  // times are equal and the joined device and name are.
  function SampleKey(s: Sample): (string, Time) {
    (s.deviceId + ":" + s.metric.name, s.metric.observedAt)
  }

  predicate ValidHeader(e: Envelope) {
    && e.schemaVersion == CURRENT_SCHEMA_VERSION
    && e.codec == CODEC_PROTO_ZSTD
    && !Blank(e.agentId) && !Blank(e.hostId) && !Blank(e.bootId)
    && e.sequence != 0
    && e.observedAt != ZERO_TIME
    && 0 < e.compressedBytes <= MAX_COMPRESSED_BYTES
    && 0 < e.uncompressedBytes <= MAX_UNCOMPRESSED_BYTES
    && 0 < e.metricValueCount <= MAX_METRIC_VALUES
    && e.sampleCount == |e.samples| == e.metricValueCount
    && ValidChecksum(e.checksumSha256)
    && |e.containers| <= MAX_CONTAINER_INVENTORY
  }

  predicate ValidContainers(cs: seq<Container>) {
    && (forall i :: 0 <= i < |cs| ==> CompleteContainer(cs[i]))
    && (forall i, j :: 0 <= i < j < |cs| ==> cs[i].containerId != cs[j].containerId)
  }

  predicate EachValid(ss: seq<Sample>) {
    forall i :: 0 <= i < |ss| ==> !Blank(ss[i].deviceId) && ValidMetric(ss[i].metric)
  }

  predicate ValidSamples(ss: seq<Sample>) {
    && EachValid(ss)
    && (forall i, j :: 0 <= i < j < |ss| ==> SampleKey(ss[i]) != SampleKey(ss[j]))
  }

  predicate ValidEnvelope(e: Envelope) {
    ValidHeader(e) && ValidContainers(e.containers) && ValidSamples(e.samples)
  }

  // What a returned error tells the caller about the envelope.
  predicate Explains(error: EnvelopeError, e: Envelope) {
    match error
    case UnsupportedSchema => e.schemaVersion != CURRENT_SCHEMA_VERSION
    case UnsupportedCodec => e.codec != CODEC_PROTO_ZSTD
    case MissingIdentity => Blank(e.agentId) || Blank(e.hostId) || Blank(e.bootId)
    case MissingSequence => e.sequence == 0
    case MissingObservedTime => e.observedAt == ZERO_TIME
    case CompressedSizeOutOfRange => !(0 < e.compressedBytes <= MAX_COMPRESSED_BYTES)
    case UncompressedSizeOutOfRange => !(0 < e.uncompressedBytes <= MAX_UNCOMPRESSED_BYTES)
    case MetricCountOutOfRange => !(0 < e.metricValueCount <= MAX_METRIC_VALUES)
    case CountMismatch => !(e.sampleCount == |e.samples| == e.metricValueCount)
    case MalformedChecksum => !ValidChecksum(e.checksumSha256)
    case TooManyContainers => |e.containers| > MAX_CONTAINER_INVENTORY
    case IncompleteContainer(i) => i < |e.containers| && !CompleteContainer(e.containers[i])
    case DuplicateContainer(i) =>
      && i < |e.containers|
      && exists j :: 0 <= j < i && e.containers[j].containerId == e.containers[i].containerId
    case MissingDevice(i) => i < |e.samples| && Blank(e.samples[i].deviceId)
    case InvalidMetric(i) => i < |e.samples| && !ValidMetric(e.samples[i].metric)
    case DuplicateSample(i) =>
      && i < |e.samples|
      && exists j :: 0 <= j < i && SampleKey(e.samples[j]) == SampleKey(e.samples[i])
  }

  method CheckHeader(e: Envelope) returns (error: Option<EnvelopeError>)
    ensures error.None? <==> ValidHeader(e)
    ensures error.Some? ==> Explains(error.value, e)
  {
    if e.schemaVersion != CURRENT_SCHEMA_VERSION { return Some(UnsupportedSchema); }
    if e.codec != CODEC_PROTO_ZSTD { return Some(UnsupportedCodec); }
    if Blank(e.agentId) || Blank(e.hostId) || Blank(e.bootId) { return Some(MissingIdentity); }
    if e.sequence == 0 { return Some(MissingSequence); }
    if e.observedAt == ZERO_TIME { return Some(MissingObservedTime); }
    if e.compressedBytes == 0 || e.compressedBytes > MAX_COMPRESSED_BYTES {
      return Some(CompressedSizeOutOfRange);
    }
    if e.uncompressedBytes == 0 || e.uncompressedBytes > MAX_UNCOMPRESSED_BYTES {
      return Some(UncompressedSizeOutOfRange);
    }
    if e.metricValueCount == 0 || e.metricValueCount > MAX_METRIC_VALUES {
      return Some(MetricCountOutOfRange);
    }
    if e.sampleCount != |e.samples| || e.metricValueCount != |e.samples| {
      return Some(CountMismatch);
    }
    if !ValidChecksum(e.checksumSha256) { return Some(MalformedChecksum); }
    if |e.containers| > MAX_CONTAINER_INVENTORY { return Some(TooManyContainers); }
    return None;
  }

  method CheckContainers(e: Envelope) returns (error: Option<EnvelopeError>)
    ensures error.None? <==> ValidContainers(e.containers)
    ensures error.Some? ==> Explains(error.value, e)
  {
    var seen: set<string> := {};
    for i := 0 to |e.containers|
      invariant seen == set j | 0 <= j < i :: e.containers[j].containerId
      invariant ValidContainers(e.containers[..i])
    {
      var container := e.containers[i];
      if !CompleteContainer(container) { return Some(IncompleteContainer(i)); }
      if container.containerId in seen { return Some(DuplicateContainer(i)); }
      seen := seen + {container.containerId};
    }
    assert e.containers[..|e.containers|] == e.containers;
    error := None;
  }

  method CheckSamples(e: Envelope) returns (error: Option<EnvelopeError>)
    ensures error.None? <==> ValidSamples(e.samples)
    ensures error.Some? ==> Explains(error.value, e)
  {
    var seen: set<(string, Time)> := {};
    for i := 0 to |e.samples|
      invariant seen == set j | 0 <= j < i :: SampleKey(e.samples[j])
      invariant ValidSamples(e.samples[..i])
    {
      var sample := e.samples[i];
      if Blank(sample.deviceId) { return Some(MissingDevice(i)); }
      if !ValidMetric(sample.metric) { return Some(InvalidMetric(i)); }
      if SampleKey(sample) in seen { return Some(DuplicateSample(i)); }
      seen := seen + {SampleKey(sample)};
    }
    assert e.samples[..|e.samples|] == e.samples;
    error := None;
  }

  // The loops fill a set of keys seen so far; the specification is pairwise distinctness.
  method Validate(e: Envelope) returns (error: Option<EnvelopeError>)
    ensures error.None? <==> ValidEnvelope(e)
    ensures error.Some? ==> Explains(error.value, e)
  {
    error := CheckHeader(e);
    if error.Some? { return; }
    error := CheckContainers(e);
    if error.Some? { return; }
    error := CheckSamples(e);
  }

  // ---------- The limits in plain terms ----------

  predicate Written(s: string) {
    exists c :: c in s && !IsSpace(c)
  }

  lemma NotBlankIsWritten(s: string)
    ensures !Blank(s) <==> Written(s)
  {
  }

  // How far each field of a valid envelope can be changed by itself.
  lemma HeaderLimits(e: Envelope, n: U32, text: string, sequence: U64, at: Time)
    requires ValidEnvelope(e)
    ensures ValidEnvelope(e.(schemaVersion := n)) <==> n == 1
    ensures ValidEnvelope(e.(codec := text)) <==> text == "protobuf+zstd"
    ensures ValidEnvelope(e.(agentId := text)) <==> Written(text)
    ensures ValidEnvelope(e.(hostId := text)) <==> Written(text)
    ensures ValidEnvelope(e.(bootId := text)) <==> Written(text)
    ensures ValidEnvelope(e.(sequence := sequence)) <==> sequence >= 1
    ensures ValidEnvelope(e.(observedAt := at)) <==> at != -62_135_596_800_000_000_000
    ensures ValidEnvelope(e.(compressedBytes := n)) <==> 1 <= n <= 1_048_576
    ensures ValidEnvelope(e.(uncompressedBytes := n)) <==> 1 <= n <= 8_388_608
    ensures ValidEnvelope(e.(sampleCount := n)) <==> n == |e.samples|
    ensures ValidEnvelope(e.(metricValueCount := n)) <==> n == |e.samples|
    ensures ValidEnvelope(e.(checksumSha256 := text)) <==> |text| == 64 && forall c :: c in text ==> c in "0123456789abcdefABCDEF"
  {
    NotBlankIsWritten(text);
    HexDigits(text);
  }

  lemma HexDigits(text: string)
    ensures (forall c :: c in text ==> HexDigit(c)) <==> forall c :: c in text ==> c in "0123456789abcdefABCDEF"
  {
    forall c: char ensures HexDigit(c) <==> c in "0123456789abcdefABCDEF" { DigitIn(c); }
  }

  lemma DigitIn(c: char)
    ensures HexDigit(c) <==> c in "0123456789abcdefABCDEF"
  {
    var digits := "0123456789abcdefABCDEF";
    if '0' <= c <= '9' { assert digits[c as int - '0' as int] == c; }
    if 'a' <= c <= 'f' { assert digits[c as int - 'a' as int + 10] == c; }
    if 'A' <= c <= 'F' { assert digits[c as int - 'A' as int + 16] == c; }
  }

  // What a single reading and a single container need; the health of a container may be blank.
  lemma ReadingLimits(e: Envelope, s: Sample)
    requires ValidEnvelope(e)
    ensures ValidEnvelope(e.(samples := [s], sampleCount := 1, metricValueCount := 1)) <==>
            && Written(s.deviceId) && Written(s.metric.name) && Written(s.metric.source) && Written(s.metric.semantics)
            && s.metric.observedAt != -62_135_596_800_000_000_000
            && (if s.metric.value.None? then s.metric.quality in {Unavailable, Unsupported}
                else s.metric.quality in {Fresh, Stale, Estimated, Experimental})
  {
    NotBlankIsWritten(s.deviceId);
    NotBlankIsWritten(s.metric.name);
    NotBlankIsWritten(s.metric.source);
    NotBlankIsWritten(s.metric.semantics);
    assert ValidSamples([s]) <==> EachValid([s]);
    assert [s][0] == s;
  }

  lemma ContainerLimits(e: Envelope, c: Container)
    requires ValidEnvelope(e)
    ensures ValidEnvelope(e.(containers := [c])) <==>
            Written(c.containerId) && Written(c.name) && Written(c.image) && Written(c.state)
  {
    NotBlankIsWritten(c.containerId);
    NotBlankIsWritten(c.name);
    NotBlankIsWritten(c.image);
    NotBlankIsWritten(c.state);
    assert ValidContainers([c]) <==> CompleteContainer([c][0]);
  }

  // At least one reading and at most 10,000, at most 2,000 containers.
  lemma CountLimits(e: Envelope, samples: seq<Sample>, containers: seq<Container>)
    requires ValidEnvelope(e) && |samples| < 0x1_0000_0000 && ValidSamples(samples) && ValidContainers(containers)
    ensures ValidEnvelope(e.(samples := samples, sampleCount := |samples|, metricValueCount := |samples|)) <==> 1 <= |samples| <= 10_000
    ensures ValidEnvelope(e.(containers := containers)) <==> |containers| <= 2_000
  {
  }

  // Validate's joined key is what keeps two samples of one series apart inside an envelope.
  lemma ValidSamplesAreDistinct(ss: seq<Sample>, i: nat, j: nat)
    requires ValidSamples(ss) && i < j < |ss|
    requires ss[i].deviceId == ss[j].deviceId && ss[i].metric.name == ss[j].metric.name
    ensures ss[i].metric.observedAt != ss[j].metric.observedAt
  {
    assert SampleKey(ss[i]) != SampleKey(ss[j]);
  }

  // ---------- When the joined key tells readings apart ----------

  predicate SameSeries(a: Sample, b: Sample) {
    a.deviceId == b.deviceId && a.metric.name == b.metric.name
  }

  // A piece moves across the colon: from the front of the first right part to the end of the
  // second left one.
  predicate ShiftedText(left: string, right: string, left': string, right': string, piece: string) {
    left' == left + ":" + piece && right == piece + ":" + right'
  }

  // Two texts joined by a colon agree exactly when their parts do, or differ by such a piece.
  lemma JoinedTextsAgreeExactly(left: string, right: string, left': string, right': string)
    ensures left + ":" + right == left' + ":" + right' <==>
            || (left == left' && right == right')
            || exists piece :: ShiftedText(left, right, left', right', piece) || ShiftedText(left', right', left, right, piece)
  {
    if left + ":" + right == left' + ":" + right' {
      if |left| == |left'| {
        assert (left + ":" + right)[..|left|] == left && (left' + ":" + right')[..|left|] == left';
        assert (left + ":" + right)[|left| + 1..] == right && (left' + ":" + right')[|left| + 1..] == right';
      } else if |left| < |left'| {
        var piece := MovedPiece(left, right, left', right');
      } else {
        var piece := MovedPiece(left', right', left, right);
      }
    }
    forall piece | ShiftedText(left, right, left', right', piece) ensures left + ":" + right == left' + ":" + right' {
      Regroup(left, piece, right');
    }
    forall piece | ShiftedText(left', right', left, right, piece) ensures left + ":" + right == left' + ":" + right' {
      Regroup(left', piece, right);
    }
  }

  lemma MovedPiece(left: string, right: string, left': string, right': string) returns (piece: string)
    requires left + ":" + right == left' + ":" + right' && |left| < |left'|
    ensures ShiftedText(left, right, left', right', piece)
  {
    var joined := left + ":" + right;
    assert joined[..|left|] == left && joined[|left|] == ':' && joined[|left| + 1..] == right;
    assert joined[..|left'|] == left' && joined[|left'|] == ':' && joined[|left'| + 1..] == right';
    piece := joined[|left| + 1..|left'|];
  }

  lemma Regroup(left: string, piece: string, right: string)
    ensures left + ":" + (piece + ":" + right) == (left + ":" + piece) + ":" + right
  {
  }

  predicate Shifted(a: Sample, b: Sample, piece: string) {
    ShiftedText(a.deviceId, a.metric.name, b.deviceId, b.metric.name, piece)
  }

  // Two samples share a joined key exactly when they share the date and either the series or,
  // up to a piece that has moved across the colon, the text of it.
  lemma SampleKeysAgreeExactly(a: Sample, b: Sample)
    ensures SampleKey(a) == SampleKey(b) <==>
            && a.metric.observedAt == b.metric.observedAt
            && (SameSeries(a, b) || exists piece :: Shifted(a, b, piece) || Shifted(b, a, piece))
  {
    var d, m, d', m' := a.deviceId, a.metric.name, b.deviceId, b.metric.name;
    JoinedTextsAgreeExactly(d, m, d', m');
    if exists piece :: ShiftedText(d, m, d', m', piece) || ShiftedText(d', m', d, m, piece) {
      var piece :| ShiftedText(d, m, d', m', piece) || ShiftedText(d', m', d, m, piece);
      assert Shifted(a, b, piece) || Shifted(b, a, piece);
    }
    if exists piece :: Shifted(a, b, piece) || Shifted(b, a, piece) {
      var piece :| Shifted(a, b, piece) || Shifted(b, a, piece);
      assert ShiftedText(d, m, d', m', piece) || ShiftedText(d', m', d, m, piece);
    }
  }

  predicate DistinctReadings(ss: seq<Sample>) {
    forall i, j | 0 <= i < j < |ss| ::
      !(SameSeries(ss[i], ss[j]) && ss[i].metric.observedAt == ss[j].metric.observedAt)
  }

  // No two samples of one date differ by a piece moved across the colon.
  ghost predicate Unambiguous(ss: seq<Sample>) {
    forall i, j, piece | 0 <= i < |ss| && 0 <= j < |ss| && Shifted(ss[i], ss[j], piece) ::
      ss[i].metric.observedAt != ss[j].metric.observedAt
  }

  // Validation refuses true duplicates, and beyond them exactly the ambiguous lists.
  lemma ValidExactlyWhenDistinctAndUnambiguous(ss: seq<Sample>)
    ensures ValidSamples(ss) <==> EachValid(ss) && DistinctReadings(ss) && Unambiguous(ss)
  {
    forall i, j | 0 <= i < j < |ss|
      ensures SampleKey(ss[i]) == SampleKey(ss[j]) <==>
              && ss[i].metric.observedAt == ss[j].metric.observedAt
              && (SameSeries(ss[i], ss[j]) || exists piece :: Shifted(ss[i], ss[j], piece) || Shifted(ss[j], ss[i], piece))
    {
      SampleKeysAgreeExactly(ss[i], ss[j]);
    }
    forall i, j, piece | 0 <= i < |ss| && 0 <= j < |ss| && Shifted(ss[i], ss[j], piece) ensures i != j {
      assert |ss[j].deviceId| > |ss[i].deviceId|;
    }
  }

  // Where no device ID holds a colon, or no metric name does, it refuses nothing else.
  lemma ValidExactlyWhenDistinct(ss: seq<Sample>)
    requires (forall i :: 0 <= i < |ss| ==> ':' !in ss[i].deviceId) || (forall i :: 0 <= i < |ss| ==> ':' !in ss[i].metric.name)
    ensures ValidSamples(ss) <==> EachValid(ss) && DistinctReadings(ss)
  {
    ValidExactlyWhenDistinctAndUnambiguous(ss);
    forall i, j, piece | 0 <= i < |ss| && 0 <= j < |ss|
      ensures Shifted(ss[i], ss[j], piece) ==> ':' in ss[i].metric.name && ':' in ss[j].deviceId
    {
      ShiftCrossesColons(ss[i], ss[j], piece);
    }
  }

  lemma ShiftCrossesColons(a: Sample, b: Sample, piece: string)
    ensures Shifted(a, b, piece) ==> ':' in a.metric.name && ':' in b.deviceId
  {
    if Shifted(a, b, piece) {
      assert b.deviceId[|a.deviceId|] == ':' && a.metric.name[|piece|] == ':';
    }
  }

  // The ambiguity is real: a well-formed pair is refused.
  lemma JoinedSampleKeyCollides(a: Sample, b: Sample)
    requires a.deviceId == "gpu" && a.metric.name == "0:load"
    requires b.deviceId == "gpu:0" && b.metric.name == "load"
    requires a.metric.observedAt == b.metric.observedAt
    ensures DistinctReadings([a, b]) && !ValidSamples([a, b])
  {
    var ss := [a, b];
    assert "gpu:0" == "gpu" + ":" + "0" && "0:load" == "0" + ":" + "load";
    assert Shifted(ss[0], ss[1], "0");
    ValidExactlyWhenDistinctAndUnambiguous(ss);
  }

  predicate TimelyFor(e: Envelope, receivedAt: Time) {
    && e.observedAt <= receivedAt + MAX_FUTURE_OBSERVATION_SKEW
    && forall i :: 0 <= i < |e.samples| ==>
         e.samples[i].metric.observedAt <= receivedAt + MAX_FUTURE_OBSERVATION_SKEW
  }

  method ValidateReceiptTimes(e: Envelope, receivedAt: Time) returns (timely: bool)
    ensures timely <==> TimelyFor(e, receivedAt)
  {
    var upperBound := receivedAt + MAX_FUTURE_OBSERVATION_SKEW;
    if e.observedAt > upperBound { return false; }
    for i := 0 to |e.samples|
      invariant forall k :: 0 <= k < i ==> e.samples[k].metric.observedAt <= upperBound
    {
      if e.samples[i].metric.observedAt > upperBound { return false; }
    }
    return true;
  }
}
