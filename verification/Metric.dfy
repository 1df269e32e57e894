// The vendor-neutral metric vocabulary shared by the codec and the latest-state merge.
module Metric {
  import Wrappers

  // Nanoseconds since the Unix epoch. Go times reach far beyond 64 bits of nanoseconds.
  type Time = int

  const MICROSECOND: int := 1000
  const SECOND: int := 1_000_000_000
  const MINUTE: int := 60 * SECOND
  const HOUR: int := 60 * MINUTE

  // Go's zero time, 1 January of year 1.
  const ZERO_TIME: Time := -62_135_596_800 * SECOND

  // The quality is a string type in the source, so a value outside the vocabulary is possible.
  datatype Quality =
    | Fresh
    | Stale
    | Unavailable
    | Unsupported
    | Estimated
    | Experimental
    | Unknown(name: string)

  predicate ValidQuality(quality: Quality) {
    !quality.Unknown?
  }

  // Readings that carry no number.
  predicate Valueless(quality: Quality) {
    quality.Unavailable? || quality.Unsupported?
  }

  // The source's floating-point numbers, without their rounding.
  datatype Number = Finite(x: real) | Infinite(negative: bool) | NotANumber

  datatype MetricValue = MetricValue(
    name: string,
    unit: string,
    value: Wrappers.Option<Number>,
    quality: Quality,
    source: string,
    semantics: string,
    observedAt: Time)

  // The code points that unicode.IsSpace accepts.
  predicate IsSpace(c: char) {
    var p := c as int;
    || 0x09 <= p <= 0x0D || p == 0x20 || p == 0x85 || p == 0xA0 || p == 0x1680
    || 0x2000 <= p <= 0x200A || p == 0x2028 || p == 0x2029 || p == 0x202F
    || p == 0x205F || p == 0x3000
  }

  // The space characters among the ASCII ones.
  lemma AsciiSpaces(c: char)
    requires c as int < 0x80
    ensures IsSpace(c) <==> c in {' ', '\t', '\n', '\r'} || c as int in {0x0B, 0x0C}
  {
  }

  // strings.TrimSpace(s) == "".
  predicate Blank(s: string) {
    forall c :: c in s ==> IsSpace(c)
  }

  predicate ValidMetric(m: MetricValue) {
    && !Blank(m.name)
    && ValidQuality(m.quality)
    && !Blank(m.source)
    && !Blank(m.semantics)
    && m.observedAt != ZERO_TIME
    && (Valueless(m.quality) <==> m.value.None?)
  }
}
