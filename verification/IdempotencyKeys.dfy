// The key agent:boot:sequence under which a submission is recognised when it is retried.
module IdempotencyKeys {
  import opened Wrappers
  import Envelopes

  function Digit(d: nat): char
    requires d < 10
  {
    (('0' as int) + d) as char
  }

  // Decimal printing of an unsigned integer.
  function Decimal(n: nat): (s: string)
    ensures s != [] && ':' !in s
  {
    if n < 10 then [Digit(n)] else Decimal(n / 10) + [Digit(n % 10)]
  }

  predicate Digits(s: string) {
    s != [] && forall i :: 0 <= i < |s| ==> '0' <= s[i] <= '9'
  }

  function ParseDecimal(s: string): nat
    requires Digits(s)
  {
    var init, last := s[..|s| - 1], (s[|s| - 1] as int) - ('0' as int);
    if init == [] then last else 10 * ParseDecimal(init) + last
  }

  lemma {:induction false} DecimalRoundTrip(n: nat)
    ensures Digits(Decimal(n))
    ensures ParseDecimal(Decimal(n)) == n
  {
    if n >= 10 {
      DecimalRoundTrip(n / 10);
      assert Decimal(n)[..|Decimal(n)| - 1] == Decimal(n / 10);
    }
  }

  function Key(agentId: string, bootId: string, sequence: nat): string {
    agentId + ":" + bootId + ":" + Decimal(sequence)
  }

  function EnvelopeKey(e: Envelopes.Envelope): string {
    Key(e.agentId, e.bootId, e.sequence)
  }

  function FirstColon(s: string): (i: nat)
    ensures i <= |s| && ':' !in s[..i] && (i < |s| ==> s[i] == ':')
  {
    if s == [] || s[0] == ':' then 0 else
      var i := 1 + FirstColon(s[1..]);
      assert s[..i] == [s[0]] + s[1..][..i - 1];
      i
  }

  function LastColon(s: string): (i: nat)
    requires ':' in s
    ensures i < |s| && s[i] == ':' && ':' !in s[i + 1..]
  {
    if s[|s| - 1] == ':' then |s| - 1 else
      var i := LastColon(s[..|s| - 1]);
      assert s[i + 1..] == s[..|s| - 1][i + 1..] + [s[|s| - 1]];
      i
  }

  // The agent ends at the first colon and the sequence starts after the last one, so colons
  // inside the boot ID do no harm.
  function ParseKey(key: string): Option<(string, string, nat)> {
    if ':' !in key || FirstColon(key) >= LastColon(key) then None else
      var first, last := FirstColon(key), LastColon(key);
      var digits := key[last + 1..];
      if !Digits(digits) then None
      else Some((key[..first], key[first + 1..last], ParseDecimal(digits)))
  }

  lemma KeyRoundTrip(agentId: string, bootId: string, sequence: nat)
    requires ':' !in agentId
    ensures ParseKey(Key(agentId, bootId, sequence)) == Some((agentId, bootId, sequence))
  {
    var key, digits := Key(agentId, bootId, sequence), Decimal(sequence);
    var first, last := |agentId|, |agentId| + 1 + |bootId|;
    assert key[..first] == agentId && key[first] == ':' && key[last] == ':';
    assert key[first + 1..last] == bootId && key[last + 1..] == digits;
    FirstColonIs(key, first);
    LastColonIs(key, last);
    DecimalRoundTrip(sequence);
  }

  lemma FirstColonIs(s: string, i: nat)
    requires i < |s| && s[i] == ':' && ':' !in s[..i]
    ensures FirstColon(s) == i
  {
  }

  lemma LastColonIs(s: string, i: nat)
    requires i < |s| && s[i] == ':' && ':' !in s[i + 1..]
    ensures LastColon(s) == i
  {
  }

  // Equal keys name the same agent, boot and sequence when no agent ID holds a colon.
  lemma KeyInjective(a1: string, b1: string, s1: nat, a2: string, b2: string, s2: nat)
    requires ':' !in a1 && ':' !in a2
    ensures Key(a1, b1, s1) == Key(a2, b2, s2) <==> a1 == a2 && b1 == b2 && s1 == s2
  {
    KeyRoundTrip(a1, b1, s1);
    KeyRoundTrip(a2, b2, s2);
  }

  // The last part has no colon, so it and what comes before it are told apart.
  lemma SequenceSplitsOff(text: string, text': string, sequence: nat, sequence': nat)
    ensures text + ":" + Decimal(sequence) == text' + ":" + Decimal(sequence') <==> text == text' && sequence == sequence'
  {
    var digits, digits' := Decimal(sequence), Decimal(sequence');
    DecimalRoundTrip(sequence);
    DecimalRoundTrip(sequence');
    Envelopes.JoinedTextsAgreeExactly(text, digits, text', digits');
    forall piece ensures !Envelopes.ShiftedText(text, digits, text', digits', piece) { HoldsColon(piece, digits'); }
    forall piece ensures !Envelopes.ShiftedText(text', digits', text, digits, piece) { HoldsColon(piece, digits); }
  }

  lemma HoldsColon(piece: string, rest: string)
    ensures ':' in piece + ":" + rest
  {
    assert (piece + ":" + rest)[|piece|] == ':';
  }

  // For any agent IDs at all: keys are equal exactly when the sequences are, and agent and boot
  // are or differ by a piece moved across the colon between them.
  lemma KeysAgreeExactly(a1: string, b1: string, s1: nat, a2: string, b2: string, s2: nat)
    ensures Key(a1, b1, s1) == Key(a2, b2, s2) <==>
            && s1 == s2
            && (|| (a1 == a2 && b1 == b2)
                || exists piece :: Envelopes.ShiftedText(a1, b1, a2, b2, piece) || Envelopes.ShiftedText(a2, b2, a1, b1, piece))
  {
    SequenceSplitsOff(a1 + ":" + b1, a2 + ":" + b2, s1, s2);
    Envelopes.JoinedTextsAgreeExactly(a1, b1, a2, b2);
  }

  // So without the restriction on the agent ID two submissions can share a key.
  lemma KeyCollides(agentId: string, piece: string, bootId: string, sequence: nat)
    ensures Key(agentId, piece + ":" + bootId, sequence) == Key(agentId + ":" + piece, bootId, sequence)
  {
    assert Envelopes.ShiftedText(agentId, piece + ":" + bootId, agentId + ":" + piece, bootId, piece);
    KeysAgreeExactly(agentId, piece + ":" + bootId, sequence, agentId + ":" + piece, bootId, sequence);
  }

  predicate TwoDotsAt(value: string, i: nat) {
    i + 1 < |value| && value[i] == '.' && value[i + 1] == '.'
  }

  // The identity format accepted by the agent configuration.
  predicate ValidNodeIdentity(value: string)
    ensures ValidNodeIdentity(value) ==> value != [] && ':' !in value
  {
    && 0 < |value| <= 64
    && value[0] !in ".-" && value[|value| - 1] !in ".-"
    && (forall i :: 0 <= i < |value| ==> !TwoDotsAt(value, i))
    && (forall c :: c in value ==> 'a' <= c <= 'z' || '0' <= c <= '9' || c == '.' || c == '-')
  }

  predicate LetterOrDigit(c: char) {
    'a' <= c <= 'z' || '0' <= c <= '9'
  }

  predicate JoinedByTwoDots(value: string, front: string, back: string) {
    value == front + ".." + back
  }

  // In plain terms: 1 to 64 lower-case letters, digits, dots and hyphens, a letter or digit at
  // either end, and nowhere two dots in a row.
  lemma IdentityExactly(value: string)
    ensures ValidNodeIdentity(value) <==>
            && 1 <= |value| <= 64
            && (forall c :: c in value ==> LetterOrDigit(c) || c == '.' || c == '-')
            && LetterOrDigit(value[0]) && LetterOrDigit(value[|value| - 1])
            && (forall front, back :: !JoinedByTwoDots(value, front, back))
  {
    NoTwoDots(value);
    if value != [] {
      var first, last := value[0], value[|value| - 1];
      assert first in value && last in value;
      assert first in ".-" <==> first == '.' || first == '-';
      assert last in ".-" <==> last == '.' || last == '-';
    }
  }

  lemma NoTwoDots(value: string)
    ensures (forall i :: 0 <= i < |value| ==> !TwoDotsAt(value, i)) <==> forall front, back :: !JoinedByTwoDots(value, front, back)
  {
    forall i | 0 <= i < |value| && TwoDotsAt(value, i) ensures JoinedByTwoDots(value, value[..i], value[i + 2..]) {
    }
    forall front, back | JoinedByTwoDots(value, front, back) ensures TwoDotsAt(value, |front|) {
    }
  }

  // Any two configured agents, whatever their boot IDs, never share a key.
  lemma ConfiguredAgentsNeverCollide(e1: Envelopes.Envelope, e2: Envelopes.Envelope)
    requires ValidNodeIdentity(e1.agentId) && ValidNodeIdentity(e2.agentId)
    ensures EnvelopeKey(e1) == EnvelopeKey(e2) <==>
            e1.agentId == e2.agentId && e1.bootId == e2.bootId && e1.sequence == e2.sequence
  {
    KeyInjective(e1.agentId, e1.bootId, e1.sequence, e2.agentId, e2.bootId, e2.sequence);
  }
}
