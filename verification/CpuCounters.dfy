// Host CPU utilisation from two readings of the kernel's aggregate counters, with every sum
// and difference taken in 64 wrapping bits.
module CpuCounters {
  import opened Wrappers
  import Envelopes

  type U64 = Envelopes.U64

  const WORD: int := 0x1_0000_0000_0000_0000
  const IDLE_FIELD: nat := 3
  const IOWAIT_FIELD: nat := 4

  // A reported utilisation keeps the two differences its percentage is computed from.
  datatype Sampled = Unreadable | NotAvailable | Utilization(idleDelta: U64, totalDelta: U64)

  function Percent(s: Sampled): real
    requires s.Utilization? && s.totalDelta != 0
  {
    (1.0 - s.idleDelta as real / s.totalDelta as real) * 100.0
  }

  function Plus(x: U64, y: U64): U64 {
    if x + y < WORD then x + y else x + y - WORD
  }

  function Minus(x: U64, y: U64): U64 {
    if x >= y then x - y else x - y + WORD
  }

  function Total(values: seq<U64>): U64 {
    if values == [] then 0 else Plus(Total(values[..|values| - 1]), values[|values| - 1])
  }

  // Idle time and, where the kernel reports it, I/O wait.
  function Idle(values: seq<U64>): U64
    requires |values| > IDLE_FIELD
  {
    if |values| > IOWAIT_FIELD then Plus(values[IDLE_FIELD], values[IOWAIT_FIELD]) else values[IDLE_FIELD]
  }

  // What an observation leaves behind for the next one.
  datatype Base = Base(total: U64, idle: U64)

  function BaseOf(values: seq<U64>): Base
    requires |values| > IDLE_FIELD
  {
    Base(Total(values), Idle(values))
  }

  function Between(before: Base, after: Base): Sampled {
    var totalDelta, idleDelta := Minus(after.total, before.total), Minus(after.idle, before.idle);
    if totalDelta == 0 || idleDelta > totalDelta then NotAvailable else Utilization(idleDelta, totalDelta)
  }

  // The fields after the label; None is a field that is not a 64-bit number.
  predicate Readable(fields: seq<Option<U64>>) {
    |fields| > IDLE_FIELD && forall i :: 0 <= i < |fields| ==> fields[i].Some?
  }

  function Values(fields: seq<Option<U64>>): (values: seq<U64>)
    requires forall i :: 0 <= i < |fields| ==> fields[i].Some?
    ensures |values| == |fields| && forall i :: 0 <= i < |values| ==> values[i] == fields[i].value
  {
    seq(|fields|, i requires 0 <= i < |fields| => fields[i].value)
  }

  method ParseCounters(fields: seq<Option<U64>>) returns (r: Option<seq<U64>>)
    ensures r.Some? <==> forall i :: 0 <= i < |fields| ==> fields[i].Some?
    ensures r.Some? ==> r.value == Values(fields)
  {
    var values: seq<U64> := [];
    for i := 0 to |fields|
      invariant |values| == i
      invariant forall k :: 0 <= k < i ==> fields[k] == Some(values[k])
    {
      if fields[i].None? { return None; }
      values := values + [fields[i].value];
    }
    r := Some(values);
  }

  class Collector {
    var lastTotal: U64
    var lastIdle: U64
    var hasCpu: bool

    constructor ()
      ensures !hasCpu
    {
      lastTotal, lastIdle, hasCpu := 0, 0, false;
    }

    // Every readable observation becomes the base of the next one, also when it yields nothing.
    method CollectCpu(fields: seq<Option<U64>>) returns (s: Sampled)
      modifies this
      ensures !Readable(fields) ==>
                s == Unreadable && lastTotal == old(lastTotal) && lastIdle == old(lastIdle) && hasCpu == old(hasCpu)
      ensures Readable(fields) ==> hasCpu && Base(lastTotal, lastIdle) == BaseOf(Values(fields))
      ensures Readable(fields) ==>
                s == if !old(hasCpu) then NotAvailable
                     else Between(old(Base(lastTotal, lastIdle)), BaseOf(Values(fields)))
    {
      if |fields| <= IDLE_FIELD { return Unreadable; }
      var parsed := ParseCounters(fields);
      if parsed.None? { return Unreadable; }
      var values := parsed.value;
      var total: U64 := 0;
      for i := 0 to |values|
        invariant total == Total(values[..i])
      {
        assert values[..i + 1][..i] == values[..i];
        total := Plus(total, values[i]);
      }
      assert values[..|values|] == values;
      var idle := values[IDLE_FIELD];
      if |values| > IOWAIT_FIELD { idle := Plus(idle, values[IOWAIT_FIELD]); }
      if !hasCpu {
        lastTotal, lastIdle, hasCpu := total, idle, true;
        return NotAvailable;
      }
      var totalDelta, idleDelta := Minus(total, lastTotal), Minus(idle, lastIdle);
      lastTotal, lastIdle := total, idle;
      if totalDelta == 0 || idleDelta > totalDelta { return NotAvailable; }
      s := Utilization(idleDelta, totalDelta);
    }
  }

  // ---------- What is reported ----------

  // The line holds user, nice, system, idle and, on most kernels, I/O wait and more. It is a
  // reading exactly when it has four fields or more, all of them numbers; the fifth counts as
  // idle where it is present.
  lemma IdleFields(fields: seq<Option<U64>>, user: U64, nice: U64, system: U64, idle: U64, iowait: U64, more: seq<U64>)
    ensures Readable(fields) <==> |fields| >= 4 && None !in fields
    ensures TrueIdle([user, nice, system, idle]) == idle
    ensures TrueIdle([user, nice, system, idle, iowait] + more) == idle + iowait
    ensures |[user, nice, system, idle, iowait] + more| > 3
  {
  }

  // Whatever the counters say, a reported value is a percentage.
  lemma AlwaysAPercentage(before: Base, after: Base)
    requires Between(before, after).Utilization?
    ensures Between(before, after).totalDelta != 0 && 0.0 <= Percent(Between(before, after)) <= 100.0
  {
    var s := Between(before, after);
    RatioBounds(s.idleDelta as real, s.totalDelta as real);
  }

  lemma RatioBounds(i: real, t: real)
    requires 0.0 <= i <= t && t > 0.0
    ensures 0.0 <= i / t <= 1.0
  {
    var q := i / t;
    assert q * t == i;
    assert (1.0 - q) * t == t - i;
    FactorSign(q, t);
    FactorSign(1.0 - q, t);
  }

  lemma FactorSign(x: real, t: real)
    requires t > 0.0 && x * t >= 0.0
    ensures x >= 0.0
  {
  }

  // The sums without a bound, and how often the 64-bit ones wrapped.
  function TrueSum(values: seq<U64>): int {
    if values == [] then 0 else TrueSum(values[..|values| - 1]) + values[|values| - 1]
  }

  function TrueIdle(values: seq<U64>): int
    requires |values| > IDLE_FIELD
  {
    var idle: int := values[IDLE_FIELD];
    if |values| > IOWAIT_FIELD then idle + values[IOWAIT_FIELD] else idle
  }

  lemma {:induction false} TotalIsResidue(values: seq<U64>) returns (wraps: int)
    ensures TrueSum(values) == Total(values) + wraps * WORD
  {
    if values == [] { return 0; }
    wraps := TotalIsResidue(values[..|values| - 1]);
    if Total(values[..|values| - 1]) + values[|values| - 1] >= WORD { wraps := wraps + 1; }
  }

  predicate Grown(before: seq<U64>, after: seq<U64>) {
    |before| == |after| && forall i :: 0 <= i < |before| ==> before[i] <= after[i]
  }

  lemma {:induction false} GrowthOfSums(before: seq<U64>, after: seq<U64>)
    requires Grown(before, after)
    ensures TrueSum(before) <= TrueSum(after)
    ensures |before| > IDLE_FIELD ==> TrueIdle(after) - TrueIdle(before) <= TrueSum(after) - TrueSum(before)
  {
    if before != [] {
      GrowthOfSums(before[..|before| - 1], after[..|after| - 1]);
    }
  }

  // A 64-bit difference is the true growth up to the multiple of 2^64 that brings it in range.
  lemma MinusIsGrowth(x: U64, y: U64, k: int, m: int, shift: int)
    requires 0 <= (y + m * WORD) - (x + k * WORD) + shift * WORD < WORD
    ensures Minus(y, x) == (y + m * WORD) - (x + k * WORD) + shift * WORD
  {
    assert (y - x) + (m - k + shift) * WORD >= 0;
    assert m - k + shift < 2 && m - k + shift > -1;
  }

  // For any counters at all: the two differences are the true growths reduced modulo 2^64, and
  // a percentage is reported exactly when the total's is positive and the idle one's within it.
  lemma ReportedExactly(before: seq<U64>, after: seq<U64>, total: int, idle: int)
    requires |before| > IDLE_FIELD && |after| > IDLE_FIELD
    requires 0 <= TrueSum(after) - TrueSum(before) + total * WORD < WORD
    requires 0 <= TrueIdle(after) - TrueIdle(before) + idle * WORD < WORD
    ensures var t, i := TrueSum(after) - TrueSum(before) + total * WORD, TrueIdle(after) - TrueIdle(before) + idle * WORD;
            Between(BaseOf(before), BaseOf(after)) == if t == 0 || i > t then NotAvailable else Utilization(i, t)
  {
    var k := TotalIsResidue(before);
    var m := TotalIsResidue(after);
    MinusIsGrowth(Total(before), Total(after), k, m, total);
    MinusIsGrowth(Idle(before), Idle(after), if TrueIdle(before) < WORD then 0 else 1, if TrueIdle(after) < WORD then 0 else 1, idle);
  }

  // When no counter went back and fewer than 2^64 ticks passed, the ticks reported are exactly
  // the true ones, even where a sum wrapped; nothing is reported only when no tick passed.
  lemma ExactTicks(before: seq<U64>, after: seq<U64>)
    requires |before| > IDLE_FIELD && Grown(before, after)
    requires TrueSum(after) - TrueSum(before) < WORD
    ensures 0 <= TrueIdle(after) - TrueIdle(before) <= TrueSum(after) - TrueSum(before)
    ensures Between(BaseOf(before), BaseOf(after))
         == if TrueSum(after) == TrueSum(before) then NotAvailable
            else Utilization(TrueIdle(after) - TrueIdle(before), TrueSum(after) - TrueSum(before))
  {
    GrowthOfSums(before, after);
    ReportedExactly(before, after, 0, 0);
  }

  // Idle time that went back, as I/O wait may, is reported as a percentage exactly when the
  // total has grown by at least as much as the idle growth plus 2^64.
  lemma IdleGoingBack(before: seq<U64>, after: seq<U64>)
    requires |before| > IDLE_FIELD && |after| > IDLE_FIELD
    requires 0 <= TrueSum(after) - TrueSum(before) < WORD
    requires -WORD <= TrueIdle(after) - TrueIdle(before) < 0
    ensures Between(BaseOf(before), BaseOf(after)).Utilization? <==>
            && TrueSum(after) > TrueSum(before)
            && TrueSum(after) - TrueSum(before) >= TrueIdle(after) - TrueIdle(before) + WORD
  {
    ReportedExactly(before, after, 0, 1);
  }

  // The reported percentage is the busy share of the true ticks.
  lemma {:induction false} ExactBusyFraction(before: seq<U64>, after: seq<U64>)
    requires |before| > IDLE_FIELD && Grown(before, after)
    requires 1 <= TrueSum(after) - TrueSum(before) < WORD
    ensures var s, total := Between(BaseOf(before), BaseOf(after)), TrueSum(after) - TrueSum(before);
            s.Utilization? && s.totalDelta != 0
            && Percent(s) == Share(total - (TrueIdle(after) - TrueIdle(before)), total)
  {
    var idle, total := TrueIdle(after) - TrueIdle(before), TrueSum(after) - TrueSum(before);
    ExactTicks(before, after);
    BusyShare(idle, total);
    assert Between(BaseOf(before), BaseOf(after)) == Utilization(idle, total);
  }

  lemma Cancel(x: real, y: real, t: real)
    requires t > 0.0 && x * t == y * t
    ensures x == y
  {
    assert (x - y) * t == 0.0;
  }

  function Share(busy: int, total: int): real
    requires total != 0
  {
    100.0 * busy as real / total as real
  }

  lemma BusyShare(idle: U64, total: U64)
    requires idle <= total && total > 0
    ensures Percent(Utilization(idle, total)) == Share(total - idle, total)
  {
    var i, t := idle as real, total as real;
    var q, r := i / t, 100.0 * (total - idle) as real / t;
    assert q * t == i && r * t == 100.0 * (total - idle) as real;
    assert ((1.0 - q) * 100.0) * t == 100.0 * t - 100.0 * (q * t);
    Cancel((1.0 - q) * 100.0, r, t);
  }
}
