// Backoff between delivery attempts and the errors that allow another one.
module Retry {
  import Wrappers
  import Metric

  // A delivery error says whether a retry can help; any other error (a cancelled sleep) does not.
  datatype SendError = DeliveryError(canRetry: bool, statusCode: Wrappers.Option<int>) | OtherError

  predicate IsRetryable(error: SendError) {
    error.DeliveryError? && error.canRetry
  }

  datatype RetryPolicy = RetryPolicy(
    maxAttempts: int,
    initialBackoff: int,
    maxBackoff: int,
    jitterFraction: real)
  {
    predicate Valid() {
      && 1 <= maxAttempts <= 10
      && 0 < initialBackoff <= maxBackoff
      && 0.0 <= jitterFraction <= 1.0
    }
  }

  const DEFAULT_RETRY_POLICY: RetryPolicy := RetryPolicy(3, Metric.SECOND, 30 * Metric.SECOND, 0.2)

  function Pow2(n: nat): (p: nat)
    ensures p >= 1
  {
    if n == 0 then 1 else 2 * Pow2(n - 1)
  }

  function Scaled(base: real, factor: real): real {
    base * factor
  }

  function Uncapped(policy: RetryPolicy, retryNumber: int): real {
    Scaled(policy.initialBackoff as real, Pow2(if retryNumber < 0 then 0 else retryNumber) as real)
  }

  // Exponential up to the cap.
  function Base(policy: RetryPolicy, retryNumber: int): real {
    if Uncapped(policy, retryNumber) > policy.maxBackoff as real then policy.maxBackoff as real
    else Uncapped(policy, retryNumber)
  }

  function Jitter(policy: RetryPolicy, random: real): real {
    Scaled(policy.jitterFraction, random * 2.0 - 1.0)
  }

  // A duration drops the fraction, toward zero.
  function Truncate(x: real): (n: int)
    ensures x >= 0.0 ==> 0 <= n && n as real <= x < n as real + 1.0
  {
    if x >= 0.0 then x.Floor else -((-x).Floor)
  }

  // random is a draw from the unit interval.
  function Delay(policy: RetryPolicy, retryNumber: int, random: real): int {
    Truncate(Scaled(Base(policy, retryNumber), 1.0 + Jitter(policy, random)))
  }

  function MaxDelay(policy: RetryPolicy): real {
    Scaled(policy.maxBackoff as real, 1.0 + policy.jitterFraction)
  }

  lemma ScaledGrows(base: real, x: real, y: real)
    requires 0.0 <= base && x <= y
    ensures Scaled(base, x) <= Scaled(base, y)
  {
    assert base * (y - x) >= 0.0;
  }

  lemma BaseBounds(policy: RetryPolicy, retryNumber: int)
    requires policy.Valid()
    ensures policy.initialBackoff as real <= Base(policy, retryNumber) <= policy.maxBackoff as real
  {
    ScaledGrows(policy.initialBackoff as real, 1.0, Pow2(if retryNumber < 0 then 0 else retryNumber) as real);
  }

  lemma JitterBounds(policy: RetryPolicy, random: real)
    requires policy.Valid() && 0.0 <= random <= 1.0
    ensures -policy.jitterFraction <= Jitter(policy, random) <= policy.jitterFraction
  {
    ScaledGrows(policy.jitterFraction, -1.0, random * 2.0 - 1.0);
    ScaledGrows(policy.jitterFraction, random * 2.0 - 1.0, 1.0);
  }

  // Every delay lies within the jitter fraction of its base, and never above the capped one.
  lemma {:induction false} DelayBounds(policy: RetryPolicy, retryNumber: int, random: real)
    requires policy.Valid() && 0.0 <= random <= 1.0
    ensures 0 <= Delay(policy, retryNumber, random)
    ensures Scaled(Base(policy, retryNumber), 1.0 - policy.jitterFraction) - 1.0 < Delay(policy, retryNumber, random) as real
    ensures Delay(policy, retryNumber, random) as real <= Scaled(Base(policy, retryNumber), 1.0 + policy.jitterFraction)
    ensures Delay(policy, retryNumber, random) as real <= MaxDelay(policy)
  {
    var base, f, j := Base(policy, retryNumber), policy.jitterFraction, Jitter(policy, random);
    BaseBounds(policy, retryNumber);
    JitterBounds(policy, random);
    ScaledGrows(base, 0.0, 1.0 - f);
    ScaledGrows(base, 1.0 - f, 1.0 + j);
    ScaledGrows(base, 1.0 + j, 1.0 + f);
    ScaledGrows(1.0 + f, base, policy.maxBackoff as real);
  }

  lemma PowersGrow(n: nat, m: nat)
    requires n <= m
    ensures Pow2(n) <= Pow2(m)
  {
    if n < m { PowersGrow(n, m - 1); }
  }

  // The base never shrinks from one retry to the next.
  lemma BaseGrows(policy: RetryPolicy, n: nat, m: nat)
    requires policy.Valid() && n <= m
    ensures Base(policy, n) <= Base(policy, m)
  {
    PowersGrow(n, m);
    ScaledGrows(policy.initialBackoff as real, Pow2(n) as real, Pow2(m) as real);
  }

  // It starts at the initial backoff and doubles up to the cap.
  lemma BaseDoubles(policy: RetryPolicy, n: nat)
    requires policy.Valid()
    ensures forall m: int :: m <= 0 ==> Base(policy, m) == policy.initialBackoff as real
    ensures Base(policy, n + 1) == if 2.0 * Base(policy, n) > policy.maxBackoff as real then policy.maxBackoff as real
                                   else 2.0 * Base(policy, n)
  {
    assert Pow2(n + 1) == 2 * Pow2(n);
    assert Uncapped(policy, n + 1) == 2.0 * Uncapped(policy, n);
  }

  lemma JitterAtDraws(policy: RetryPolicy)
    ensures Jitter(policy, 0.0) == -policy.jitterFraction && Jitter(policy, 0.5) == 0.0 && Jitter(policy, 1.0) == policy.jitterFraction
  {
  }

  // The lowest draw takes the jitter fraction off, the highest one adds it, the middle one
  // leaves the base as it is.
  lemma DelayAtDraws(policy: RetryPolicy, n: nat)
    ensures Delay(policy, n, 0.0) == Truncate(Scaled(Base(policy, n), 1.0 - policy.jitterFraction))
    ensures Delay(policy, n, 0.5) == Truncate(Base(policy, n))
    ensures Delay(policy, n, 1.0) == Truncate(Scaled(Base(policy, n), 1.0 + policy.jitterFraction))
  {
    JitterAtDraws(policy);
    assert Scaled(Base(policy, n), 1.0) == Base(policy, n);
  }

  // By default the two retries wait one and two seconds, up to the jitter; later ones would
  // wait 30 seconds at most.
  lemma DefaultDelays()
    ensures DEFAULT_RETRY_POLICY.maxAttempts == 3
    ensures Delay(DEFAULT_RETRY_POLICY, 0, 0.5) == 1_000_000_000 && Delay(DEFAULT_RETRY_POLICY, 1, 0.5) == 2_000_000_000
    ensures Delay(DEFAULT_RETRY_POLICY, 4, 0.5) == 16_000_000_000 && Delay(DEFAULT_RETRY_POLICY, 5, 0.5) == 30_000_000_000
  {
    BaseDoubles(DEFAULT_RETRY_POLICY, 0);
    BaseDoubles(DEFAULT_RETRY_POLICY, 1);
    BaseDoubles(DEFAULT_RETRY_POLICY, 2);
    BaseDoubles(DEFAULT_RETRY_POLICY, 3);
    BaseDoubles(DEFAULT_RETRY_POLICY, 4);
    DelayAtDraws(DEFAULT_RETRY_POLICY, 0);
    DelayAtDraws(DEFAULT_RETRY_POLICY, 1);
    DelayAtDraws(DEFAULT_RETRY_POLICY, 4);
    DelayAtDraws(DEFAULT_RETRY_POLICY, 5);
  }
}
