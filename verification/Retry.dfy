/** Retrying an operation inside a transaction that a failed attempt rolls back. */
module Retry {
  import opened Wrappers

  /** How one attempt ends: with a value, or with an exception that is or is not worth retrying. */
  datatype Ending<T> = Returned(value: T) | Retryable | Permanent | Foreign

  /** What attempt number i does to a store, and how it ends. The store it leaves is kept only on a return. */
  type Operation<!S, !T> = (nat, S) -> (S, Ending<T>)

  datatype Failure = Exhausted | NotRetryable | Unexpected | NeverCalled

  /** Attempt k is the first that does not end in a retryable failure; every attempt starts from `s`. */
  ghost predicate FirstStop<S, T>(op: Operation<S, T>, s: S, k: nat) {
    !op(k, s).1.Retryable? && forall i | 0 <= i < k :: op(i, s).1.Retryable?
  }

  ghost predicate AllRetryable<S, T>(op: Operation<S, T>, s: S, n: nat) {
    forall i | 0 <= i < n :: op(i, s).1.Retryable?
  }

  /** The contract shared by both retry loops: the store ends unchanged, or with the effect of exactly the one
      attempt that returned, and the loop sleeps between attempts only. */
  ghost predicate Retried<S, T>(
    op: Operation<S, T>, limit: int, before: S, after: S, r: Result<T, Failure>, attempts: nat, sleeps: nat)
  {
    && (limit <= 0 ==> r == Result.Failure(NeverCalled) && attempts == 0)
    && (limit > 0 ==> 1 <= attempts <= limit)
    && sleeps == (if attempts > 0 then attempts - 1 else 0)
    && (r.Success? ==>
          attempts > 0 && FirstStop(op, before, attempts - 1) &&
          op(attempts - 1, before) == (after, Returned(r.value)))
    && (r.Failure? ==> after == before)
    && (r == Result.Failure(NeverCalled) ==> limit <= 0)
    && (r == Result.Failure(Exhausted) ==> attempts == limit && AllRetryable(op, before, attempts))
    && (r == Result.Failure(NotRetryable) ==>
          attempts > 0 && FirstStop(op, before, attempts - 1) && op(attempts - 1, before).1.Permanent?)
    && (r == Result.Failure(Unexpected) ==>
          attempts > 0 && FirstStop(op, before, attempts - 1) && op(attempts - 1, before).1.Foreign?)
  }

  lemma RetriedStops<S, T>(
    op: Operation<S, T>, limit: int, s: S, after: S, r: Result<T, Failure>, attempts: nat, sleeps: nat)
    requires Retried(op, limit, s, after, r, attempts, sleeps) && limit > 0
    ensures attempts >= 1 && AllRetryable(op, s, attempts - 1)
    ensures op(attempts - 1, s).1.Retryable? ==> attempts == limit
    ensures r == match op(attempts - 1, s).1
                 case Returned(value) => Success(value)
                 case Retryable => Result.Failure(Exhausted)
                 case Permanent => Result.Failure(NotRetryable)
                 case Foreign => Result.Failure(Unexpected)
  {
    if r.Failure? {
      match r.error
      case Exhausted => assert AllRetryable(op, s, attempts);
      case NotRetryable =>
      case Unexpected =>
      case NeverCalled =>
    }
  }

  /** The contract leaves nothing open: result, store and number of attempts are determined, so the two loops
      agree on every operation. */
  lemma RetriedDetermined<S, T>(
    op: Operation<S, T>, limit: int, s: S,
    after1: S, r1: Result<T, Failure>, attempts1: nat, sleeps1: nat,
    after2: S, r2: Result<T, Failure>, attempts2: nat, sleeps2: nat)
    requires Retried(op, limit, s, after1, r1, attempts1, sleeps1)
    requires Retried(op, limit, s, after2, r2, attempts2, sleeps2)
    ensures attempts1 == attempts2 && sleeps1 == sleeps2 && r1 == r2 && after1 == after2
  {
    if limit > 0 {
      RetriedStops(op, limit, s, after1, r1, attempts1, sleeps1);
      RetriedStops(op, limit, s, after2, r2, attempts2, sleeps2);
      var ending1, ending2 := op(attempts1 - 1, s).1, op(attempts2 - 1, s).1;
      assert attempts1 < attempts2 ==> ending1.Retryable?;
      assert attempts2 < attempts1 ==> ending2.Retryable?;
    }
  }

  // ---- The with_retry decorator ----

  function Power(b: real, k: nat): real {
    if k == 0 then 1.0 else b * Power(b, k - 1)
  }

  function Backoff(delay: real, backoff: int, attempt: nat): real {
    delay * Power(backoff as real, attempt)
  }

  /** What the decorator returns or raises, as an outcome of the loop: None means that it made no attempt. */
  function Outcome<T>(r: Result<Option<T>, Failure>): Result<T, Failure> {
    match r
    case Success(Some(value)) => Success(value)
    case Success(None) => Result.Failure(NeverCalled)
    case Failure(e) => Result.Failure(e)
  }

  /** Synchronous with_retry. An exception outside the retryable ones passes through at once; without a positive
      attempt limit the function is never called and None is returned. */
  method WithRetry<S, T>(op: Operation<S, T>, maxAttempts: int, delay: real, backoff: int, store: S)
    returns (r: Result<Option<T>, Failure>, after: S, attempts: nat, sleeps: seq<real>)
    ensures Retried(op, maxAttempts, store, after, Outcome(r), attempts, |sleeps|)
    ensures r == Success(None) <==> maxAttempts <= 0
    ensures forall i | 0 <= i < |sleeps| :: sleeps[i] == Backoff(delay, backoff, i)
  {
    after, attempts, sleeps := store, 0, [];
    while attempts < maxAttempts
      invariant after == store && AllRetryable(op, store, attempts)
      invariant attempts > 0 ==> attempts < maxAttempts
      invariant |sleeps| == attempts
      invariant forall i | 0 <= i < |sleeps| :: sleeps[i] == Backoff(delay, backoff, i)
      decreases maxAttempts - attempts
    {
      var (dirty, ending) := op(attempts, after);
      attempts := attempts + 1;
      match ending {
        case Returned(value) =>
          after := dirty;
          return Success(Some(value)), after, attempts, sleeps;
        case Retryable =>
          if attempts == maxAttempts {
            return Result.Failure(Exhausted), after, attempts, sleeps;
          }
          sleeps := sleeps + [delay * Power(backoff as real, attempts - 1)];
        case Permanent =>
          return Result.Failure(NotRetryable), after, attempts, sleeps;
        case Foreign =>
          return Result.Failure(Unexpected), after, attempts, sleeps;
      }
    }
    r := Success(None);
  }

  function Total(sleeps: seq<real>): real {
    if sleeps == [] then 0.0 else Total(sleeps[..|sleeps| - 1]) + sleeps[|sleeps| - 1]
  }

  /** The sleeps form a geometric series. */
  lemma {:induction false} TotalBackoff(sleeps: seq<real>, delay: real, backoff: int)
    requires forall i | 0 <= i < |sleeps| :: sleeps[i] == Backoff(delay, backoff, i)
    ensures Total(sleeps) * (backoff as real - 1.0) == delay * (Power(backoff as real, |sleeps|) - 1.0)
  {
    var b, k := backoff as real, |sleeps|;
    if k > 0 {
      TotalBackoff(sleeps[..k - 1], delay, backoff);
      GeometricStep(Total(sleeps[..k - 1]), Total(sleeps), delay, b, Power(b, k - 1), Power(b, k));
    }
  }

  lemma GeometricStep(total: real, next: real, delay: real, b: real, p: real, q: real)
    requires total * (b - 1.0) == delay * (p - 1.0)
    requires next == total + delay * p && q == b * p
    ensures next * (b - 1.0) == delay * (q - 1.0)
  {
    assert next * (b - 1.0) == total * (b - 1.0) + (delay * p) * (b - 1.0);
    assert (delay * p) * (b - 1.0) == delay * (b * p) - delay * p;
  }

  /** The total of k sleeps, in closed form. */
  lemma TotalBackoffClosedForm(sleeps: seq<real>, delay: real, backoff: int)
    requires backoff > 1 && forall i | 0 <= i < |sleeps| :: sleeps[i] == Backoff(delay, backoff, i)
    ensures Total(sleeps) == delay * (Power(backoff as real, |sleeps|) - 1.0) / (backoff as real - 1.0)
  {
    TotalBackoff(sleeps, delay, backoff);
    Quotient(Total(sleeps), backoff as real - 1.0, delay * (Power(backoff as real, |sleeps|) - 1.0));
  }

  lemma Quotient(x: real, y: real, z: real)
    requires y != 0.0 && x * y == z
    ensures x == z / y
  {
  }

  // ---- The handler's retry ----

  datatype Config = Config(maxAttempts: nat, baseDelay: real, maxDelay: real, jitter: real)

  const DEFAULT := Config(3, 0.1, 2.0, 0.1)

  function MinReal(x: real, y: real): real {
    if y < x then y else x
  }

  /** The delay after the given attempt for one jitter draw. */
  function RetryDelay(cfg: Config, attempt: nat, draw: real): real {
    MinReal(cfg.baseDelay * Power(2.0, attempt) + draw, cfg.maxDelay)
  }

  predicate Draw(cfg: Config, draw: real) {
    0.0 <= draw <= cfg.jitter
  }

  // Python's `max_attempts or default`.
  function Limit(cfg: Config, maxAttempts: Option<int>): int {
    if maxAttempts == None || maxAttempts == Some(0) then cfg.maxAttempts else maxAttempts.value
  }

  /** The handler tells apart database errors worth retrying, other database errors, and anything else. */
  method ExecuteWithRetry<S, T>(
    cfg: Config, op: Operation<S, T>, maxAttempts: Option<int>, draws: nat -> real, store: S)
    returns (r: Result<T, Failure>, after: S, attempts: nat, sleeps: seq<real>)
    ensures Retried(op, Limit(cfg, maxAttempts), store, after, r, attempts, |sleeps|)
    ensures forall i | 0 <= i < |sleeps| :: sleeps[i] == RetryDelay(cfg, i, draws(i))
    // The caller's limit, where there is one: none and zero mean the configured number of attempts.
    ensures maxAttempts.Some? && maxAttempts.value > 0 ==>
      1 <= attempts <= maxAttempts.value &&
      (r == Result.Failure(Exhausted) <==> AllRetryable(op, store, maxAttempts.value))
    ensures maxAttempts.Some? && maxAttempts.value < 0 ==> r == Result.Failure(NeverCalled) && attempts == 0
    ensures maxAttempts in {None, Some(0)} && cfg.maxAttempts > 0 ==>
      1 <= attempts <= cfg.maxAttempts &&
      (r == Result.Failure(Exhausted) <==> AllRetryable(op, store, cfg.maxAttempts))
    ensures maxAttempts in {None, Some(0)} && cfg.maxAttempts == 0 ==> r == Result.Failure(NeverCalled)
    ensures maxAttempts.Some? && r == Result.Failure(Exhausted) && maxAttempts.value > 0 ==>
      attempts == maxAttempts.value
    ensures maxAttempts in {None, Some(0)} && r == Result.Failure(Exhausted) ==> attempts == cfg.maxAttempts
  {
    var limit := if maxAttempts == None || maxAttempts == Some(0) then cfg.maxAttempts else maxAttempts.value;
    after, attempts, sleeps := store, 0, [];
    while attempts < limit
      invariant after == store && AllRetryable(op, store, attempts)
      invariant attempts > 0 ==> attempts < limit
      invariant |sleeps| == attempts
      invariant forall i | 0 <= i < |sleeps| :: sleeps[i] == RetryDelay(cfg, i, draws(i))
      decreases limit - attempts
    {
      var (dirty, ending) := op(attempts, after);
      attempts := attempts + 1;
      match ending {
        case Returned(value) =>
          after := dirty;
          return Success(value), after, attempts, sleeps;
        case Foreign =>
          return Result.Failure(Unexpected), after, attempts, sleeps;
        case Permanent =>
          return Result.Failure(NotRetryable), after, attempts, sleeps;
        case Retryable =>
          if attempts == limit {
            return Result.Failure(Exhausted), after, attempts, sleeps;
          }
          sleeps := sleeps + [RetryDelay(cfg, attempts - 1, draws(attempts - 1))];
      }
    }
    r := Result.Failure(NeverCalled);
  }

  lemma {:induction false} PowerOfTwoAtLeastOne(k: nat)
    ensures Power(2.0, k) >= 1.0
  {
    if k > 0 {
      PowerOfTwoAtLeastOne(k - 1);
    }
  }

  ghost predicate NeverDecreasing(cfg: Config) {
    forall a: nat, i: real, j: real | Draw(cfg, i) && Draw(cfg, j) ::
      RetryDelay(cfg, a, i) <= RetryDelay(cfg, a + 1, j)
  }

  lemma DelayGrows(cfg: Config, a: nat, i: real, j: real)
    requires cfg.baseDelay >= 0.0 && Draw(cfg, i) && Draw(cfg, j)
    requires cfg.jitter <= cfg.baseDelay || cfg.maxDelay <= 2.0 * cfg.baseDelay
    ensures RetryDelay(cfg, a, i) <= RetryDelay(cfg, a + 1, j)
  {
    var p, q := Power(2.0, a), Power(2.0, a + 1);
    PowerOfTwoAtLeastOne(a);
    ScaledAtLeast(cfg.baseDelay, p);
    assert q == 2.0 * p;
    var x, y := cfg.baseDelay * p, cfg.baseDelay * q;
    assert y == 2.0 * x;
    CappedGrows(cfg, x, y, i, j);
  }

  lemma CappedGrows(cfg: Config, x: real, y: real, i: real, j: real)
    requires x >= cfg.baseDelay && y == 2.0 * x && Draw(cfg, i) && Draw(cfg, j)
    requires cfg.jitter <= cfg.baseDelay || cfg.maxDelay <= 2.0 * cfg.baseDelay
    ensures MinReal(x + i, cfg.maxDelay) <= MinReal(y + j, cfg.maxDelay)
  {
  }

  /** Whatever the draws, the delays never decrease exactly when the jitter is within the base delay,
      or the cap is already reached on the second retry. */
  lemma DelaysNeverDecrease(cfg: Config)
    requires cfg.baseDelay >= 0.0 && cfg.jitter >= 0.0
    ensures NeverDecreasing(cfg) <==> cfg.jitter <= cfg.baseDelay || cfg.maxDelay <= 2.0 * cfg.baseDelay
  {
    var b := cfg.baseDelay;
    if cfg.jitter <= b || cfg.maxDelay <= 2.0 * b {
      forall a: nat, i: real, j: real | Draw(cfg, i) && Draw(cfg, j)
        ensures RetryDelay(cfg, a, i) <= RetryDelay(cfg, a + 1, j)
      {
        DelayGrows(cfg, a, i, j);
      }
    } else {
      assert Draw(cfg, cfg.jitter) && Draw(cfg, 0.0);
      assert Power(2.0, 0) == 1.0 && Power(2.0, 0 + 1) == 2.0;
      assert RetryDelay(cfg, 0, cfg.jitter) > RetryDelay(cfg, 0 + 1, 0.0);
    }
  }

  lemma ScaledAtLeast(b: real, p: real)
    requires b >= 0.0 && p >= 1.0
    ensures b * p >= b
  {
    assert b * (p - 1.0) >= 0.0;
  }

  /** The shipped configuration: capped at two seconds, never decreasing, saturated from the sixth attempt on. */
  lemma DefaultDelays(attempt: nat, draw: real)
    requires Draw(DEFAULT, draw)
    ensures 0.1 <= RetryDelay(DEFAULT, attempt, draw) <= 2.0
    ensures attempt >= 5 ==> RetryDelay(DEFAULT, attempt, draw) == 2.0
    ensures NeverDecreasing(DEFAULT)
    ensures DEFAULT.maxAttempts == 3
  {
    DelaysNeverDecrease(DEFAULT);
    PowerOfTwoAtLeastOne(attempt);
    ScaledAtLeast(0.1, Power(2.0, attempt));
    if attempt >= 5 {
      PowerOfTwoAtLeastOne(attempt - 5);
      assert Power(2.0, attempt) == 2.0 * Power(2.0, attempt - 1);
      assert Power(2.0, attempt - 1) == 2.0 * Power(2.0, attempt - 2);
      assert Power(2.0, attempt - 2) == 2.0 * Power(2.0, attempt - 3);
      assert Power(2.0, attempt - 3) == 2.0 * Power(2.0, attempt - 4);
      assert Power(2.0, attempt - 4) == 2.0 * Power(2.0, attempt - 5);
    }
  }
}
