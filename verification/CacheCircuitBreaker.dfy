/** The cache's own circuit breaker, and the counters of the wrapper that every cache operation runs in. */
module CacheCircuitBreaker {
  import opened BreakerCore
  import opened Wrappers

  class CircuitBreaker {
    const cfg: Config
    var state: Mode
    var failures: int
    var lastFailureTime: Option<real>

    /** An open breaker has recorded a failure. */
    predicate Valid()
      reads this
    {
      state.Open? ==> lastFailureTime.Some?
    }

    function View(): Core
      reads this
    {
      Core(state, failures, if lastFailureTime.Some? then lastFailureTime.value else 0.0)
    }

    constructor (threshold: int, timeout: real)
      ensures Valid() && cfg == Config(threshold, timeout) && View() == INITIAL
      ensures state == Closed && failures == 0 && lastFailureTime == None
    {
      cfg := Config(threshold, timeout);
      state, failures, lastFailureTime := Closed, 0, None;
    }

    method CanExecute(now: real) returns (admitted: bool)
      requires Valid()
      modifies this`state
      ensures Valid()
      ensures admitted == Admits(cfg, old(View()), now) && View() == OnBegin(cfg, old(View()), now)
      ensures admitted <==> old(state).Open? ==> now > lastFailureTime.value + cfg.timeout
      ensures state == if old(state).Open? && admitted then HalfOpen else old(state)
      ensures forall h :: old(View()) == Run(cfg, h) ==> (admitted <==> !Refuses(cfg, h, now))
    {
      forall h | View() == Run(cfg, h) ensures Admits(cfg, View(), now) <==> !Refuses(cfg, h, now) {
        RefusedExactly(cfg, h, now);
      }
      if state.Open? {
        if lastFailureTime.Some? && now - lastFailureTime.value > cfg.timeout {
          state := HalfOpen;
          return true;
        }
        return false;
      }
      return true;
    }

    method RecordSuccess()
      requires Valid()
      modifies this
      ensures Valid() && View() == OnSuccess(old(View()))
      ensures state == (if old(state).HalfOpen? then Closed else old(state)) && lastFailureTime == old(lastFailureTime)
      ensures failures == if old(state).HalfOpen? then 0 else old(failures)
    {
      if state.HalfOpen? {
        state := Closed;
        failures := 0;
      }
    }

    method RecordFailure(now: real)
      requires Valid()
      modifies this
      ensures Valid() && View() == OnFailure(cfg, old(View()), now)
      ensures failures == old(failures) + 1 && lastFailureTime == Some(now)
      ensures state == if old(failures) + 1 >= cfg.threshold then Open else old(state)
    {
      failures := failures + 1;
      lastFailureTime := Some(now);
      if failures >= cfg.threshold {
        state := Open;
      }
    }
  }

  /** The wrapper's counters. */
  datatype Counters = Counters(successful: nat, failed: nat, trips: nat)

  const ZERO := Counters(0, 0, 0)

  function Tally(cfg: Config, c: Core, n: Counters, e: Event): Counters {
    match e
    case Begin(now) => if Admits(cfg, c, now) then n else n.(failed := n.failed + 1)
    case Succeed => n.(successful := n.successful + 1)
    case Fail(now) =>
      n.(failed := n.failed + 1, trips := n.trips + (if OnFailure(cfg, c, now).mode.Open? then 1 else 0))
    case Abort => n
    case Reset => n
  }

  function RunTally(cfg: Config, h: seq<Event>): Counters {
    if h == [] then ZERO
    else Tally(cfg, Run(cfg, h[..|h| - 1]), RunTally(cfg, h[..|h| - 1]), h[|h| - 1])
  }

  /** Everything a cache operation does to the wrapper, split where the operation awaits. */
  class Executor {
    const breaker: CircuitBreaker
    var successfulOperations: nat
    var failedOperations: nat
    var circuitBreakerTrips: nat

    function Counted(): Counters
      reads this
    {
      Counters(successfulOperations, failedOperations, circuitBreakerTrips)
    }

    constructor (breaker: CircuitBreaker)
      ensures this.breaker == breaker && Counted() == ZERO
    {
      this.breaker := breaker;
      successfulOperations, failedOperations, circuitBreakerTrips := 0, 0, 0;
    }

    method BeginOperation(now: real) returns (admitted: bool)
      requires breaker.Valid()
      modifies this, breaker
      ensures breaker.Valid() && breaker.View() == Apply(breaker.cfg, old(breaker.View()), Begin(now))
      ensures admitted == Admits(breaker.cfg, old(breaker.View()), now)
      ensures forall h :: old(breaker.View()) == Run(breaker.cfg, h) ==> (admitted <==> !Refuses(breaker.cfg, h, now))
      ensures Counted() == Tally(breaker.cfg, old(breaker.View()), old(Counted()), Begin(now))
    {
      admitted := breaker.CanExecute(now);
      if !admitted {
        failedOperations := failedOperations + 1;
      }
    }

    method OperationSucceeded()
      requires breaker.Valid()
      modifies this, breaker
      ensures breaker.Valid() && breaker.View() == Apply(breaker.cfg, old(breaker.View()), Succeed)
      ensures Counted() == Tally(breaker.cfg, old(breaker.View()), old(Counted()), Succeed)
    {
      breaker.RecordSuccess();
      successfulOperations := successfulOperations + 1;
    }

    /** Also the path of an operation that finds no connection. */
    method OperationFailed(now: real)
      requires breaker.Valid()
      modifies this, breaker
      ensures breaker.Valid() && breaker.View() == Apply(breaker.cfg, old(breaker.View()), Fail(now))
      ensures Counted() == Tally(breaker.cfg, old(breaker.View()), old(Counted()), Fail(now))
    {
      breaker.RecordFailure(now);
      failedOperations := failedOperations + 1;
      if breaker.state.Open? {
        circuitBreakerTrips := circuitBreakerTrips + 1;
      }
    }
  }

  /** For every threshold the failure counter counts failures and refusals alike, and the trip counter the failures
      at or above the threshold: the times the breaker opened and the failures that came later than that. */
  lemma {:induction false} CountersAddUp(cfg: Config, h: seq<Event>)
    requires forall i | 0 <= i < |h| :: !h[i].Reset?
    ensures RunTally(cfg, h).successful == SuccessesFrom(h, 0)
    ensures RunTally(cfg, h).failed == FailuresFrom(h, 0) + BlockedFrom(cfg, h, 0)
    ensures RunTally(cfg, h).trips == OpeningsFrom(cfg, h, 0)
    ensures RunTally(cfg, h).trips == TransitionsFrom(cfg, h, 0) + LateFrom(cfg, h, 0)
  {
    if h != [] {
      CountersAddUp(cfg, h[..|h| - 1]);
      OpenMeansReached(cfg, h[..|h| - 1]);
      OpenMeansReached(cfg, h);
      assert h[..|h| - 1] + [h[|h| - 1]] == h;
    }
    OpeningsSplit(cfg, h, 0);
  }
}
