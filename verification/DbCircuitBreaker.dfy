/** The circuit breaker decorator for database calls. Each method is one section under its lock. */
module DbCircuitBreaker {
  import opened BreakerCore

  /** How the decorated function ended. */
  datatype Ending = Returned | ExpectedException | OtherException

  datatype CallResult = CircuitOpen | Ended(ending: Ending)

  class CircuitBreaker {
    const cfg: Config
    var state: Mode
    var failureCount: int
    var lastFailureTime: real
    var totalRequests: nat
    var successfulRequests: nat
    var failedRequests: nat
    var circuitOpenedCount: nat

    function View(): Core
      reads this
    {
      Core(state, failureCount, lastFailureTime)
    }

    function GetMetrics(): Metrics
      reads this
    {
      Metrics(totalRequests, successfulRequests, failedRequests, circuitOpenedCount)
    }

    /** The object's state after one event. */
    twostate predicate Took(e: Event)
      reads this
    {
      View() == Apply(cfg, old(View()), e) && GetMetrics() == Measure(cfg, old(View()), old(GetMetrics()), e)
    }

    constructor (threshold: int, timeout: real)
      ensures cfg == Config(threshold, timeout) && View() == INITIAL && GetMetrics() == NO_METRICS
      ensures state == Closed && failureCount == 0 && lastFailureTime == 0.0
      ensures totalRequests == successfulRequests == failedRequests == circuitOpenedCount == 0
    {
      cfg := Config(threshold, timeout);
      state, failureCount, lastFailureTime := Closed, 0, 0.0;
      totalRequests, successfulRequests, failedRequests, circuitOpenedCount := 0, 0, 0, 0;
    }

    method CanExecute(now: real) returns (admitted: bool)
      modifies this`state
      ensures admitted == Admits(cfg, old(View()), now)
      ensures View() == OnBegin(cfg, old(View()), now)
      ensures admitted <==> old(state).Open? ==> now > lastFailureTime + cfg.timeout
      ensures state == if old(state).Open? && admitted then HalfOpen else old(state)
    {
      if state.Open? {
        if now - lastFailureTime > cfg.timeout {
          state := HalfOpen;
          return true;
        }
        return false;
      }
      return true;
    }

    method BeginCall(now: real) returns (admitted: bool)
      modifies this
      ensures admitted == Admits(cfg, old(View()), now) && Took(Begin(now))
      ensures forall h :: old(View()) == Run(cfg, h) ==> (admitted <==> !Refuses(cfg, h, now))
    {
      totalRequests := totalRequests + 1;
      admitted := CanExecute(now);
      forall h | old(View()) == Run(cfg, h) ensures admitted <==> !Refuses(cfg, h, now) {
        RefusedExactly(cfg, h, now);
      }
    }

    method RecordSuccess()
      modifies this
      ensures Took(Succeed)
      ensures state == (if old(state).HalfOpen? then Closed else old(state)) && lastFailureTime == old(lastFailureTime)
      ensures failureCount == if old(state).HalfOpen? then 0 else old(failureCount)
    {
      successfulRequests := successfulRequests + 1;
      if state.HalfOpen? {
        state := Closed;
        failureCount := 0;
      }
    }

    method RecordFailure(now: real)
      modifies this
      ensures Took(Fail(now))
      ensures failureCount == old(failureCount) + 1 && lastFailureTime == now
      ensures state == if old(failureCount) + 1 >= cfg.threshold then Open else old(state)
    {
      failedRequests := failedRequests + 1;
      failureCount := failureCount + 1;
      lastFailureTime := now;
      if failureCount >= cfg.threshold {
        state := Open;
        circuitOpenedCount := circuitOpenedCount + 1;
      }
    }

    method ResetBreaker()
      modifies this
      ensures Took(Reset)
      ensures state == Closed && failureCount == 0 && lastFailureTime == 0.0
      ensures totalRequests == successfulRequests == failedRequests == circuitOpenedCount == 0
    {
      failureCount := 0;
      lastFailureTime := 0.0;
      state := Closed;
      totalRequests, successfulRequests, failedRequests, circuitOpenedCount := 0, 0, 0, 0;
    }

    /** One whole call with nothing interleaved: the events it contributes to the history. */
    method Execute(begun: real, ending: Ending, finished: real) returns (r: CallResult)
      modifies this
      ensures r == if Admits(cfg, old(View()), begun) then Ended(ending) else CircuitOpen
      ensures forall h :: old(View()) == Run(cfg, h) ==> (r == CircuitOpen <==> Refuses(cfg, h, begun))
      ensures totalRequests == old(totalRequests) + 1
      ensures successfulRequests == old(successfulRequests) + (if r == Ended(Returned) then 1 else 0)
      ensures failedRequests == old(failedRequests) + (if r == Ended(ExpectedException) then 1 else 0)
      ensures forall h :: old(View()) == Run(cfg, h) && old(GetMetrics()) == RunMetrics(cfg, h) ==>
        var after := h + Events(cfg, old(View()), begun, ending, finished);
        View() == Run(cfg, after) && GetMetrics() == RunMetrics(cfg, after)
    {
      ghost var before := View();
      ghost var counted := GetMetrics();
      var admitted := BeginCall(begun);
      if !admitted {
        r := CircuitOpen;
      } else {
        match ending {
          case Returned => RecordSuccess();
          case ExpectedException => RecordFailure(finished);
          case OtherException =>
        }
        r := Ended(ending);
      }
      forall h | before == Run(cfg, h) && counted == RunMetrics(cfg, h)
        ensures var after := h + Events(cfg, before, begun, ending, finished);
          View() == Run(cfg, after) && GetMetrics() == RunMetrics(cfg, after)
      {
        RunOne(cfg, h, Begin(begun));
        if admitted {
          var last := Finish(ending, finished);
          RunOne(cfg, h + [Begin(begun)], last);
          assert h + [Begin(begun)] + [last] == h + [Begin(begun), last];
        }
      }
    }
  }

  function Finish(ending: Ending, finished: real): Event {
    match ending
    case Returned => Succeed
    case ExpectedException => Fail(finished)
    case OtherException => Abort
  }

  function Events(cfg: Config, c: Core, begun: real, ending: Ending, finished: real): seq<Event> {
    if Admits(cfg, c, begun) then [Begin(begun), Finish(ending, finished)] else [Begin(begun)]
  }

  lemma RunOne(cfg: Config, h: seq<Event>, e: Event)
    ensures Run(cfg, h + [e]) == Apply(cfg, Run(cfg, h), e)
    ensures RunMetrics(cfg, h + [e]) == Measure(cfg, Run(cfg, h), RunMetrics(cfg, h), e)
  {
    assert (h + [e])[..|h|] == h;
  }
}
