/** The circuit breaker as a state machine over interleaved calls. The lock is released while a call runs,
    so beginning and finishing are separate events and a call may finish in another mode than it began in. */
module BreakerCore {

  datatype Config = Config(threshold: int, timeout: real)

  datatype Mode = Closed | Open | HalfOpen

  datatype Core = Core(mode: Mode, failures: int, lastFailure: real)

  /** Abort is the end of a call by an exception the breaker does not expect. */
  datatype Event = Begin(now: real) | Succeed | Fail(now: real) | Abort | Reset

  const INITIAL := Core(Closed, 0, 0.0)

  predicate Admits(cfg: Config, c: Core, now: real) {
    c.mode.Open? ==> now - c.lastFailure > cfg.timeout
  }

  function OnBegin(cfg: Config, c: Core, now: real): Core {
    if c.mode.Open? && now - c.lastFailure > cfg.timeout then c.(mode := HalfOpen) else c
  }

  function OnSuccess(c: Core): Core {
    if c.mode.HalfOpen? then c.(mode := Closed, failures := 0) else c
  }

  function OnFailure(cfg: Config, c: Core, now: real): Core {
    Core(if c.failures + 1 >= cfg.threshold then Open else c.mode, c.failures + 1, now)
  }

  function Apply(cfg: Config, c: Core, e: Event): Core {
    match e
    case Begin(now) => OnBegin(cfg, c, now)
    case Succeed => OnSuccess(c)
    case Fail(now) => OnFailure(cfg, c, now)
    case Abort => c
    case Reset => INITIAL
  }

  /** The breaker after a history of events. */
  function Run(cfg: Config, h: seq<Event>): Core {
    if h == [] then INITIAL else Apply(cfg, Run(cfg, h[..|h| - 1]), h[|h| - 1])
  }

  predicate Timed(e: Event) {
    e.Begin? || e.Fail?
  }

  ghost predicate Forward(h: seq<Event>) {
    forall i, j | 0 <= i < j < |h| && Timed(h[i]) && Timed(h[j]) :: h[i].now <= h[j].now
  }

  predicate AdmitsAt(cfg: Config, h: seq<Event>, i: nat)
    requires i < |h| && h[i].Begin?
  {
    Admits(cfg, Run(cfg, h[..i]), h[i].now)
  }

  // ---- The quiet period after the breaker opens ----

  lemma {:induction false} StaysOpen(cfg: Config, h: seq<Event>, f: nat, k: nat)
    requires f < k <= |h| && h[f].Fail? && Run(cfg, h[..f + 1]).mode.Open? && Forward(h)
    requires forall i | f < i < k :: !h[i].Reset? && (Timed(h[i]) ==> h[i].now <= h[f].now + cfg.timeout)
    ensures Run(cfg, h[..k]).mode.Open? && Run(cfg, h[..k]).lastFailure >= h[f].now
    decreases k
  {
    if k == f + 1 {
      assert h[..k][..f] == h[..f];
    } else {
      StaysOpen(cfg, h, f, k - 1);
      assert h[..k][..k - 1] == h[..k - 1];
      var c := Run(cfg, h[..k - 1]);
      assert Run(cfg, h[..k]) == Apply(cfg, c, h[k - 1]);
      OpenStep(cfg, c, h[k - 1], h[f].now);
    }
  }

  lemma OpenStep(cfg: Config, c: Core, e: Event, f: real)
    requires c.mode.Open? && c.lastFailure >= f && !e.Reset?
    requires Timed(e) ==> f <= e.now <= f + cfg.timeout
    ensures Apply(cfg, c, e).mode == (if e.Fail? && c.failures + 1 < cfg.threshold then c.mode else Open)
    ensures Apply(cfg, c, e).lastFailure >= f
  {
  }

  /** After a failure at time f that leaves the breaker open, no call is admitted up to and including
      f + timeout, whatever other calls begin or finish in between, short of a reset. */
  lemma QuietPeriod(cfg: Config, h: seq<Event>, f: nat, b: nat)
    requires f < b < |h| && h[f].Fail? && Run(cfg, h[..f + 1]).mode.Open? && Forward(h)
    requires h[b].Begin? && h[b].now <= h[f].now + cfg.timeout
    requires forall i | f < i < b :: !h[i].Reset?
    ensures !AdmitsAt(cfg, h, b)
  {
    StaysOpen(cfg, h, f, b);
  }

  // ---- The mode as a function of the history ----

  /** Event i closed the circuit again, or reset it. */
  predicate Restarts(cfg: Config, h: seq<Event>, i: nat)
    requires i < |h|
  {
    h[i].Reset? || (h[i].Succeed? && Run(cfg, h[..i]).mode.HalfOpen?)
  }

  function FailuresFrom(h: seq<Event>, k: nat): nat
    requires k <= |h|
    decreases |h|
  {
    if k == |h| then 0
    else FailuresFrom(h[..|h| - 1], k) + (if h[|h| - 1].Fail? then 1 else 0)
  }

  /** A call has been admitted since the last failure or reset. */
  predicate Probing(cfg: Config, h: seq<Event>) {
    h != [] &&
    match h[|h| - 1]
    case Begin(now) => Admits(cfg, Run(cfg, h[..|h| - 1]), now) || Probing(cfg, h[..|h| - 1])
    case Fail(_) => false
    case Reset => false
    case _ => Probing(cfg, h[..|h| - 1])
  }

  /** The failure count is the number of failures since the last restart. */
  lemma {:induction false} FailuresSinceRestart(cfg: Config, h: seq<Event>, k: nat)
    requires k <= |h| && (k == 0 || Restarts(cfg, h, k - 1))
    requires forall i | k <= i < |h| :: !Restarts(cfg, h, i)
    ensures Run(cfg, h).failures == FailuresFrom(h, k)
  {
    if k < |h| {
      var front := h[..|h| - 1];
      forall i | 0 <= i < |front| ensures Restarts(cfg, front, i) == Restarts(cfg, h, i) {
        assert front[..i] == h[..i];
      }
      FailuresSinceRestart(cfg, front, k);
      assert !Restarts(cfg, h, |h| - 1);
    } else if k > 0 {
      assert h[..k - 1] == h[..|h| - 1];
    }
  }

  /** With a positive threshold the count and the probe decide the mode, in every reachable state. */
  lemma {:induction false} ModeByHistory(cfg: Config, h: seq<Event>)
    requires cfg.threshold >= 1
    ensures var c := Run(cfg, h);
      && c.failures >= 0
      && c.mode == if c.failures < cfg.threshold then Closed else if Probing(cfg, h) then HalfOpen else Open
  {
    if h != [] {
      ModeByHistory(cfg, h[..|h| - 1]);
    }
  }

  /** That CLOSED means fewer failures than the threshold holds throughout exactly for positive thresholds. */
  lemma ClosedBelowThreshold(cfg: Config)
    ensures (forall h :: Run(cfg, h).mode.Closed? <==> Run(cfg, h).failures < cfg.threshold) <==> cfg.threshold >= 1
  {
    if cfg.threshold >= 1 {
      forall h ensures Run(cfg, h).mode.Closed? <==> Run(cfg, h).failures < cfg.threshold {
        ModeByHistory(cfg, h);
      }
    } else {
      assert Run(cfg, []) == INITIAL;
    }
  }

  // ---- Refusal and recovery, read off the events alone ----

  /** The times of the failures since the last reset, or success after a probe. */
  function FailureTimes(cfg: Config, h: seq<Event>): seq<real>
    decreases |h|, 0
  {
    if h == [] then []
    else
      var front := h[..|h| - 1];
      match h[|h| - 1]
      case Fail(now) => FailureTimes(cfg, front) + [now]
      case Reset => []
      case Succeed => if Tripped(cfg, front) && Probed(cfg, front) then [] else FailureTimes(cfg, front)
      case _ => FailureTimes(cfg, front)
  }

  /** The failures have reached the threshold. */
  predicate Tripped(cfg: Config, h: seq<Event>)
    decreases |h|, 1
  {
    |FailureTimes(cfg, h)| >= 1 && |FailureTimes(cfg, h)| >= cfg.threshold
  }

  /** Some call has begun more than the timeout after the last failure, and after no other failure. */
  predicate Probed(cfg: Config, h: seq<Event>) {
    exists f, b :: 0 <= f < b < |h| && h[f].Fail? && h[b].Begin? && LastFailure(h, f)
      && h[b].now - h[f].now > cfg.timeout
  }

  predicate LastFailure(h: seq<Event>, f: nat) {
    forall i | f < i < |h| :: !h[i].Fail?
  }

  lemma {:induction false} FailureTimesFacts(cfg: Config, h: seq<Event>)
    ensures var times, c := FailureTimes(cfg, h), Run(cfg, h);
      && c.failures == |times| && (times != [] ==> c.lastFailure == times[|times| - 1])
      && (times != [] ==> exists f :: 0 <= f < |h| && h[f].Fail? && LastFailure(h, f) && h[f].now == c.lastFailure)
      && c.mode == if !Tripped(cfg, h) then Closed else if Probed(cfg, h) then HalfOpen else Open
  {
    if h != [] {
      var front, last := h[..|h| - 1], h[|h| - 1];
      FailureTimesFacts(cfg, front);
      ProbedStep(cfg, front, last);
      assert front + [last] == h;
      if last.Fail? {
        assert LastFailure(h, |h| - 1);
      } else if FailureTimes(cfg, front) != [] {
        var f :| 0 <= f < |front| && front[f].Fail? && LastFailure(front, f)
          && front[f].now == Run(cfg, front).lastFailure;
        assert h[f] == front[f] && LastFailure(h, f);
      }
    }
  }

  lemma ProbedStep(cfg: Config, h: seq<Event>, e: Event)
    ensures e.Fail? ==> !Probed(cfg, h + [e])
    ensures !e.Fail? && !e.Begin? ==> Probed(cfg, h + [e]) == Probed(cfg, h)
    ensures e.Begin? ==> forall f | 0 <= f < |h| && h[f].Fail? && LastFailure(h, f) ::
      Probed(cfg, h + [e]) <==> Probed(cfg, h) || e.now - h[f].now > cfg.timeout
  {
    var next := h + [e];
    forall f | 0 <= f < |h| ensures LastFailure(next, f) <==> LastFailure(h, f) && !e.Fail? {
      if LastFailure(next, f) {
        assert forall i | f < i < |h| :: next[i] == h[i];
        assert next[|h|] == e;
      }
    }
    if f, b :| 0 <= f < b < |h| && h[f].Fail? && h[b].Begin? && LastFailure(h, f) && h[b].now - h[f].now > cfg.timeout {
      assert next[f] == h[f] && next[b] == h[b];
    }
    if e.Begin? {
      forall f | 0 <= f < |h| && h[f].Fail? && LastFailure(h, f) && e.now - h[f].now > cfg.timeout
        ensures Probed(cfg, next)
      {
        assert next[f] == h[f] && next[|h|] == e;
      }
    }
  }

  /** A call beginning now would be refused: the failures have reached the threshold, and neither this nor any other
      call has begun more than the timeout after the last of them. */
  predicate Refuses(cfg: Config, h: seq<Event>, now: real) {
    Tripped(cfg, h) && !Probed(cfg, h + [Begin(now)])
  }

  /** For every threshold and every history, also with a clock that runs backwards, these are the refusals. */
  lemma RefusedExactly(cfg: Config, h: seq<Event>, now: real)
    ensures Admits(cfg, Run(cfg, h), now) <==> !Refuses(cfg, h, now)
    ensures OnBegin(cfg, Run(cfg, h), now).mode ==
      if !Tripped(cfg, h) then Closed else if Refuses(cfg, h, now) then Open else HalfOpen
  {
    FailureTimesFacts(cfg, h);
    ProbedStep(cfg, h, Begin(now));
  }

  /** A success closes the breaker, and the count starts from zero, exactly if it was tripped and a call has begun
      more than the timeout after the last failure; otherwise it changes nothing. */
  lemma SuccessCloses(cfg: Config, h: seq<Event>)
    ensures var before, after := Run(cfg, h), Run(cfg, h + [Succeed]);
      if Tripped(cfg, h) && Probed(cfg, h) then after.mode == Closed && after.failures == 0 else after == before
  {
    FailureTimesFacts(cfg, h);
    assert (h + [Succeed])[..|h|] == h;
  }

  /** So a breaker that has opened recovers: the first call more than the timeout after the last failure is let
      through, and its success closes the breaker. */
  lemma Recovers(cfg: Config, h: seq<Event>, f: nat, now: real)
    requires f < |h| && h[f].Fail? && LastFailure(h, f) && now - h[f].now > cfg.timeout
    ensures Admits(cfg, Run(cfg, h), now)
    ensures Tripped(cfg, h) ==>
      && Run(cfg, h + [Begin(now)]).mode == HalfOpen
      && Run(cfg, h + [Begin(now), Succeed]).mode == Closed && Run(cfg, h + [Begin(now), Succeed]).failures == 0
  {
    RefusedExactly(cfg, h, now);
    ProbedStep(cfg, h, Begin(now));
    var begun := h + [Begin(now)];
    assert begun[..|h|] == h;
    assert begun + [Succeed] == h + [Begin(now), Succeed];
    assert (begun + [Succeed])[..|begun|] == begun;
  }

  // ---- Metrics ----

  datatype Metrics = Metrics(total: nat, successful: nat, failed: nat, openings: nat)

  const NO_METRICS := Metrics(0, 0, 0, 0)

  function Measure(cfg: Config, c: Core, m: Metrics, e: Event): Metrics {
    match e
    case Begin(_) => m.(total := m.total + 1)
    case Succeed => m.(successful := m.successful + 1)
    case Fail(_) =>
      m.(failed := m.failed + 1, openings := m.openings + (if c.failures + 1 >= cfg.threshold then 1 else 0))
    case Abort => m
    case Reset => NO_METRICS
  }

  function RunMetrics(cfg: Config, h: seq<Event>): Metrics {
    if h == [] then NO_METRICS
    else Measure(cfg, Run(cfg, h[..|h| - 1]), RunMetrics(cfg, h[..|h| - 1]), h[|h| - 1])
  }

  predicate Blocked(cfg: Config, h: seq<Event>, i: nat) {
    i < |h| && h[i].Begin? && !AdmitsAt(cfg, h, i)
  }

  /** The calls admitted and not yet finished. */
  function InFlight(cfg: Config, h: seq<Event>): int {
    if h == [] then 0
    else
      var n := |h| - 1;
      InFlight(cfg, h[..n]) +
      match h[n]
      case Begin(_) => if Blocked(cfg, h, n) then 0 else 1
      case Reset => 0
      case _ => -1
  }

  function Aborts(h: seq<Event>, k: nat): nat
    requires k <= |h|
    decreases |h|
  {
    if k == |h| then 0 else Aborts(h[..|h| - 1], k) + (if h[|h| - 1].Abort? then 1 else 0)
  }

  function BlockedFrom(cfg: Config, h: seq<Event>, k: nat): nat
    requires k <= |h|
    decreases |h|
  {
    if k == |h| then 0
    else BlockedFrom(cfg, h[..|h| - 1], k) + (if Blocked(cfg, h, |h| - 1) then 1 else 0)
  }

  /** The failures from position k on that found or made the count reach the threshold. */
  function OpeningsFrom(cfg: Config, h: seq<Event>, k: nat): nat
    requires k <= |h|
    decreases |h|
  {
    if k == |h| then 0
    else
      OpeningsFrom(cfg, h[..|h| - 1], k) +
      (if h[|h| - 1].Fail? && Run(cfg, h).failures >= cfg.threshold then 1 else 0)
  }

  function BeginsFrom(h: seq<Event>, k: nat): nat
    requires k <= |h|
    decreases |h|
  {
    if k == |h| then 0 else BeginsFrom(h[..|h| - 1], k) + (if h[|h| - 1].Begin? then 1 else 0)
  }

  function SuccessesFrom(h: seq<Event>, k: nat): nat
    requires k <= |h|
    decreases |h|
  {
    if k == |h| then 0 else SuccessesFrom(h[..|h| - 1], k) + (if h[|h| - 1].Succeed? then 1 else 0)
  }

  /** Every request counted since the last reset is accounted for: it succeeded, failed, was blocked, was aborted,
      or is in flight. Calls that were in flight at the reset finish on top of that. */
  lemma {:induction false} RequestsAccountedFor(cfg: Config, h: seq<Event>, k: nat)
    requires k <= |h| && (k == 0 || h[k - 1].Reset?)
    requires forall i | k <= i < |h| :: !h[i].Reset?
    ensures var m := RunMetrics(cfg, h);
      && m.total + InFlight(cfg, h[..k])
           == m.successful + m.failed + BlockedFrom(cfg, h, k) + Aborts(h, k) + InFlight(cfg, h)
      && m.total == BeginsFrom(h, k) && m.successful == SuccessesFrom(h, k) && m.failed == FailuresFrom(h, k)
      && m.openings == OpeningsFrom(cfg, h, k)
  {
    if k < |h| {
      var front := h[..|h| - 1];
      RequestsAccountedFor(cfg, front, k);
      assert front[..k] == h[..k];
      assert Run(cfg, h) == Apply(cfg, Run(cfg, front), h[|h| - 1]);
    } else {
      assert h[..k] == h;
    }
  }

  // ---- Openings and failures in a row, and what the counters make of them ----

  /** Event i took the breaker from another mode to OPEN. */
  predicate Opens(cfg: Config, h: seq<Event>, i: nat)
    requires i < |h|
  {
    !Run(cfg, h[..i]).mode.Open? && Run(cfg, h[..i + 1]).mode.Open?
  }

  function TransitionsFrom(cfg: Config, h: seq<Event>, k: nat): nat
    requires k <= |h|
    decreases |h|
  {
    if k == |h| then 0
    else TransitionsFrom(cfg, h[..|h| - 1], k) + (if Opens(cfg, h, |h| - 1) then 1 else 0)
  }

  /** A failure recorded while the breaker is open already, by a call admitted earlier. */
  predicate Late(cfg: Config, h: seq<Event>, i: nat)
    requires i < |h|
  {
    h[i].Fail? && Run(cfg, h[..i]).mode.Open?
  }

  function LateFrom(cfg: Config, h: seq<Event>, k: nat): nat
    requires k <= |h|
    decreases |h|
  {
    if k == |h| then 0
    else LateFrom(cfg, h[..|h| - 1], k) + (if Late(cfg, h, |h| - 1) then 1 else 0)
  }

  lemma {:induction false} OpenMeansReached(cfg: Config, h: seq<Event>)
    ensures Run(cfg, h).failures >= 0
    ensures Run(cfg, h).mode.Open? ==> Run(cfg, h).failures >= cfg.threshold
  {
    if h != [] {
      OpenMeansReached(cfg, h[..|h| - 1]);
    }
  }

  lemma {:induction false} OpeningsSplit(cfg: Config, h: seq<Event>, k: nat)
    requires k <= |h|
    ensures OpeningsFrom(cfg, h, k) == TransitionsFrom(cfg, h, k) + LateFrom(cfg, h, k)
    decreases |h|
  {
    if k < |h| {
      OpeningsSplit(cfg, h[..|h| - 1], k);
      OpenMeansReached(cfg, h[..|h| - 1]);
      assert h[..|h|] == h;
    }
  }

  /** The opening counter is the number of transitions to OPEN and of late failures together, since the last reset. */
  lemma OpeningsAreTransitionsAndLateFailures(cfg: Config, h: seq<Event>, k: nat)
    requires k <= |h| && (k == 0 || h[k - 1].Reset?)
    requires forall i | k <= i < |h| :: !h[i].Reset?
    ensures RunMetrics(cfg, h).openings == TransitionsFrom(cfg, h, k) + LateFrom(cfg, h, k)
  {
    RequestsAccountedFor(cfg, h, k);
    OpeningsSplit(cfg, h, k);
  }

  lemma {:induction false} NoneLate(cfg: Config, h: seq<Event>, k: nat)
    requires k <= |h|
    ensures LateFrom(cfg, h, k) == 0 <==> forall i | k <= i < |h| :: !Late(cfg, h, i)
    decreases |h|
  {
    if k < |h| {
      var front := h[..|h| - 1];
      NoneLate(cfg, front, k);
      forall i | 0 <= i < |front| ensures Late(cfg, front, i) == Late(cfg, h, i) {
        assert front[..i] == h[..i];
      }
    }
  }

  /** The counter says how often the breaker opened since the last reset exactly when no failure was recorded while
      it was open. */
  lemma OpeningsExactUnlessLate(cfg: Config, h: seq<Event>, k: nat)
    requires k <= |h| && (k == 0 || h[k - 1].Reset?)
    requires forall i | k <= i < |h| :: !h[i].Reset?
    ensures RunMetrics(cfg, h).openings == TransitionsFrom(cfg, h, k) <==> forall i | k <= i < |h| :: !Late(cfg, h, i)
  {
    OpeningsAreTransitionsAndLateFailures(cfg, h, k);
    NoneLate(cfg, h, k);
  }

  /** Two calls under way fail one after the other: one opening, counted twice. */
  lemma OneOpeningCountedTwice(t: real)
    ensures var h := [Begin(t), Begin(t), Fail(t), Fail(t)];
      RunMetrics(Config(1, 60.0), h).openings == 2 && TransitionsFrom(Config(1, 60.0), h, 0) == 1
  {
    var cfg, begun := Config(1, 60.0), [Begin(t), Begin(t)];
    OneMore(cfg, [], Begin(t));
    OneMore(cfg, [Begin(t)], Begin(t));
    OneMore(cfg, begun, Fail(t));
    OneMore(cfg, begun + [Fail(t)], Fail(t));
    assert [Begin(t)] + [Begin(t)] == begun;
    assert begun + [Fail(t)] + [Fail(t)] == [Begin(t), Begin(t), Fail(t), Fail(t)];
  }

  lemma OneMore(cfg: Config, h: seq<Event>, e: Event)
    ensures Run(cfg, h + [e]) == Apply(cfg, Run(cfg, h), e)
    ensures TransitionsFrom(cfg, h + [e], 0) ==
      TransitionsFrom(cfg, h, 0) + (if !Run(cfg, h).mode.Open? && Run(cfg, h + [e]).mode.Open? then 1 else 0)
    ensures RunMetrics(cfg, h + [e]) == Measure(cfg, Run(cfg, h), RunMetrics(cfg, h), e)
  {
    assert (h + [e])[..|h|] == h && (h + [e])[..|h| + 1] == h + [e];
  }

  /** The failures since the last success or reset. */
  function Consecutive(h: seq<Event>): nat {
    if h == [] then 0
    else
      match h[|h| - 1]
      case Fail(_) => Consecutive(h[..|h| - 1]) + 1
      case Succeed => 0
      case Reset => 0
      case _ => Consecutive(h[..|h| - 1])
  }

  /** Since position k no success has followed a failure. */
  predicate Unbroken(h: seq<Event>, k: nat) {
    forall i, j | k <= i < j < |h| && h[i].Fail? :: !h[j].Succeed?
  }

  lemma {:induction false} SomeFailure(h: seq<Event>, k: nat)
    requires k <= |h|
    ensures FailuresFrom(h, k) > 0 <==> exists i :: k <= i < |h| && h[i].Fail?
    decreases |h|
  {
    if k < |h| {
      SomeFailure(h[..|h| - 1], k);
    }
  }

  /** The failures since k are consecutive ones exactly when no success came between or after them. */
  lemma {:induction false} ConsecutiveUnlessBroken(h: seq<Event>, k: nat)
    requires k <= |h| && (k == 0 || h[k - 1].Succeed? || h[k - 1].Reset?)
    requires forall i | k <= i < |h| :: !h[i].Reset?
    ensures Consecutive(h) <= FailuresFrom(h, k)
    ensures Consecutive(h) == FailuresFrom(h, k) <==> Unbroken(h, k)
    decreases |h|
  {
    if k < |h| {
      var front, last := h[..|h| - 1], h[|h| - 1];
      ConsecutiveUnlessBroken(front, k);
      SomeFailure(front, k);
      if last.Succeed? {
        assert Unbroken(h, k) <==> FailuresFrom(front, k) == 0;
      } else {
        assert Unbroken(h, k) <==> Unbroken(front, k);
      }
    }
  }

  /** What the breaker counts as failures is the number in a row exactly when no success has come since the first
      failure after the last restart; successes of a closed breaker do not clear the count. */
  lemma CountsConsecutiveExactly(cfg: Config, h: seq<Event>, k: nat)
    requires k <= |h| && (k == 0 || Restarts(cfg, h, k - 1))
    requires forall i | k <= i < |h| :: !Restarts(cfg, h, i)
    ensures Consecutive(h) <= Run(cfg, h).failures
    ensures Run(cfg, h).failures == Consecutive(h) <==> Unbroken(h, k)
  {
    FailuresSinceRestart(cfg, h, k);
    assert forall i | k <= i < |h| :: h[i].Reset? ==> Restarts(cfg, h, i);
    ConsecutiveUnlessBroken(h, k);
  }

  /** A threshold of two is reached by single failures with a success between them. */
  lemma OpensWithoutFailuresInARow(t: real)
    ensures var h := [Fail(t), Succeed, Fail(t)];
      Run(Config(2, 60.0), h).mode.Open? && Run(Config(2, 60.0), h).failures == 2 && Consecutive(h) == 1
  {
    var cfg, h := Config(2, 60.0), [Fail(t), Succeed, Fail(t)];
    assert h[..2][..1] == h[..1] && h[..1][..0] == [];
    assert Run(cfg, h[..1]) == Core(Closed, 1, t) && Run(cfg, h[..2]) == Core(Closed, 1, t);
  }
}
