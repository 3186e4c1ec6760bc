/** The sliding-window rate limiter: a pruned, expiring list of stamps per key. */
module RateLimiter {
  import opened Wrappers
  import opened TtlCache
  import CacheKeys

  datatype Config = Config(maxRequests: int, window: nat)

  datatype WindowData = WindowData(requests: seq<real>)

  datatype Details = Details(limit: int, remaining: int, resetTime: int, currentRequests: int)

  datatype Verdict = Verdict(allowed: bool, details: Details)

  /** The stamps at or after `start`, in order. */
  function Recent(stamps: seq<real>, start: real): seq<real> {
    if stamps == [] then []
    else
      var n := |stamps| - 1;
      Recent(stamps[..n], start) + (if stamps[n] >= start then [stamps[n]] else [])
  }

  function Start(cfg: Config, now: real): real {
    now - cfg.window as real
  }

  function Remaining(cfg: Config, count: int): int {
    if cfg.maxRequests - count > 0 then cfg.maxRequests - count else 0
  }

  // Python's int() truncates toward zero.
  function Truncate(x: real): int {
    if x >= 0.0 then x.Floor else -(-x).Floor
  }

  function Describe(cfg: Config, count: int, now: real): Details {
    Details(cfg.maxRequests, Remaining(cfg, count), Truncate(now + cfg.window as real), count)
  }

  /** What each reported field means, for a number of requests counted at a time. */
  ghost predicate Reports(cfg: Config, d: Details, counted: int, now: real) {
    && d.limit == cfg.maxRequests
    && d.currentRequests == counted
    && d.remaining >= 0
    && (counted <= cfg.maxRequests ==> d.remaining + counted == cfg.maxRequests)
    && (counted > cfg.maxRequests ==> d.remaining == 0)
    && (now >= 0.0 ==> d.resetTime as real <= now + cfg.window as real < (d.resetTime + 1) as real)
  }

  // ---- The limiter over the cache ----

  function StoredRequests(s: Store<WindowData>, key: string, now: real): seq<real> {
    match Lookup(s, key, now)
    case Some(data) => data.requests
    case None => []
  }

  function Count(cfg: Config, s: Store<WindowData>, key: string, now: real): nat {
    |Recent(StoredRequests(s, key, now), Start(cfg, now))|
  }

  function Add(cfg: Config, s: Store<WindowData>, key: string, now: real): Store<WindowData> {
    Put(s, key, WindowData(Recent(StoredRequests(s, key, now) + [now], Start(cfg, now))), cfg.window, now)
  }

  function Check(cfg: Config, s: Store<WindowData>, key: string, now: real): (Store<WindowData>, Verdict) {
    var count := Count(cfg, s, key, now);
    if count < cfg.maxRequests then (Add(cfg, s, key, now), Verdict(true, Describe(cfg, count + 1, now)))
    else (s, Verdict(false, Describe(cfg, count, now)))
  }

  function LimiterKey(prefix: string, identifier: string, action: string): string {
    prefix + ":" + action + ":" + identifier
  }

  class RateLimiter {
    const cache: AsyncCache<WindowData>
    const prefix: string
    var checks: nat
    var allowed: nat
    var denied: nat

    constructor (cache: AsyncCache<WindowData>, prefix: string)
      ensures this.cache == cache && this.prefix == prefix
      ensures checks == allowed == denied == 0
    {
      this.cache, this.prefix := cache, prefix;
      checks, allowed, denied := 0, 0, 0;
    }

    function Key(identifier: string, action: string): string {
      LimiterKey(prefix, identifier, action)
    }

    method CheckRateLimit(identifier: string, action: string, cfg: Config, now: real) returns (verdict: Verdict)
      modifies this, cache
      ensures (cache.store, verdict) == Check(cfg, old(cache.store), Key(identifier, action), now)
      ensures checks == old(checks) + 1
      ensures allowed == old(allowed) + (if verdict.allowed then 1 else 0)
      ensures denied == old(denied) + (if verdict.allowed then 0 else 1)
      ensures var before := |Recent(StoredRequests(old(cache.store), Key(identifier, action), now), Start(cfg, now))|;
        && verdict.allowed == (before < cfg.maxRequests)
        && Reports(cfg, verdict.details, before + (if verdict.allowed then 1 else 0), now)
    {
      checks := checks + 1;
      verdict := SlidingWindowCheck(identifier, action, cfg, now);
    }

    method SlidingWindowCheck(identifier: string, action: string, cfg: Config, now: real) returns (verdict: Verdict)
      modifies this`allowed, this`denied, cache
      ensures (cache.store, verdict) == Check(cfg, old(cache.store), Key(identifier, action), now)
      ensures allowed == old(allowed) + (if verdict.allowed then 1 else 0)
      ensures denied == old(denied) + (if verdict.allowed then 0 else 1)
    {
      var key := Key(identifier, action);
      var count := GetCurrentRequests(key, Start(cfg, now), now);
      var admit := count < cfg.maxRequests;
      if admit {
        AddRequest(key, now, cfg.window);
        count := count + 1;
        allowed := allowed + 1;
      } else {
        denied := denied + 1;
      }
      verdict := Verdict(admit, Describe(cfg, count, now));
    }

    method GetCurrentRequests(key: string, start: real, now: real) returns (count: nat)
      ensures count == |Recent(StoredRequests(cache.store, key, now), start)|
    {
      var data := cache.Get(key, now);
      if data.None? {
        return 0;
      }
      count := |Recent(data.value.requests, start)|;
    }

    method AddRequest(key: string, now: real, window: nat)
      modifies cache
      ensures cache.store == Add(Config(0, window), old(cache.store), key, now)
      ensures forall k, t: real ::
        Lookup(cache.store, k, t) ==
        if k != key then Lookup(old(cache.store), k, t)
        else if window > 0 && t > now + window as real then None
        else Some(WindowData(Recent(StoredRequests(old(cache.store), key, now) + [now], now - window as real)))
    {
      var found := cache.Get(key, now);
      var data := if found.Some? then found.value else WindowData([]);
      data := WindowData(data.requests + [now]);
      data := WindowData(Recent(data.requests, now - window as real));
      var _ := cache.Set(key, data, window, now);
    }

    method GetRateLimitInfo(identifier: string, action: string, cfg: Config, now: real) returns (details: Details)
      ensures details == Describe(cfg, Count(cfg, cache.store, Key(identifier, action), now), now)
      ensures Reports(
        cfg, details, |Recent(StoredRequests(cache.store, Key(identifier, action), now), Start(cfg, now))|, now)
    {
      var count := GetCurrentRequests(Key(identifier, action), Start(cfg, now), now);
      details := Describe(cfg, count, now);
    }

    method ResetRateLimit(identifier: string, action: string, now: real) returns (success: bool)
      modifies cache
      ensures cache.store == Remove(old(cache.store), {Key(identifier, action)})
      ensures success == Lookup(old(cache.store), Key(identifier, action), now).Some?
      ensures forall t :: StoredRequests(cache.store, Key(identifier, action), t) == []
      ensures forall k, t: real :: k != Key(identifier, action) ==>
        Lookup(cache.store, k, t) == Lookup(old(cache.store), k, t)
    {
      success := cache.Delete(Key(identifier, action), now);
    }
  }

  // ---- The reference: a complete log of the admissions ----

  function LogCheck(cfg: Config, log: seq<real>, now: real): (seq<real>, Verdict) {
    var count := |Recent(log, Start(cfg, now))|;
    if count < cfg.maxRequests then (log + [now], Verdict(true, Describe(cfg, count + 1, now)))
    else (log, Verdict(false, Describe(cfg, count, now)))
  }

  ghost predicate Sorted(stamps: seq<real>) {
    forall i, j | 0 <= i < j < |stamps| :: stamps[i] <= stamps[j]
  }

  /** What the cache holds under a key is the log pruned and dated at the last admission. */
  ghost predicate Represents(cfg: Config, s: Store<WindowData>, key: string, log: seq<real>, now: real) {
    && Sorted(log)
    && if log == [] then key !in s
       else
         var last := log[|log| - 1];
         && last <= now
         && key in s
         && s[key].value.requests == Recent(log, Start(cfg, last))
         && s[key].expires == if cfg.window == 0 then None else Some(last + cfg.window as real)
  }

  lemma {:induction false} RecentTwice(stamps: seq<real>, first: real, second: real)
    requires first <= second
    ensures Recent(Recent(stamps, first), second) == Recent(stamps, second)
  {
    if stamps != [] {
      var n := |stamps| - 1;
      RecentTwice(stamps[..n], first, second);
      var kept := Recent(stamps[..n], first);
      if stamps[n] >= first {
        assert (kept + [stamps[n]])[..|kept|] == kept;
      } else {
        assert Recent(stamps, first) == kept;
      }
    }
  }

  lemma {:induction false} RecentNone(stamps: seq<real>, start: real)
    requires forall i | 0 <= i < |stamps| :: stamps[i] < start
    ensures Recent(stamps, start) == []
  {
    if stamps != [] {
      RecentNone(stamps[..|stamps| - 1], start);
    }
  }

  lemma RecentAppend(stamps: seq<real>, x: real, start: real)
    ensures Recent(stamps + [x], start) == Recent(stamps, start) + (if x >= start then [x] else [])
  {
    assert (stamps + [x])[..|stamps|] == stamps;
  }

  /** Pruning and expiry never change a count. */
  lemma CountsAgree(cfg: Config, s: Store<WindowData>, key: string, log: seq<real>, now: real)
    requires Represents(cfg, s, key, log, now)
    ensures Recent(StoredRequests(s, key, now), Start(cfg, now)) == Recent(log, Start(cfg, now))
  {
    if log != [] {
      if Live(s[key], now) {
        RecentTwice(log, Start(cfg, log[|log| - 1]), Start(cfg, now));
      } else {
        RecentNone(log, Start(cfg, now));
      }
    }
  }

  lemma CheckRefinesLog(cfg: Config, s: Store<WindowData>, key: string, log: seq<real>, now: real)
    requires Represents(cfg, s, key, log, now)
    ensures Check(cfg, s, key, now).1 == LogCheck(cfg, log, now).1
    ensures Represents(cfg, Check(cfg, s, key, now).0, key, LogCheck(cfg, log, now).0, now)
  {
    hide Recent;
    var stored, start := StoredRequests(s, key, now), Start(cfg, now);
    CountsAgree(cfg, s, key, log, now);
    RecentAppend(stored, now, start);
    RecentAppend(log, now, start);
    assert Recent(stored + [now], start) == Recent(log + [now], start);
  }

  // ---- Runs on one key ----

  datatype Op = CheckAt(now: real) | InfoAt(now: real) | ResetAt(now: real)

  datatype Answer = Checked(verdict: Verdict) | Informed(details: Details) | WasReset

  function Perform(cfg: Config, s: Store<WindowData>, key: string, op: Op): (Store<WindowData>, Answer) {
    match op
    case CheckAt(now) => (Check(cfg, s, key, now).0, Checked(Check(cfg, s, key, now).1))
    case InfoAt(now) => (s, Informed(Describe(cfg, Count(cfg, s, key, now), now)))
    case ResetAt(_) => (Remove(s, {key}), WasReset)
  }

  function RunStore(cfg: Config, s: Store<WindowData>, key: string, ops: seq<Op>): (Store<WindowData>, seq<Answer>) {
    if ops == [] then (s, [])
    else
      var (before, answers) := RunStore(cfg, s, key, ops[..|ops| - 1]);
      var (after, answer) := Perform(cfg, before, key, ops[|ops| - 1]);
      (after, answers + [answer])
  }

  function PerformOnLog(cfg: Config, log: seq<real>, op: Op): (seq<real>, Answer) {
    match op
    case CheckAt(now) => (LogCheck(cfg, log, now).0, Checked(LogCheck(cfg, log, now).1))
    case InfoAt(now) => (log, Informed(Describe(cfg, |Recent(log, Start(cfg, now))|, now)))
    case ResetAt(_) => ([], WasReset)
  }

  function RunLog(cfg: Config, ops: seq<Op>): (seq<real>, seq<Answer>) {
    if ops == [] then ([], [])
    else
      var (before, answers) := RunLog(cfg, ops[..|ops| - 1]);
      var (after, answer) := PerformOnLog(cfg, before, ops[|ops| - 1]);
      (after, answers + [answer])
  }

  ghost predicate Forward(ops: seq<Op>) {
    forall i, j | 0 <= i < j < |ops| :: ops[i].now <= ops[j].now
  }

  /** On any run with a non-decreasing clock the cached limiter gives the answers of the complete log. */
  lemma {:induction false} StoreRefinesLog(cfg: Config, s: Store<WindowData>, key: string, ops: seq<Op>)
    requires key !in s && Forward(ops)
    ensures RunStore(cfg, s, key, ops).1 == RunLog(cfg, ops).1
    ensures forall now | ops == [] || ops[|ops| - 1].now <= now ::
      Represents(cfg, RunStore(cfg, s, key, ops).0, key, RunLog(cfg, ops).0, now)
    ensures Remove(RunStore(cfg, s, key, ops).0, {key}) == Remove(s, {key})
  {
    hide Perform, PerformOnLog, Represents;
    if ops == [] {
      NothingRepresented(cfg, s, key);
    } else {
      var front, op := ops[..|ops| - 1], ops[|ops| - 1];
      StoreRefinesLog(cfg, s, key, front);
      PerformRefinesLog(cfg, RunStore(cfg, s, key, front).0, key, RunLog(cfg, front).0, op);
    }
  }

  lemma NothingRepresented(cfg: Config, s: Store<WindowData>, key: string)
    requires key !in s
    ensures forall now :: Represents(cfg, s, key, [], now)
  {
  }

  lemma PerformRefinesLog(cfg: Config, s: Store<WindowData>, key: string, log: seq<real>, op: Op)
    requires Represents(cfg, s, key, log, op.now)
    ensures Perform(cfg, s, key, op).1 == PerformOnLog(cfg, log, op).1
    ensures forall now | op.now <= now ::
      Represents(cfg, Perform(cfg, s, key, op).0, key, PerformOnLog(cfg, log, op).0, now)
    ensures Remove(Perform(cfg, s, key, op).0, {key}) == Remove(s, {key})
  {
    hide Recent, LogCheck;
    match op
    case CheckAt(now) => CheckRefinesLog(cfg, s, key, log, now);
    case InfoAt(now) => CountsAgree(cfg, s, key, log, now);
    case ResetAt(_) =>
  }

  // ---- The window bound ----

  /** The stamps in the closed window [low, high], in order. */
  function Within(stamps: seq<real>, low: real, high: real): seq<real> {
    if stamps == [] then []
    else
      var n := |stamps| - 1;
      Within(stamps[..n], low, high) + (if low <= stamps[n] <= high then [stamps[n]] else [])
  }

  /** An admission lies more than a window after the one `maxRequests` places before it. */
  ghost predicate Spaced(cfg: Config, log: seq<real>) {
    && Sorted(log)
    && (cfg.maxRequests <= 0 ==> log == [])
    && forall i | 0 <= i && i + cfg.maxRequests < |log| && cfg.maxRequests > 0 ::
         log[i] < Start(cfg, log[i + cfg.maxRequests])
  }

  lemma {:induction false} CountSorted(stamps: seq<real>, start: real, k: nat)
    requires Sorted(stamps) && k > 0
    ensures |Recent(stamps, start)| >= k <==> |stamps| >= k && stamps[|stamps| - k] >= start
    ensures |Recent(stamps, start)| <= |stamps|
  {
    if stamps != [] {
      var n := |stamps| - 1;
      CountSorted(stamps[..n], start, k);
      if k > 1 {
        CountSorted(stamps[..n], start, k - 1);
      }
    }
  }

  lemma LogCheckKeepsSpacing(cfg: Config, log: seq<real>, now: real)
    requires Spaced(cfg, log) && (log == [] || log[|log| - 1] <= now)
    ensures Spaced(cfg, LogCheck(cfg, log, now).0)
  {
    hide Recent;
    if cfg.maxRequests > 0 {
      CountSorted(log, Start(cfg, now), cfg.maxRequests);
    }
  }

  lemma {:induction false} RunLogSpaced(cfg: Config, ops: seq<Op>)
    requires Forward(ops)
    ensures var log := RunLog(cfg, ops).0; Spaced(cfg, log) && (log == [] || log[|log| - 1] <= ops[|ops| - 1].now)
  {
    hide Recent;
    if ops != [] {
      RunLogSpaced(cfg, ops[..|ops| - 1]);
      var log := RunLog(cfg, ops[..|ops| - 1]).0;
      if ops[|ops| - 1].CheckAt? {
        LogCheckKeepsSpacing(cfg, log, ops[|ops| - 1].now);
      }
    }
  }

  lemma {:induction false} SpacedWindow(cfg: Config, log: seq<real>, low: real)
    requires Spaced(cfg, log)
    ensures |Within(log, low, low + cfg.window as real)| <= if cfg.maxRequests > 0 then cfg.maxRequests else 0
  {
    if log != [] {
      var n := |log| - 1;
      SpacedWindow(cfg, log[..n], low);
      var high := low + cfg.window as real;
      if low <= log[n] <= high {
        WithinIsRecent(log, low, high);
        CountSorted(log, low, cfg.maxRequests + 1);
      }
    }
  }

  lemma {:induction false} WithinIsRecent(stamps: seq<real>, low: real, high: real)
    requires forall i | 0 <= i < |stamps| :: stamps[i] <= high
    ensures Within(stamps, low, high) == Recent(stamps, low)
  {
    if stamps != [] {
      WithinIsRecent(stamps[..|stamps| - 1], low, high);
    }
  }

  /** The times of the checks that were allowed since the last reset, read off the answers. */
  function Admitted(ops: seq<Op>, answers: seq<Answer>): seq<real>
    requires |ops| == |answers|
  {
    if ops == [] then []
    else
      var n := |ops| - 1;
      var before := Admitted(ops[..n], answers[..n]);
      match answers[n]
      case Checked(verdict) => if verdict.allowed then before + [ops[n].now] else before
      case Informed(_) => before
      case WasReset => []
  }

  lemma {:induction false} LogIsAdmitted(cfg: Config, ops: seq<Op>)
    ensures |RunLog(cfg, ops).1| == |ops|
    ensures RunLog(cfg, ops).0 == Admitted(ops, RunLog(cfg, ops).1)
  {
    if ops != [] {
      var n := |ops| - 1;
      LogIsAdmitted(cfg, ops[..n]);
      assert RunLog(cfg, ops).1[..n] == RunLog(cfg, ops[..n]).1;
    }
  }

  /** No closed window of the configured length ever holds more than `maxRequests` admissions. */
  lemma WindowBound(cfg: Config, s: Store<WindowData>, key: string, ops: seq<Op>, low: real)
    requires key !in s && Forward(ops)
    ensures var answers := RunStore(cfg, s, key, ops).1;
      && |answers| == |ops|
      && |Within(Admitted(ops, answers), low, low + cfg.window as real)|
           <= if cfg.maxRequests > 0 then cfg.maxRequests else 0
  {
    StoreRefinesLog(cfg, s, key, ops);
    LogIsAdmitted(cfg, ops);
    RunLogSpaced(cfg, ops);
    SpacedWindow(cfg, RunLog(cfg, ops).0, low);
  }

  lemma {:induction false} WithinSorted(stamps: seq<real>, low: real, high: real)
    requires forall i | 0 <= i < |stamps| :: stamps[i] <= high
    ensures |Within(stamps, low, high)| == |Recent(stamps, low)|
  {
    WithinIsRecent(stamps, low, high);
  }

  lemma {:induction false} RunSplits(cfg: Config, s: Store<WindowData>, key: string, ops: seq<Op>, i: nat)
    requires i < |ops|
    ensures |RunStore(cfg, s, key, ops).1| == |ops| && |RunLog(cfg, ops).1| == |ops|
    ensures RunStore(cfg, s, key, ops[..i + 1]).1 == RunStore(cfg, s, key, ops).1[..i + 1]
  {
    hide Perform, PerformOnLog;
    LogIsAdmitted(cfg, ops);
    RunLength(cfg, s, key, ops);
    if i + 1 == |ops| {
      assert ops[..i + 1] == ops;
    } else {
      var front := ops[..|ops| - 1];
      RunSplits(cfg, s, key, front, i);
      assert front[..i + 1] == ops[..i + 1];
      assert RunStore(cfg, s, key, ops).1[..|front|] == RunStore(cfg, s, key, front).1;
    }
  }

  lemma {:induction false} RunLength(cfg: Config, s: Store<WindowData>, key: string, ops: seq<Op>)
    ensures |RunStore(cfg, s, key, ops).1| == |ops|
  {
    hide Perform;
    if ops != [] {
      RunLength(cfg, s, key, ops[..|ops| - 1]);
    }
  }

  /** The admissions, since the last reset, that the closed window ending with operation i counts. */
  function InWindow(cfg: Config, ops: seq<Op>, answers: seq<Answer>): nat
    requires ops != [] && |ops| == |answers|
  {
    var now := ops[|ops| - 1].now;
    |Within(Admitted(ops, answers), now - cfg.window as real, now)|
  }

  /** The same without the last operation. */
  function CountBefore(cfg: Config, ops: seq<Op>, answers: seq<Answer>): nat
    requires ops != [] && |ops| == |answers|
  {
    var n := |ops| - 1;
    |Within(Admitted(ops[..n], answers[..n]), ops[n].now - cfg.window as real, ops[n].now)|
  }

  /** On every run on a fresh key with a non-decreasing clock, the last answer of a check or report tells, field by
      field, the number of admissions in the window that ends now, a check's own included if it was admitted. */
  lemma LastAnswerReports(cfg: Config, s: Store<WindowData>, key: string, ops: seq<Op>)
    requires key !in s && Forward(ops) && ops != []
    ensures var answers, now := RunStore(cfg, s, key, ops).1, ops[|ops| - 1].now;
      && |answers| == |ops|
      && match answers[|ops| - 1]
         case Checked(verdict) =>
           && ops[|ops| - 1].CheckAt?
           && Reports(cfg, verdict.details, InWindow(cfg, ops, answers), now)
           && (verdict.allowed <==> CountBefore(cfg, ops, answers) < cfg.maxRequests)
         case Informed(details) => ops[|ops| - 1].InfoAt? && Reports(cfg, details, InWindow(cfg, ops, answers), now)
         case WasReset => ops[|ops| - 1].ResetAt?
  {
    hide Recent, Within, RunStore, Sorted;
    var front, op := ops[..|ops| - 1], ops[|ops| - 1];
    StoreRefinesLog(cfg, s, key, ops);
    LogIsAdmitted(cfg, ops);
    RunLogSpaced(cfg, front);
    RunLogSpaced(cfg, ops);
    var before, log := RunLog(cfg, front).0, RunLog(cfg, ops).0;
    NotLater(log, op.now);
    WithinSorted(log, Start(cfg, op.now), op.now);
    NotLater(before, op.now);
    WithinSorted(before, Start(cfg, op.now), op.now);
    LogIsAdmitted(cfg, front);
    assert RunLog(cfg, ops).1[..|front|] == RunLog(cfg, front).1;
    RecentAppend(before, op.now, Start(cfg, op.now));
  }

  lemma NotLater(log: seq<real>, now: real)
    requires Sorted(log) && (log == [] || log[|log| - 1] <= now)
    ensures forall i | 0 <= i < |log| :: log[i] <= now
  {
  }

  /** So does every answer of the run. */
  lemma EveryAnswerReports(cfg: Config, s: Store<WindowData>, key: string, ops: seq<Op>, i: nat)
    requires key !in s && Forward(ops) && i < |ops|
    ensures var answers, now := RunStore(cfg, s, key, ops).1, ops[i].now;
      && |answers| == |ops|
      && var counted := InWindow(cfg, ops[..i + 1], answers[..i + 1]);
         match answers[i]
         case Checked(verdict) =>
           && ops[i].CheckAt? && Reports(cfg, verdict.details, counted, now)
           && (verdict.allowed <==> CountBefore(cfg, ops[..i + 1], answers[..i + 1]) < cfg.maxRequests)
         case Informed(details) => ops[i].InfoAt? && Reports(cfg, details, counted, now)
         case WasReset => ops[i].ResetAt?
  {
    hide RunStore, Reports, InWindow, CountBefore;
    RunSplits(cfg, s, key, ops, i);
    LastAnswerReports(cfg, s, key, ops[..i + 1]);
  }

  // ---- Many keys over one cache ----

  /** Limits of different identifiers or actions live under different keys, whatever the identifiers. */
  lemma LimitsHaveOwnKeys(prefix: string, i: string, a: string, j: string, b: string)
    requires ':' !in a && ':' !in b
    ensures LimiterKey(prefix, i, a) == LimiterKey(prefix, j, b) <==> i == j && a == b
  {
    if LimiterKey(prefix, i, a) == LimiterKey(prefix, j, b) {
      var head := prefix + ":";
      assert LimiterKey(prefix, i, a) == head + (a + (":" + i));
      assert LimiterKey(prefix, j, b) == head + (b + (":" + j));
      assert a + (":" + i) == LimiterKey(prefix, i, a)[|head|..];
      assert b + (":" + j) == LimiterKey(prefix, j, b)[|head|..];
      CacheKeys.SplitFirst(a, i, b, j);
    }
  }

  /** Clearing the rate limit namespace of a version reaches a key of the limiter, which is built without the key
      helpers, exactly when it happens to end like that version. */
  lemma LimiterKeysCleared(identifier: string, action: string, version: string)
    requires CacheKeys.Literal(version) && version != ""
    ensures CacheKeys.GlobMatch(
      CacheKeys.Pattern(CacheKeys.RateLimit, version), LimiterKey("rate_limit", identifier, action)) <==>
      CacheKeys.EndsWith(action + ":" + identifier, ":v" + version)
  {
    hide CacheKeys.GlobMatch, CacheKeys.Pattern;
    assert LimiterKey("rate_limit", identifier, action) == "rate_limit" + (":" + (action + (":" + identifier)));
    assert action + ":" + identifier == action + (":" + identifier);
    CacheKeys.LimiterKeysSurvive(action, identifier, version);
  }

  /** Two stores with the same entry, or none, under a key. */
  ghost predicate SameAt(s: Store<WindowData>, r: Store<WindowData>, key: string) {
    (key in s <==> key in r) && (key in s ==> s[key] == r[key])
  }

  /** An operation with the key it is for and the configuration that its caller passes. */
  datatype KeyedOp = KeyedOp(key: string, cfg: Config, op: Op)

  function RunKeyed(s: Store<WindowData>, ops: seq<KeyedOp>): (Store<WindowData>, seq<Answer>) {
    if ops == [] then (s, [])
    else
      var (before, answers) := RunKeyed(s, ops[..|ops| - 1]);
      var last := ops[|ops| - 1];
      var (after, answer) := Perform(last.cfg, before, last.key, last.op);
      (after, answers + [answer])
  }

  /** The operations on one key, and of a run's answers those that they got. */
  function OpsOn(key: string, ops: seq<KeyedOp>): seq<KeyedOp> {
    if ops == [] then []
    else
      var before, last := OpsOn(key, ops[..|ops| - 1]), ops[|ops| - 1];
      if last.key == key then before + [last] else before
  }

  function AnswersOn(key: string, ops: seq<KeyedOp>, answers: seq<Answer>): seq<Answer>
    requires |ops| == |answers|
  {
    if ops == [] then []
    else
      var n := |ops| - 1;
      var before := AnswersOn(key, ops[..n], answers[..n]);
      if ops[n].key == key then before + [answers[n]] else before
  }

  lemma SameAtPerforms(cfg: Config, s: Store<WindowData>, r: Store<WindowData>, key: string, op: Op)
    requires SameAt(s, r, key)
    ensures Perform(cfg, s, key, op).1 == Perform(cfg, r, key, op).1
    ensures SameAt(Perform(cfg, s, key, op).0, Perform(cfg, r, key, op).0, key)
  {
    hide Recent;
  }

  lemma OthersUntouched(cfg: Config, s: Store<WindowData>, key: string, other: string, op: Op)
    requires key != other
    ensures SameAt(Perform(cfg, s, other, op).0, s, key)
  {
  }

  lemma KeyedAppend(s: Store<WindowData>, ops: seq<KeyedOp>, last: KeyedOp)
    ensures var (before, answers) := RunKeyed(s, ops);
      RunKeyed(s, ops + [last]) ==
        (Perform(last.cfg, before, last.key, last.op).0, answers + [Perform(last.cfg, before, last.key, last.op).1])
  {
    assert (ops + [last])[..|ops|] == ops;
  }

  /** Operations on other keys, in any interleaving and with any configurations, change no answer. */
  lemma {:induction false} KeysAreIndependent(s: Store<WindowData>, key: string, ops: seq<KeyedOp>)
    ensures |RunKeyed(s, ops).1| == |ops|
    ensures AnswersOn(key, ops, RunKeyed(s, ops).1) == RunKeyed(s, OpsOn(key, ops)).1
    ensures SameAt(RunKeyed(s, ops).0, RunKeyed(s, OpsOn(key, ops)).0, key)
  {
    hide Perform, SameAt;
    if ops == [] {
      NothingRun(s, key);
    } else {
      var front, last := ops[..|ops| - 1], ops[|ops| - 1];
      KeysAreIndependent(s, key, front);
      var before, answers := RunKeyed(s, front).0, RunKeyed(s, front).1;
      var alone := RunKeyed(s, OpsOn(key, front)).0;
      assert RunKeyed(s, ops).1[..|front|] == answers;
      if last.key == key {
        SameAtPerforms(last.cfg, before, alone, key, last.op);
        KeyedAppend(s, OpsOn(key, front), last);
      } else {
        OthersUntouched(last.cfg, before, key, last.key, last.op);
        SameAtTransitive(RunKeyed(s, ops).0, before, alone, key);
      }
    }
  }

  function Ops(ops: seq<KeyedOp>): seq<Op> {
    seq(|ops|, i requires 0 <= i < |ops| => ops[i].op)
  }

  lemma {:induction false} OneKeyOneConfig(cfg: Config, s: Store<WindowData>, key: string, ops: seq<KeyedOp>)
    requires forall i | 0 <= i < |ops| :: ops[i].key == key && ops[i].cfg == cfg
    ensures RunKeyed(s, ops) == RunStore(cfg, s, key, Ops(ops))
  {
    hide Perform;
    if ops != [] {
      OneKeyOneConfig(cfg, s, key, ops[..|ops| - 1]);
      assert Ops(ops)[..|ops| - 1] == Ops(ops[..|ops| - 1]);
    }
  }

  lemma {:induction false} OpsOnAreOnKey(cfg: Config, key: string, ops: seq<KeyedOp>)
    requires forall i | 0 <= i < |ops| && ops[i].key == key :: ops[i].cfg == cfg
    ensures forall i | 0 <= i < |OpsOn(key, ops)| :: OpsOn(key, ops)[i].key == key && OpsOn(key, ops)[i].cfg == cfg
  {
    if ops != [] {
      OpsOnAreOnKey(cfg, key, ops[..|ops| - 1]);
    }
  }

  /** So a key whose callers all pass one configuration is answered as a run on that key alone, to which the results
      on one key apply; the other keys may have any other configurations. */
  lemma EachKeyHasItsOwnLimit(cfg: Config, s: Store<WindowData>, key: string, ops: seq<KeyedOp>)
    requires forall i | 0 <= i < |ops| && ops[i].key == key :: ops[i].cfg == cfg
    ensures |RunKeyed(s, ops).1| == |ops|
    ensures AnswersOn(key, ops, RunKeyed(s, ops).1) == RunStore(cfg, s, key, Ops(OpsOn(key, ops))).1
  {
    KeysAreIndependent(s, key, ops);
    OpsOnAreOnKey(cfg, key, ops);
    OneKeyOneConfig(cfg, s, key, OpsOn(key, ops));
  }

  lemma NothingRun(s: Store<WindowData>, key: string)
    ensures RunKeyed(s, []) == (s, []) && SameAt(s, s, key)
  {
  }

  lemma SameAtTransitive(q: Store<WindowData>, r: Store<WindowData>, s: Store<WindowData>, key: string)
    requires SameAt(q, r, key) && SameAt(r, s, key)
    ensures SameAt(q, s, key)
  {
  }

  // ---- What a caller can rely on ----

  /** The run `ops` on a fresh key ended no later than `now`. */
  ghost predicate Precedes(key: string, s: Store<WindowData>, ops: seq<Op>, now: real) {
    key !in s && Forward(ops) && (ops != [] ==> ops[|ops| - 1].now <= now)
  }

  lemma StateAfterRun(cfg: Config, s: Store<WindowData>, key: string, ops: seq<Op>, now: real)
    requires Precedes(key, s, ops, now)
    ensures Represents(cfg, RunStore(cfg, s, key, ops).0, key, RunLog(cfg, ops).0, now)
    ensures Spaced(cfg, RunLog(cfg, ops).0)
  {
    StoreRefinesLog(cfg, s, key, ops);
    RunLogSpaced(cfg, ops);
  }

  lemma AtMostLimit(cfg: Config, log: seq<real>, now: real)
    requires Spaced(cfg, log) && cfg.maxRequests >= 0 && (log == [] || log[|log| - 1] <= now)
    ensures |Recent(log, Start(cfg, now))| <= cfg.maxRequests
  {
    CountSorted(log, Start(cfg, now), cfg.maxRequests + 1);
  }

  /** The reported numbers add up to the limit, and asking again at the same instant reports the same numbers. */
  lemma ReportsAddUp(cfg: Config, s: Store<WindowData>, key: string, ops: seq<Op>, now: real)
    requires Precedes(key, s, ops, now) && cfg.maxRequests >= 0
    ensures var (after, verdict) := Check(cfg, RunStore(cfg, s, key, ops).0, key, now);
      && verdict.details.remaining + verdict.details.currentRequests == cfg.maxRequests
      && verdict.details == Describe(cfg, Count(cfg, after, key, now), now)
  {
    hide Recent, RunStore, RunLog;
    var before, log := RunStore(cfg, s, key, ops).0, RunLog(cfg, ops).0;
    StateAfterRun(cfg, s, key, ops, now);
    AtMostLimit(cfg, log, now);
    CheckRefinesLog(cfg, before, key, log, now);
    CountsAgree(cfg, before, key, log, now);
    CountsAgree(cfg, Check(cfg, before, key, now).0, key, LogCheck(cfg, log, now).0, now);
    RecentAppend(log, now, Start(cfg, now));
  }

  /** The admission that a denial has to wait for: the oldest of the last `maxRequests`. */
  function Oldest(cfg: Config, log: seq<real>): real
    requires 1 <= cfg.maxRequests <= |log|
  {
    log[|log| - cfg.maxRequests]
  }

  predicate Denied(cfg: Config, s: Store<WindowData>, key: string, now: real) {
    !Check(cfg, s, key, now).1.allowed
  }

  /** A check is denied exactly when the last `maxRequests` admissions all lie in the window, and these are then
      the ones that it counts. */
  lemma DeniedByLog(cfg: Config, s: Store<WindowData>, key: string, log: seq<real>, now: real)
    requires Represents(cfg, s, key, log, now) && Spaced(cfg, log) && cfg.maxRequests >= 1
    ensures Denied(cfg, s, key, now) <==> |log| >= cfg.maxRequests && Oldest(cfg, log) >= Start(cfg, now)
    ensures Denied(cfg, s, key, now) ==> Recent(log, Start(cfg, now)) == log[|log| - cfg.maxRequests..]
  {
    hide Recent;
    CountsAgree(cfg, s, key, log, now);
    CountSorted(log, Start(cfg, now), cfg.maxRequests);
    AtMostLimit(cfg, log, now);
    RecentIsSuffix(log, Start(cfg, now));
  }

  /** After a denial, and until something else is admitted, a check is allowed exactly when more than a window
      has passed since the oldest counted admission. */
  lemma AllowedAgain(cfg: Config, s: Store<WindowData>, key: string, ops: seq<Op>, now: real, later: real)
    requires Precedes(key, s, ops, now) && cfg.maxRequests >= 1 && now <= later
    ensures var log, before := RunLog(cfg, ops).0, RunStore(cfg, s, key, ops).0;
      Denied(cfg, before, key, now) ==>
        && |log| >= cfg.maxRequests
        && Recent(log, Start(cfg, now)) == log[|log| - cfg.maxRequests..]
        && Oldest(cfg, log) <= now
        && (Denied(cfg, before, key, later) <==> later <= Oldest(cfg, log) + cfg.window as real)
  {
    hide Recent, RunStore, RunLog, Denied;
    var before, log := RunStore(cfg, s, key, ops).0, RunLog(cfg, ops).0;
    StateAfterRun(cfg, s, key, ops, now);
    StateAfterRun(cfg, s, key, ops, later);
    DeniedByLog(cfg, before, key, log, now);
    DeniedByLog(cfg, before, key, log, later);
  }

  lemma {:induction false} RecentIsSuffix(stamps: seq<real>, start: real)
    requires Sorted(stamps)
    ensures |Recent(stamps, start)| <= |stamps|
    ensures Recent(stamps, start) == stamps[|stamps| - |Recent(stamps, start)|..]
  {
    if stamps != [] {
      var n := |stamps| - 1;
      if stamps[n] < start {
        RecentNone(stamps, start);
      } else {
        RecentIsSuffix(stamps[..n], start);
        var m := n - |Recent(stamps[..n], start)|;
        assert stamps[m..] == stamps[..n][m..] + [stamps[n]];
      }
    }
  }

  /** The reported reset time can come too early: a check made then is allowed exactly when it lies more than a
      window after the oldest counted admission. One second later it always is. */
  lemma ResetTimeCanBeEarly(cfg: Config, s: Store<WindowData>, key: string, ops: seq<Op>, now: real)
    requires Precedes(key, s, ops, now) && cfg.maxRequests >= 1 && now >= 0.0
    ensures var log, before := RunLog(cfg, ops).0, RunStore(cfg, s, key, ops).0;
      var reset := Check(cfg, before, key, now).1.details.resetTime;
      Denied(cfg, before, key, now) ==>
        && |log| >= cfg.maxRequests
        && (reset as real >= now ==>
              (Denied(cfg, before, key, reset as real) <==> reset as real <= Oldest(cfg, log) + cfg.window as real))
        && !Denied(cfg, before, key, (reset + 1) as real)
  {
    hide Recent, RunStore, RunLog, Check, Denied, Precedes;
    var before := RunStore(cfg, s, key, ops).0;
    var reset := Truncate(now + cfg.window as real);
    assert Check(cfg, before, key, now).1.details.resetTime == reset by {
      CheckReportsReset(cfg, before, key, now);
    }
    AllowedAgain(cfg, s, key, ops, now, (reset + 1) as real);
    if reset as real >= now {
      AllowedAgain(cfg, s, key, ops, now, reset as real);
    }
  }

  /** It does happen: one request per second, admitted at 0.5 and denied at 0.6, is told to come back at 1. */
  lemma EarlyReset(key: string)
    ensures var cfg, s := Config(1, 1), Check(Config(1, 1), map[], key, 0.5).0;
      && !Denied(cfg, map[], key, 0.5)
      && Denied(cfg, s, key, 0.6) && Check(cfg, s, key, 0.6).1.details.resetTime == 1
      && Denied(cfg, s, key, 1.0)
  {
    var cfg := Config(1, 1);
    assert StoredRequests(map[], key, 0.5) == [];
    assert Recent([0.5], -0.5) == Recent([], -0.5) + [0.5];
    var s := Check(cfg, map[], key, 0.5).0;
    assert s[key] == Entry(WindowData([0.5]), Some(1.5));
    assert Recent([0.5], -0.4) == Recent([], -0.4) + [0.5];
    assert Recent([0.5], 0.0) == Recent([], 0.0) + [0.5];
  }

  lemma CheckReportsReset(cfg: Config, s: Store<WindowData>, key: string, now: real)
    ensures Check(cfg, s, key, now).1.details.resetTime == Truncate(now + cfg.window as real)
  {
  }
}
