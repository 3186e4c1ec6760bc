/** Which IDs a context issues under an arbitrary clock and cache: when they are unique, when they keep their order,
    when two contexts share one, and what callers receive of them. */
module SnowflakeIssued {
  import opened SnowflakePacking
  import opened Snowflake
  import opened Wrappers

  function CallAt(u: Setup, i: nat): Step {
    u.Generate(u.After(START, i))
  }

  // ---- The number that a call issues ----

  /** How many of the numbers drawn by a call came from the local sequence. */
  function Locals(draws: seq<Drawn>): nat {
    if draws == [] then 0
    else Locals(draws[..|draws| - 1]) + (if draws[|draws| - 1].fallback then 1 else 0)
  }

  /** How many local numbers the first n calls have drawn. */
  function LocalDraws(u: Setup, n: nat): nat {
    if n == 0 then 0 else LocalDraws(u, n - 1) + Locals(CallAt(u, n - 1).draws)
  }

  /** The count that the cache answered with, or the local numbers drawn so far, modulo 4096. */
  function Number(u: Setup, i: nat): int {
    var c := CallAt(u, i);
    if c.Answered() then c.draws[|c.draws| - 1].sequence else LocalDraws(u, i + 1) % 4096
  }

  lemma AnyDraw(u: Setup, s: State, k: nat)
    requires s.sequence == k % 4096
    ensures var d := u.Draw(s);
      && d.state.sequence == (k + if d.fallback then 1 else 0) % 4096
      && (d.fallback ==> d.sequence == d.state.sequence)
  {
    hide BitOps.BitAnd;
    if u.Draw(s).fallback {
      DrawFallsBack(u, s);
    }
  }

  lemma LocalsOf(d: Drawn, e: Drawn)
    ensures Locals([]) == 0 && Locals([d]) == (if d.fallback then 1 else 0)
    ensures Locals([d, e]) == (if d.fallback then 1 else 0) + (if e.fallback then 1 else 0)
  {
    assert [d][..0] == [] && [d, e][..1] == [d];
  }

  /** What a call makes of the local sequence, and where its ID's sequence comes from. */
  lemma AnyCall(u: Setup, s: State, k: nat)
    requires s.sequence == k % 4096
    ensures var r := u.Generate(s);
      && r.state.sequence == (k + Locals(r.draws)) % 4096
      && match r.outcome
         case MovedBackwards(_) => r.draws == []
         case Stalled => |r.draws| == 1 && r.draws[0].sequence == 0
         case Generated(stamp) =>
           r.draws != [] &&
           stamp.sequence == if r.Answered() then r.draws[|r.draws| - 1].sequence else r.state.sequence
  {
    hide BitOps.BitAnd, Setup.Draw, Setup.Wait;
    var read := s.(clockAt := s.clockAt + 1);
    var d := u.Draw(read);
    var (later, at) := u.Wait(d.state.clockAt, s.lastTimestamp, 0);
    var waited := d.state.(clockAt := at);
    AnyDraw(u, read, k);
    AnyDraw(u, waited, k + if d.fallback then 1 else 0);
    LocalsOf(d, u.Draw(waited));
  }

  /** The local sequence is the number of local draws, modulo 4096. */
  lemma {:induction false} SequenceCountsDraws(u: Setup, n: nat)
    ensures u.After(START, n).sequence == LocalDraws(u, n) % 4096
  {
    hide Setup.Generate;
    if n > 0 {
      SequenceCountsDraws(u, n - 1);
      AnyCall(u, u.After(START, n - 1), LocalDraws(u, n - 1));
    }
  }

  /** The ID that call i issues, in full: the last clock reading, the node, and the number. */
  lemma IssuedIdDecomposes(u: Setup, i: nat)
    requires u.node.Valid() && u.OutcomeAt(START, i).Generated? && 0 <= Number(u, i) <= 4095
    ensures Decompose(u.OutcomeAt(START, i).stamp.Id(u.node)) ==
      Parts(u.After(START, i + 1).lastTimestamp, u.node, Number(u, i))
    ensures var s := u.After(START, i + 1);
      && s.clockAt > 0 && s.lastTimestamp == u.clock(s.clockAt - 1)
      && s.cacheAt > 0
      && if u.cache(s.cacheAt - 1).Raises? then Number(u, i) == s.sequence
         else s.cacheAt > 1 && u.cache(s.cacheAt - 2) == Returns(Number(u, i))
  {
    hide Setup.Generate, Decompose, Pack, Number;
    SequenceIsNumber(u, i);
    GeneratedFields(u, u.After(START, i));
  }

  lemma SequenceIsNumber(u: Setup, i: nat)
    requires u.OutcomeAt(START, i).Generated?
    ensures u.OutcomeAt(START, i).stamp.sequence == Number(u, i)
  {
    hide Setup.Generate;
    SequenceCountsDraws(u, i);
    SequenceCountsDraws(u, i + 1);
    AnyCall(u, u.After(START, i), LocalDraws(u, i));
  }

  /** On the fallback the clock alone says how many numbers a call draws: two if it waits through an exhausted
      millisecond, none if it finds the clock behind, else one. */
  lemma LocalDrawsByClock(u: Setup, i: nat)
    requires CallAt(u, i).OnFallback()
    ensures !CallAt(u, i).Answered()
    ensures Locals(CallAt(u, i).draws) ==
      match u.OutcomeAt(START, i)
      case MovedBackwards(_) => 0
      case Stalled => 1
      case Generated(stamp) => if stamp.timestamp == u.clock(u.After(START, i).clockAt) then 1 else 2
  {
    hide BitOps.BitAnd, Setup.Draw, Setup.Wait;
    var s := u.After(START, i);
    var read := s.(clockAt := s.clockAt + 1);
    var d := u.Draw(read);
    DrawKeepsTimestamp(u, read);
    var (later, at) := u.Wait(d.state.clockAt, s.lastTimestamp, 0);
    LocalsOf(d, u.Draw(d.state.(clockAt := at)));
    var ds := CallAt(u, i).draws;
    assert ds != [] ==> ds[0] in ds && ds[|ds| - 1] in ds;
  }

  // ---- Timestamps ----

  lemma {:induction false} LastTimestampAscends(u: Setup, m: nat, n: nat)
    requires m <= n
    ensures u.After(START, m).lastTimestamp <= u.After(START, n).lastTimestamp
    decreases n - m
  {
    hide Setup.Generate;
    if m < n {
      LastTimestampAscends(u, m, n - 1);
      AnyStep(u, u.After(START, n - 1));
    }
  }

  lemma TimestampsAscend(u: Setup, i: nat, j: nat)
    requires i < j && u.OutcomeAt(START, i).Generated? && u.OutcomeAt(START, j).Generated?
    ensures var t := u.OutcomeAt(START, i).stamp.timestamp;
      && t == u.After(START, i + 1).lastTimestamp <= u.After(START, j).lastTimestamp
      && t <= u.OutcomeAt(START, j).stamp.timestamp
  {
    hide Setup.Generate;
    AnyStep(u, u.After(START, i));
    AnyStep(u, u.After(START, j));
    LastTimestampAscends(u, i + 1, j);
  }

  // ---- Any selection of a context's calls ----

  /** The calls are in order, and each generated. */
  ghost predicate Issues(u: Setup, calls: seq<nat>) {
    && (forall a | 0 <= a < |calls| :: u.OutcomeAt(START, calls[a]).Generated?)
    && (forall a, b | 0 <= a < b < |calls| :: calls[a] < calls[b])
  }

  function StampsOf(u: Setup, calls: seq<nat>): seq<Stamp>
    requires forall a | 0 <= a < |calls| :: u.OutcomeAt(START, calls[a]).Generated?
  {
    seq(|calls|, a requires 0 <= a < |calls| => u.OutcomeAt(START, calls[a]).stamp)
  }

  /** Call i of one context and call j of another generate in the same millisecond with the same number. */
  predicate Meet(u: Setup, i: nat, v: Setup, j: nat) {
    && u.OutcomeAt(START, i).Generated? && v.OutcomeAt(START, j).Generated?
    && u.OutcomeAt(START, i).stamp.timestamp == v.OutcomeAt(START, j).stamp.timestamp
    && Number(u, i) == Number(v, j)
  }

  /** Calls i and j generate in the same millisecond, and the number of j is not beyond that of i. */
  predicate FallsBehind(u: Setup, i: nat, j: nat) {
    && u.OutcomeAt(START, i).Generated? && u.OutcomeAt(START, j).Generated?
    && u.OutcomeAt(START, i).stamp.timestamp == u.OutcomeAt(START, j).stamp.timestamp
    && Number(u, j) <= Number(u, i)
  }

  lemma MeetingIsOneStamp(u: Setup, i: nat, v: Setup, j: nat)
    requires u.OutcomeAt(START, i).Generated? && v.OutcomeAt(START, j).Generated?
    ensures Meet(u, i, v, j) <==> u.OutcomeAt(START, i).stamp == v.OutcomeAt(START, j).stamp
  {
    hide Setup.OutcomeAt, Number;
    SequenceIsNumber(u, i);
    SequenceIsNumber(v, j);
  }

  lemma FallingBehindIsDisorder(u: Setup, i: nat, j: nat)
    requires i < j && u.OutcomeAt(START, i).Generated? && u.OutcomeAt(START, j).Generated?
    ensures FallsBehind(u, i, j) <==> !u.OutcomeAt(START, i).stamp.Before(u.OutcomeAt(START, j).stamp)
  {
    hide Setup.OutcomeAt, Number;
    SequenceIsNumber(u, i);
    SequenceIsNumber(u, j);
    TimestampsAscend(u, i, j);
  }

  /** Of any selection of a context's calls, the IDs are pairwise distinct exactly when no two calls meet. */
  lemma DistinctUnlessMeeting(u: Setup, calls: seq<nat>)
    requires u.node.Valid() && Issues(u, calls) && Fit(StampsOf(u, calls))
    ensures Distinct(u.Ids(StampsOf(u, calls))) <==>
      forall a, b | 0 <= a < b < |calls| :: !Meet(u, calls[a], u, calls[b])
  {
    hide Setup.OutcomeAt, Meet, Pack;
    var made := StampsOf(u, calls);
    forall a, b | 0 <= a < b < |calls|
      ensures u.Ids(made)[a] == u.Ids(made)[b] <==> Meet(u, calls[a], u, calls[b])
    {
      assert made[a] in made && made[b] in made;
      MeetingIsOneStamp(u, calls[a], u, calls[b]);
      PackInjective(Parts(made[a].timestamp, u.node, made[a].sequence),
                    Parts(made[b].timestamp, u.node, made[b].sequence));
    }
  }

  /** They increase strictly exactly when no later call falls behind an earlier one. */
  lemma IncreasingUnlessFallingBehind(u: Setup, calls: seq<nat>)
    requires u.node.Valid() && Issues(u, calls) && Fit(StampsOf(u, calls))
    ensures Increasing(u.Ids(StampsOf(u, calls))) <==>
      forall a, b | 0 <= a < b < |calls| :: !FallsBehind(u, calls[a], calls[b])
  {
    hide Setup.OutcomeAt, FallsBehind, Pack;
    var made := StampsOf(u, calls);
    AscendingIds(u, made);
    forall a, b | 0 <= a < b < |calls|
      ensures made[a].Before(made[b]) <==> !FallsBehind(u, calls[a], calls[b])
    {
      FallingBehindIsDisorder(u, calls[a], calls[b]);
    }
  }

  // ---- All calls of a context ----

  function GeneratedCalls(u: Setup, n: nat): seq<nat> {
    if n == 0 then []
    else GeneratedCalls(u, n - 1) + (if u.OutcomeAt(START, n - 1).Generated? then [n - 1] else [])
  }

  lemma {:induction false} GeneratedCallsIssue(u: Setup, n: nat)
    ensures Issues(u, GeneratedCalls(u, n)) && u.Stamps(START, n) == StampsOf(u, GeneratedCalls(u, n))
    ensures forall i: nat :: i in GeneratedCalls(u, n) <==> i < n && u.OutcomeAt(START, i).Generated?
  {
    hide Setup.OutcomeAt;
    if n > 0 {
      GeneratedCallsIssue(u, n - 1);
      var front := GeneratedCalls(u, n - 1);
      assert forall a | 0 <= a < |front| :: front[a] in front;
    }
  }

  /** Two positions of a selection, from two of its calls. */
  lemma PositionsOf(calls: seq<nat>, i: nat, j: nat) returns (a: nat, b: nat)
    requires i in calls && j in calls && i < j
    requires forall a, b | 0 <= a < b < |calls| :: calls[a] < calls[b]
    ensures a < b < |calls| && calls[a] == i && calls[b] == j
  {
    a :| a < |calls| && calls[a] == i;
    b :| b < |calls| && calls[b] == j;
  }

  /** Whatever the clock and the cache do, the IDs of a context are pairwise distinct exactly when no two calls
      generate in one millisecond with one number: two answers with the same count, two fallbacks a multiple of 4096
      local draws apart, or an answer and a fallback that happen to agree. */
  lemma IdsDistinctUnlessMeeting(u: Setup, n: nat)
    requires u.node.Valid() && Fit(u.Stamps(START, n))
    ensures Distinct(u.Ids(u.Stamps(START, n))) <==> forall i, j | 0 <= i < j < n :: !Meet(u, i, u, j)
  {
    hide Setup.OutcomeAt, Number, Distinct, Fit;
    var calls := GeneratedCalls(u, n);
    GeneratedCallsIssue(u, n);
    DistinctUnlessMeeting(u, calls);
    hide GeneratedCalls;
    forall a, b | 0 <= a < b < |calls| ensures calls[a] < calls[b] < n {
      assert calls[b] in calls;
    }
    if i, j :| 0 <= i < j < n && Meet(u, i, u, j) {
      var a, b := PositionsOf(calls, i, j);
    }
  }

  // ---- On the fallback ----

  lemma LocalNumber(u: Setup, n: nat, i: nat)
    requires LocalOnly(u, n) && i < n
    ensures Number(u, i) == LocalDraws(u, i + 1) % 4096
    ensures u.OutcomeAt(START, i).Generated? ==> LocalDraws(u, i + 1) > LocalDraws(u, i)
  {
    hide Setup.Generate;
    LocalDrawsByClock(u, i);
  }

  lemma {:induction false} DrawsAscend(u: Setup, m: nat, n: nat)
    requires m <= n
    ensures LocalDraws(u, m) <= LocalDraws(u, n)
    decreases n - m
  {
    hide Setup.Generate;
    if m < n {
      DrawsAscend(u, m, n - 1);
    }
  }

  /** Calls i and j generate in the same millisecond, at least 4096 local numbers apart. */
  predicate Overdraws(u: Setup, i: nat, j: nat) {
    && u.OutcomeAt(START, i).Generated? && u.OutcomeAt(START, j).Generated?
    && u.OutcomeAt(START, i).stamp.timestamp == u.OutcomeAt(START, j).stamp.timestamp
    && LocalDraws(u, j + 1) - LocalDraws(u, i + 1) >= 4096
  }

  lemma MeetingOverdraws(u: Setup, n: nat, i: nat, j: nat)
    requires LocalOnly(u, n) && i < j < n && Meet(u, i, u, j)
    ensures Overdraws(u, i, j)
  {
    hide Setup.OutcomeAt, LocalDraws, LocalOnly;
    LocalNumber(u, n, i);
    LocalNumber(u, n, j);
    DrawsAscend(u, i + 1, j);
  }

  /** A call between two that generate in one millisecond draws at most one number, and issues it unless it is 0. */
  lemma DrawsOneByOne(u: Setup, n: nat, i: nat, k: nat, j: nat)
    requires LocalOnly(u, n) && i < k <= j < n
    requires u.OutcomeAt(START, i).Generated? && u.OutcomeAt(START, j).Generated?
    requires u.OutcomeAt(START, i).stamp.timestamp == u.OutcomeAt(START, j).stamp.timestamp
    ensures LocalDraws(u, k) <= LocalDraws(u, k + 1) <= LocalDraws(u, k) + 1
    ensures LocalDraws(u, k) < LocalDraws(u, k + 1) ==>
      if LocalDraws(u, k + 1) % 4096 == 0 then u.OutcomeAt(START, k).Stalled?
      else u.OutcomeAt(START, k).Generated? &&
           u.OutcomeAt(START, k).stamp.timestamp == u.OutcomeAt(START, i).stamp.timestamp
  {
    hide Setup.Generate;
    var s := u.After(START, k);
    SequenceCountsDraws(u, k);
    SequenceCountsDraws(u, k + 1);
    LocalStep(u, s);
    LocalDrawsByClock(u, k);
    TimestampsAscend(u, i, j);
    LastTimestampAscends(u, i + 1, k);
    if u.OutcomeAt(START, k).Generated? {
      TimestampsAscend(u, i, k);
      if k < j {
        TimestampsAscend(u, k, j);
      }
    }
  }

  /** Drawn one by one, the numbers after call i include every later one: some call draws the d-th. */
  lemma {:induction false} SomeCallDraws(u: Setup, n: nat, i: nat, k: nat, j: nat, d: nat) returns (m: nat)
    requires LocalOnly(u, n) && i <= k <= j < n
    requires u.OutcomeAt(START, i).Generated? && u.OutcomeAt(START, j).Generated?
    requires u.OutcomeAt(START, i).stamp.timestamp == u.OutcomeAt(START, j).stamp.timestamp
    requires LocalDraws(u, i + 1) <= d <= LocalDraws(u, k + 1)
    ensures i <= m <= k && LocalDraws(u, m + 1) == d && (m > i ==> LocalDraws(u, m) < d)
    decreases k
  {
    hide Setup.OutcomeAt, LocalDraws, LocalOnly;
    if k == i {
      m := i;
    } else if d <= LocalDraws(u, k) {
      m := SomeCallDraws(u, n, i, k - 1, j, d);
    } else {
      DrawsOneByOne(u, n, i, k, j);
      m := k;
    }
  }

  lemma OverdrawingMeets(u: Setup, n: nat, i: nat, j: nat) returns (m: nat)
    requires LocalOnly(u, n) && i < j < n && Overdraws(u, i, j)
    ensures i <= m < j && Meet(u, m, u, j)
  {
    hide Setup.OutcomeAt, LocalDraws, LocalOnly, Number;
    m := SomeCallDraws(u, n, i, j, j, LocalDraws(u, j + 1) - 4096);
    LocalNumber(u, n, m);
    LocalNumber(u, n, j);
    DrawsOneByOne(u, n, i, j, j);
    if m > i {
      DrawsOneByOne(u, n, i, m, j);
    }
  }

  /** On the fallback, under any clock, the IDs of a context are pairwise distinct exactly when no two calls meet;
      that is, exactly when no millisecond goes 4096 numbers beyond the first that it issues. */
  lemma LocalIdsDistinct(u: Setup, n: nat)
    requires u.node.Valid() && LocalOnly(u, n)
    ensures Distinct(u.Ids(u.Stamps(START, n))) <==> forall i, j | 0 <= i < j < n :: !Meet(u, i, u, j)
    ensures Distinct(u.Ids(u.Stamps(START, n))) <==> forall i, j | 0 <= i < j < n :: !Overdraws(u, i, j)
  {
    hide Setup.OutcomeAt, LocalOnly, Meet, Overdraws, Distinct, Setup.Stamps;
    ShapeHolds(u, n);
    IdsDistinctUnlessMeeting(u, n);
    if i, j :| 0 <= i < j < n && Meet(u, i, u, j) {
      MeetingOverdraws(u, n, i, j);
    }
    if i, j :| 0 <= i < j < n && Overdraws(u, i, j) {
      var m := OverdrawingMeets(u, n, i, j);
    }
  }

  /** A call that resumes after a stall issues number 1, so it repeats an ID exactly when its millisecond has issued
      number 1 before. */
  lemma ResumingRepeatsExactly(u: Setup, n: nat)
    requires LocalOnly(u, n + 1) && ResumesAt(u, n)
    ensures var t := u.After(START, n).lastTimestamp;
      && u.Stamps(START, n + 1) == u.Stamps(START, n) + [Stamp(t, 1)]
      && (Stamp(t, 1) in u.Stamps(START, n) <==> exists i :: 0 <= i < n && Meet(u, i, u, n))
  {
    hide Setup.Generate;
    ShapeHolds(u, n);
    LocalStep(u, u.After(START, n));
    assert forall i | 0 <= i < n && Meet(u, i, u, n) :: u.OutcomeAt(START, i).Generated?;
    hide Meet, Setup.OutcomeAt;
    var p := Stamp(u.After(START, n).lastTimestamp, 1);
    StampsAreIssued(u, n, p);
    forall i | 0 <= i < n && u.OutcomeAt(START, i).Generated?
      ensures Meet(u, i, u, n) <==> u.OutcomeAt(START, i) == Generated(p)
    {
      MeetingIsOneStamp(u, i, u, n);
    }
  }

  lemma {:induction false} StampsAreIssued(u: Setup, n: nat, p: Stamp)
    ensures p in u.Stamps(START, n) <==> exists i :: 0 <= i < n && u.OutcomeAt(START, i) == Generated(p)
  {
    hide Setup.OutcomeAt;
    if n > 0 {
      StampsAreIssued(u, n - 1, p);
      assert p in u.Stamps(START, n) <==> p in u.Stamps(START, n - 1) || u.OutcomeAt(START, n - 1) == Generated(p);
    }
  }

  /** A call can resume in an exhausted millisecond and repeat nothing: the order breaks, the IDs stay distinct. */
  lemma ResumingNeedNotRepeat(node: Node)
    requires node.Valid()
    ensures var u, n := LateSetup(node), MAX_SEQUENCE + 2;
      && LocalOnly(u, n) && ResumesAt(u, n - 1)
      && !Increasing(u.Ids(u.Stamps(START, n))) && Distinct(u.Ids(u.Stamps(START, n)))
  {
    hide Setup.Stamps, Setup.OutcomeAt, Pack, ResumesAt;
    var u, n := LateSetup(node), MAX_SEQUENCE + 2;
    LateStamps(node);
    LocalIdsIncrease(u, n);
    var made := u.Stamps(START, n);
    forall a, b | 0 <= a < b < |made| ensures u.Ids(made)[a] != u.Ids(made)[b] {
      PackInjective(Parts(made[a].timestamp, node, made[a].sequence), Parts(made[b].timestamp, node, made[b].sequence));
    }
  }

  // ---- The order of a context's IDs under any cache ----

  /** The last call before i that generated. */
  function Previous(u: Setup, i: nat): Option<nat> {
    if i == 0 then None
    else if u.OutcomeAt(START, i - 1).Generated? then Some(i - 1)
    else Previous(u, i - 1)
  }

  /** The number that call i draws first. */
  function FirstDraw(u: Setup, i: nat): Drawn {
    var s := u.After(START, i);
    u.Draw(s.(clockAt := s.clockAt + 1))
  }

  /** Call i finds the millisecond of the newest ID and regresses. Between two fallbacks that takes a wait that gave
      up since, drawing the number 0. Otherwise the counter did not move on, or the two sources follow one another:
      the next number, unless it is 0 and makes the call wait, is not beyond the newest one. */
  predicate Regresses(u: Setup, i: nat) {
    var s, first := u.After(START, i), FirstDraw(u, i);
    match Previous(u, i)
    case None => false
    case Some(p) =>
      u.clock(s.clockAt) == s.lastTimestamp &&
      if first.fallback && !CallAt(u, p).Answered() then LocalDraws(u, i) > LocalDraws(u, p + 1)
      else
        var next := if first.fallback then (LocalDraws(u, i) + 1) % 4096 else first.sequence;
        next != 0 && next <= Number(u, p)
  }

  /** Since the last generating call the timestamp has stayed, and of the local sequence at most the 0 was drawn. */
  lemma {:induction false} SincePrevious(u: Setup, i: nat)
    ensures match Previous(u, i)
      case None => forall k | 0 <= k < i :: !u.OutcomeAt(START, k).Generated?
      case Some(p) =>
        && p < i && u.OutcomeAt(START, p).Generated?
        && (forall k | p < k < i :: !u.OutcomeAt(START, k).Generated?)
        && u.After(START, i).lastTimestamp == u.OutcomeAt(START, p).stamp.timestamp
        && (LocalDraws(u, i) == LocalDraws(u, p + 1) ||
            (LocalDraws(u, i) == LocalDraws(u, p + 1) + 1 && LocalDraws(u, i) % 4096 == 0))
  {
    hide Setup.Generate;
    if i > 0 {
      SincePrevious(u, i - 1);
      SequenceCountsDraws(u, i - 1);
      AnyCall(u, u.After(START, i - 1), LocalDraws(u, i - 1));
      AnyStep(u, u.After(START, i - 1));
      var ds := CallAt(u, i - 1).draws;
      if u.OutcomeAt(START, i - 1).Stalled? {
        StalledDraws(u, u.After(START, i - 1));
        LocalsOf(ds[0], ds[0]);
        assert ds == [ds[0]];
      }
    }
  }

  /** A stalled call that fell back drew the 0 of the local sequence. */
  lemma StalledDraws(u: Setup, s: State)
    requires u.Generate(s).outcome.Stalled?
    ensures var d := u.Generate(s).draws; |d| == 1 && (d[0].fallback ==> (s.sequence + 1) % 4096 == 0)
  {
    hide BitOps.BitAnd, Setup.Draw, Setup.Wait;
    var read := s.(clockAt := s.clockAt + 1);
    if u.Draw(read).fallback {
      DrawFallsBack(u, read);
    }
  }

  /** In the newest ID's millisecond a call issues its first number, unless that is 0. */
  lemma SameMillisecond(u: Setup, i: nat)
    ensures var s, r, first := u.After(START, i), CallAt(u, i), FirstDraw(u, i);
      r.outcome.Generated? && r.outcome.stamp.timestamp == s.lastTimestamp <==>
        u.clock(s.clockAt) == s.lastTimestamp && first.sequence != 0
    ensures var s, r, first := u.After(START, i), CallAt(u, i), FirstDraw(u, i);
      r.outcome.Generated? && r.outcome.stamp.timestamp == s.lastTimestamp ==>
        r.outcome.stamp.sequence == first.sequence
    ensures FirstDraw(u, i).fallback ==> FirstDraw(u, i).sequence == (LocalDraws(u, i) + 1) % 4096
  {
    hide BitOps.BitAnd, Setup.Draw, Setup.Wait;
    SequenceCountsDraws(u, i);
    var s := u.After(START, i);
    AnyDraw(u, s.(clockAt := s.clockAt + 1), LocalDraws(u, i));
  }

  /** Call i regresses exactly when its stamp does not follow the newest one. */
  lemma RegressingIsDisorder(u: Setup, i: nat)
    ensures Regresses(u, i) <==> Previous(u, i).Some? && FallsBehind(u, Previous(u, i).value, i)
  {
    hide Setup.Generate, FirstDraw;
    SincePrevious(u, i);
    SameMillisecond(u, i);
    if p :| Previous(u, i) == Some(p) {
      SequenceIsNumber(u, p);
      if u.OutcomeAt(START, i).Generated? {
        SequenceIsNumber(u, i);
      }
    }
  }

  lemma {:induction false} NewestIsPrevious(u: Setup, n: nat)
    ensures var made := u.Stamps(START, n);
      match Previous(u, n)
      case None => made == []
      case Some(p) =>
        p < n && u.OutcomeAt(START, p).Generated? && made != [] &&
        made[|made| - 1] == u.OutcomeAt(START, p).stamp
  {
    hide Setup.OutcomeAt;
    if n > 0 {
      NewestIsPrevious(u, n - 1);
    }
  }

  lemma {:induction false} StampsAscendUnlessRegressing(u: Setup, n: nat)
    ensures Ascending(u.Stamps(START, n)) <==> forall i | 0 <= i < n :: !Regresses(u, i)
  {
    hide Setup.OutcomeAt, Regresses;
    if n > 0 {
      StampsAscendUnlessRegressing(u, n - 1);
      NewestIsPrevious(u, n - 1);
      RegressingIsDisorder(u, n - 1);
      var made := u.Stamps(START, n - 1);
      match u.OutcomeAt(START, n - 1)
      case Generated(stamp) =>
        AppendAscending(made, stamp);
        if p :| Previous(u, n - 1) == Some(p) {
          FallingBehindIsDisorder(u, p, n - 1);
        }
      case _ =>
        assert u.Stamps(START, n) == made;
    }
  }

  /** Whatever the clock and the cache do, the IDs of a context increase strictly exactly when no call regresses. */
  lemma MixedIdsIncrease(u: Setup, n: nat)
    requires u.node.Valid() && Fit(u.Stamps(START, n))
    ensures Increasing(u.Ids(u.Stamps(START, n))) <==> forall i | 0 <= i < n :: !Regresses(u, i)
  {
    hide Pack, Setup.OutcomeAt, Regresses;
    StampsAscendUnlessRegressing(u, n);
    AscendingIds(u, u.Stamps(START, n));
  }

  /** It does fail: a cache that serves the first call of a millisecond and not the second lets the local
      sequence repeat the ID. */
  lemma MixedRunRepeats(u: Setup, t: int)
    requires t >= 0 && u.clock(0) == u.clock(1) == t
    requires u.cache(0) == Returns(1) && u.cache(1).Returns? && u.cache(2).Raises?
    ensures u.Stamps(START, 2) == [Stamp(t, 1), Stamp(t, 1)] && Regresses(u, 1) && Meet(u, 0, u, 1)
  {
    hide BitOps.BitAnd, Setup.Wait;
    var s := START.(lastTimestamp := t, clockAt := 1, cacheAt := 2);
    assert u.After(START, 0) == START && CallAt(u, 0).state == s && CallAt(u, 0).outcome == Generated(Stamp(t, 1));
    assert u.After(START, 1) == s && u.Stamps(START, 1) == u.Stamps(START, 0) + [Stamp(t, 1)];
    var read := s.(clockAt := 2);
    assert u.Draw(read).fallback;
    DrawFallsBack(u, read);
    assert u.OutcomeAt(START, 1) == Generated(Stamp(t, 1));
    assert u.Stamps(START, 2) == u.Stamps(START, 1) + [Stamp(t, 1)];
    hide Setup.Generate;
    MeetingIsOneStamp(u, 0, u, 1);
    RegressingIsDisorder(u, 1);
  }

  // ---- Several contexts ----

  ghost predicate ShareId(u: Setup, made: seq<Stamp>, v: Setup, others: seq<Stamp>) {
    exists i, j :: 0 <= i < |made| && 0 <= j < |others| && u.Ids(made)[i] == v.Ids(others)[j]
  }

  lemma SharedIdIsSharedStamp(u: Setup, made: seq<Stamp>, v: Setup, others: seq<Stamp>)
    requires u.node.Valid() && v.node.Valid()
    requires forall p | p in made :: 0 <= p.sequence <= MAX_SEQUENCE
    requires forall p | p in others :: 0 <= p.sequence <= MAX_SEQUENCE
    ensures ShareId(u, made, v, others) <==> u.node == v.node && exists p :: p in made && p in others
  {
    hide Pack;
    forall i, j | 0 <= i < |made| && 0 <= j < |others|
      ensures u.Ids(made)[i] == v.Ids(others)[j] <==> u.node == v.node && made[i] == others[j]
    {
      PackInjective(Parts(made[i].timestamp, u.node, made[i].sequence),
                    Parts(others[j].timestamp, v.node, others[j].sequence));
    }
    if u.node == v.node && exists p :: p in made && p in others {
      var p :| p in made && p in others;
      var i :| 0 <= i < |made| && made[i] == p;
      var j :| 0 <= j < |others| && others[j] == p;
      assert u.Ids(made)[i] == v.Ids(others)[j];
    }
  }

  /** Two contexts, under any clocks and caches, share an ID exactly when they belong to the same node and two of
      their calls meet. So the fallback gives no uniqueness across contexts. */
  lemma ContextsShareExactlyWhenMeeting(u: Setup, n: nat, v: Setup, m: nat)
    requires u.node.Valid() && v.node.Valid() && Fit(u.Stamps(START, n)) && Fit(v.Stamps(START, m))
    ensures ShareId(u, u.Stamps(START, n), v, v.Stamps(START, m)) <==>
      u.node == v.node && exists i, j :: 0 <= i < n && 0 <= j < m && Meet(u, i, v, j)
  {
    hide Setup.Stamps, Setup.OutcomeAt, ShareId, Meet;
    SharedIdIsSharedStamp(u, u.Stamps(START, n), v, v.Stamps(START, m));
    MeetingIsSharing(u, n, v, m);
  }

  lemma MeetingIsSharing(u: Setup, n: nat, v: Setup, m: nat)
    ensures (exists p :: p in u.Stamps(START, n) && p in v.Stamps(START, m)) <==>
      exists i, j :: 0 <= i < n && 0 <= j < m && Meet(u, i, v, j)
  {
    hide Setup.OutcomeAt, Setup.Stamps, Number;
    if p :| p in u.Stamps(START, n) && p in v.Stamps(START, m) {
      StampsAreIssued(u, n, p);
      StampsAreIssued(v, m, p);
      var i :| 0 <= i < n && u.OutcomeAt(START, i) == Generated(p);
      var j :| 0 <= j < m && v.OutcomeAt(START, j) == Generated(p);
      MeetingIsOneStamp(u, i, v, j);
    }
    if i, j :| 0 <= i < n && 0 <= j < m && Meet(u, i, v, j) {
      MeetingIsOneStamp(u, i, v, j);
      StampsAreIssued(u, n, u.OutcomeAt(START, i).stamp);
      StampsAreIssued(v, m, v.OutcomeAt(START, j).stamp);
    }
  }

  /** In particular, two contexts of a node whose first calls read the same millisecond start with the same ID. */
  lemma ContextsCollide(u: Setup, v: Setup)
    requires u.node == v.node && LocalOnly(u, 1) && LocalOnly(v, 1)
    requires u.clock(0) == v.clock(0) >= 0
    ensures u.Ids(u.Stamps(START, 1)) == v.Ids(v.Stamps(START, 1)) == [Stamp(u.clock(0), 1).Id(u.node)]
  {
    hide BitOps.BitAnd, Pack, Setup.Generate;
    assert u.After(START, 0) == START && v.After(START, 0) == START;
    LocalStep(u, START);
    LocalStep(v, START);
    assert u.Stamps(START, 1) == u.Stamps(START, 0) + [Stamp(u.clock(0), 1)];
    assert v.Stamps(START, 1) == v.Stamps(START, 0) + [Stamp(u.clock(0), 1)];
  }

  // ---- What callers receive ----

  datatype Request = One | Batch(count: int)

  /** The generate calls made, and those of them whose IDs are handed out. */
  datatype Served = Served(steps: nat, issued: seq<nat>)

  function Range(m: nat, n: nat): seq<nat>
    requires m <= n
  {
    seq(n - m, k requires 0 <= k < n - m => m + k)
  }

  /** What a list of requests is answered with; a batch that raises part-way hands out none of its own IDs. */
  function Serve(u: Setup, requests: seq<Request>): Served {
    if requests == [] then Served(0, [])
    else
      var before := Serve(u, requests[..|requests| - 1]);
      var start := before.steps;
      match requests[|requests| - 1]
      case One =>
        Served(start + 1, before.issued + (if u.OutcomeAt(START, start).Generated? then [start] else []))
      case Batch(count) =>
        if !(1 <= count <= 1000) then before
        else
          var end := u.BatchEnd(START, start, start + count);
          Served(end, before.issued + (if u.AllGenerated(START, start, end) then Range(start, end) else []))
  }

  lemma {:induction false} RunContinues(u: Setup, m: nat, n: nat)
    ensures u.After(u.After(START, m), n) == u.After(START, m + n)
    ensures u.OutcomeAt(u.After(START, m), n) == u.OutcomeAt(START, m + n)
  {
    hide Setup.Generate;
    if n > 0 {
      RunContinues(u, m, n - 1);
    }
  }

  lemma {:induction false} BatchEndContinues(u: Setup, m: nat, k: nat, count: nat)
    requires k <= count
    ensures u.BatchEnd(START, m + k, m + count) == m + u.BatchEnd(u.After(START, m), k, count)
    decreases count - k
  {
    hide Setup.OutcomeAt;
    RunContinues(u, m, k);
    if k < count {
      BatchEndContinues(u, m, k + 1, count);
    }
  }

  lemma {:induction false} StampsContinue(u: Setup, m: nat, n: nat)
    requires u.AllGenerated(u.After(START, m), 0, n)
    ensures u.AllGenerated(START, m, m + n) && u.Stamps(u.After(START, m), n) == StampsOf(u, Range(m, m + n))
  {
    hide Setup.OutcomeAt;
    forall i | m <= i < m + n ensures u.OutcomeAt(START, i).Generated? {
      RunContinues(u, m, i - m);
    }
    if n > 0 {
      StampsContinue(u, m, n - 1);
      RunContinues(u, m, n - 1);
    }
  }

  /** A batch made after `start` calls ends, and hands out IDs, as the contract of BatchGenerateIds says. */
  lemma BatchIsServed(u: Setup, start: nat, count: nat)
    ensures var s := u.After(START, start);
      var steps := u.BatchEnd(s, 0, count);
      && u.BatchEnd(START, start, start + count) == start + steps
      && u.After(s, steps) == u.After(START, start + steps)
      && (u.AllGenerated(s, 0, steps) <==> u.AllGenerated(START, start, start + steps))
      && (u.AllGenerated(s, 0, steps) ==> u.Stamps(s, steps) == StampsOf(u, Range(start, start + steps)))
  {
    hide Setup.OutcomeAt;
    var s := u.After(START, start);
    var steps := u.BatchEnd(s, 0, count);
    BatchEndContinues(u, start, 0, count);
    RunContinues(u, start, steps);
    if u.AllGenerated(s, 0, steps) {
      StampsContinue(u, start, steps);
    } else {
      var i :| 0 <= i < steps && !u.OutcomeAt(s, i).Generated?;
      RunContinues(u, start, i);
    }
  }

  lemma {:induction false} ServedAreGenerated(u: Setup, requests: seq<Request>)
    ensures var r := Serve(u, requests); Issues(u, r.issued) && forall i | i in r.issued :: i < r.steps
  {
    hide Setup.OutcomeAt, Setup.BatchEnd;
    if requests != [] {
      ServedAreGenerated(u, requests[..|requests| - 1]);
      var before := Serve(u, requests[..|requests| - 1]);
      assert forall a | 0 <= a < |before.issued| :: before.issued[a] in before.issued;
    }
  }

  /** Under any clock and cache, the IDs handed out for any mix of single and batch requests are pairwise distinct
      exactly when no two of their calls meet, and increase strictly exactly when none falls behind an earlier one. */
  lemma ServedIdsExactly(u: Setup, requests: seq<Request>)
    requires u.node.Valid() && Fit(u.Stamps(START, Serve(u, requests).steps))
    ensures var issued := Serve(u, requests).issued;
      && Issues(u, issued)
      && (Distinct(u.Ids(StampsOf(u, issued))) <==>
            forall a, b | 0 <= a < b < |issued| :: !Meet(u, issued[a], u, issued[b]))
      && (Increasing(u.Ids(StampsOf(u, issued))) <==>
            forall a, b | 0 <= a < b < |issued| :: !FallsBehind(u, issued[a], issued[b]))
  {
    hide Setup.OutcomeAt, Serve, Distinct, Increasing, Meet, FallsBehind;
    var r := Serve(u, requests);
    ServedAreGenerated(u, requests);
    var made := StampsOf(u, r.issued);
    forall p | p in made ensures p in u.Stamps(START, r.steps) {
      var a :| 0 <= a < |made| && made[a] == p;
      assert r.issued[a] in r.issued;
      StampsAreIssued(u, r.steps, p);
    }
    DistinctUnlessMeeting(u, r.issued);
    IncreasingUnlessFallingBehind(u, r.issued);
  }

  lemma GeneratedInOrder(u: Setup, n: nat, i: nat, j: nat)
    requires i < j < n && Ascending(u.Stamps(START, n))
    requires u.OutcomeAt(START, i).Generated? && u.OutcomeAt(START, j).Generated?
    ensures u.OutcomeAt(START, i).stamp.Before(u.OutcomeAt(START, j).stamp)
  {
    hide Setup.OutcomeAt;
    GeneratedCallsIssue(u, n);
    hide GeneratedCalls;
    var a, b := PositionsOf(GeneratedCalls(u, n), i, j);
    var made := u.Stamps(START, n);
    assert made[a].Before(made[b]);
  }

  /** In particular every mix of requests receives strictly increasing IDs while no call regresses. */
  lemma ServedMixedIdsIncrease(u: Setup, requests: seq<Request>)
    requires u.node.Valid() && Fit(u.Stamps(START, Serve(u, requests).steps))
    requires forall i | 0 <= i < Serve(u, requests).steps :: !Regresses(u, i)
    ensures var issued := Serve(u, requests).issued; Issues(u, issued) && Increasing(u.Ids(StampsOf(u, issued)))
  {
    hide Pack, Setup.OutcomeAt, Serve, Regresses, FallsBehind, Increasing, Ascending, Fit;
    var r := Serve(u, requests);
    ServedAreGenerated(u, requests);
    ServedIdsExactly(u, requests);
    StampsAscendUnlessRegressing(u, r.steps);
    forall a, b | 0 <= a < b < |r.issued| ensures !FallsBehind(u, r.issued[a], r.issued[b]) {
      var i, j := r.issued[a], r.issued[b];
      assert j in r.issued;
      GeneratedInOrder(u, r.steps, i, j);
      FallingBehindIsDisorder(u, i, j);
    }
  }

  /** On the fallback, while no call resumes in a millisecond in which the wait gave up. */
  lemma ServedIdsIncrease(u: Setup, requests: seq<Request>)
    requires u.node.Valid() && LocalOnly(u, Serve(u, requests).steps)
    requires forall i | 0 <= i < Serve(u, requests).steps :: !ResumesAt(u, i)
    ensures var issued := Serve(u, requests).issued; Issues(u, issued) && Increasing(u.Ids(StampsOf(u, issued)))
  {
    hide Pack, Setup.OutcomeAt, Serve, Regresses, ResumesAt, Increasing, Ascending, Issues;
    var n := Serve(u, requests).steps;
    LocalStampsAscend(u, n);
    ShapeHolds(u, n);
    StampsAscendUnlessRegressing(u, n);
    ServedMixedIdsIncrease(u, requests);
  }
}
