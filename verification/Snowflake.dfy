/** The ID generator of one execution context, driven by an arbitrary clock and an unreliable cache. */
module Snowflake {
  import opened BitOps
  import opened SnowflakePacking
  import opened Wrappers

  const MAX_WAIT := 100

  /** What one call into the shared cache did. */
  datatype Reply = Raises | Returns(value: int)

  /** The fields of an ID that differ from call to call. */
  datatype Stamp = Stamp(timestamp: int, sequence: int) {
    predicate Before(other: Stamp) {
      timestamp < other.timestamp || (timestamp == other.timestamp && sequence < other.sequence)
    }

    function Id(node: Node): int {
      Pack(Parts(timestamp, node, sequence))
    }
  }

  datatype Outcome = Generated(stamp: Stamp) | MovedBackwards(drift: int) | Stalled

  datatype Error = BadDatacenter | BadMachine | BadCount | ClockDrift

  /** The thread-local fields, and how many clock readings and cache calls have been used up. */
  datatype State = State(sequence: int, lastTimestamp: int, clockAt: nat, cacheAt: nat)

  const START := State(0, -1, 0, 0)

  datatype Drawn = Drawn(state: State, sequence: int, fallback: bool)

  /** The result of one generate call, and the numbers it drew on the way. */
  datatype Step = Step(state: State, outcome: Outcome, draws: seq<Drawn>) {
    /** No number came from the cache. */
    predicate OnFallback() {
      forall d | d in draws :: d.fallback
    }

    /** The ID's sequence came from the cache. */
    predicate Answered() {
      draws != [] && !draws[|draws| - 1].fallback
    }
  }

  /** A node with everything its environment will ever answer: the i-th clock reading and cache reply. */
  datatype Setup = Setup(node: Node, clock: nat -> int, cache: nat -> Reply) {

    function Fallback(s: State): Drawn {
      var next := BitAnd(s.sequence + 1, MAX_SEQUENCE);
      Drawn(s.(sequence := next), next, true)
    }

    /** The cache calls are incr, then on overflow delete and incr again, then expire. */
    function Draw(s: State): Drawn {
      var at := s.cacheAt;
      if cache(at).Raises? then Fallback(s.(cacheAt := at + 1))
      else if cache(at).value <= MAX_SEQUENCE then
        if cache(at + 1).Raises? then Fallback(s.(cacheAt := at + 2))
        else Drawn(s.(cacheAt := at + 2), cache(at).value, false)
      else if cache(at + 1).Raises? then Fallback(s.(cacheAt := at + 2))
      else if cache(at + 2).Raises? then Fallback(s.(cacheAt := at + 3))
      else if cache(at + 3).Raises? then Fallback(s.(cacheAt := at + 4))
      else Drawn(s.(cacheAt := at + 4), cache(at + 2).value, false)
    }

    /** The cache calls of one draw from position `from` up to `to`: incr and expire, or with a count past 4095
        incr, delete, incr and expire, up to the first that raises. */
    ghost predicate Calls(from: nat, to: nat) {
      && from < to
      && (forall i | from <= i < to - 1 :: cache(i).Returns?)
      && if cache(from).Raises? then to == from + 1
         else
           var all := if cache(from).value <= 4095 then 2 else 4;
           if cache(to - 1).Raises? then to <= from + all else to == from + all
    }

    /** The calls between the two positions end with a draw that raised or was answered. */
    ghost predicate EndsDraw(from: nat, to: nat) {
      exists start :: from <= start < to && Calls(start, to)
    }

    /** The reading the wait ends with, and the position after it. */
    function Wait(at: nat, last: int, sleeps: nat): (int, nat)
      requires sleeps <= MAX_WAIT
      decreases MAX_WAIT - sleeps
    {
      if clock(at) <= last && sleeps < MAX_WAIT then Wait(at + 1, last, sleeps + 1)
      else (clock(at), at + 1)
    }

    function Finish(timestamp: int, draws: seq<Drawn>): Step
      requires draws != []
    {
      var d := draws[|draws| - 1];
      Step(d.state.(lastTimestamp := timestamp), Generated(Stamp(timestamp, d.sequence)), draws)
    }

    function Generate(s: State): Step {
      var timestamp := clock(s.clockAt);
      var read := s.(clockAt := s.clockAt + 1);
      if timestamp < s.lastTimestamp then
        Step(read, MovedBackwards(s.lastTimestamp - timestamp), [])
      else
        var d := Draw(read);
        if timestamp == s.lastTimestamp && d.sequence == 0 then
          var (later, at) := Wait(d.state.clockAt, s.lastTimestamp, 0);
          var waited := d.state.(clockAt := at);
          if later <= s.lastTimestamp then Step(waited, Stalled, [d])
          else Finish(later, [d, Draw(waited)])
        else
          Finish(timestamp, [d])
    }

    /** The state after n generate calls from s. */
    function After(s: State, n: nat): State {
      if n == 0 then s else Generate(After(s, n - 1)).state
    }

    function OutcomeAt(s: State, i: nat): Outcome {
      Generate(After(s, i)).outcome
    }

    /** What the first n calls generated, in order. */
    function Stamps(s: State, n: nat): seq<Stamp> {
      if n == 0 then []
      else Stamps(s, n - 1) + (match OutcomeAt(s, n - 1) case Generated(stamp) => [stamp] case _ => [])
    }

    function Ids(stamps: seq<Stamp>): seq<int> {
      seq(|stamps|, i requires 0 <= i < |stamps| => stamps[i].Id(node))
    }

    predicate AllGenerated(s: State, from: nat, to: nat) {
      forall i | from <= i < to :: OutcomeAt(s, i).Generated?
    }

    /** How many of the calls numbered from k up to `end` are made before one raises, that one included. */
    function BatchEnd(s: State, k: nat, end: nat): (e: nat)
      requires k <= end
      ensures k <= e <= end
      decreases end - k
    {
      if k == end then k
      else if OutcomeAt(s, k).Generated? then BatchEnd(s, k + 1, end)
      else k + 1
    }
  }

  class Generator {
    const setup: Setup
    var sequence: int
    var lastTimestamp: int
    var clockAt: nat
    var cacheAt: nat

    ghost function Local(): State
      reads this
    {
      State(sequence, lastTimestamp, clockAt, cacheAt)
    }

    constructor (setup: Setup)
      ensures this.setup == setup && Local() == START == State(0, -1, 0, 0)
    {
      this.setup := setup;
      sequence, lastTimestamp, clockAt, cacheAt := 0, -1, 0, 0;
    }

    /** The generator's constructor refuses a datacenter or machine that does not fit five bits. */
    static method Create(setup: Setup) returns (r: Result<Generator, Error>)
      ensures r.Success? <==> setup.node.Valid()
      ensures r.Success? <==> 0 <= setup.node.datacenter <= 31 && 0 <= setup.node.machine <= 31
      ensures r.Success? ==> fresh(r.value) && r.value.setup == setup && r.value.Local() == START
      ensures r.Failure? ==> r.error == if 0 <= setup.node.datacenter <= 31 then BadMachine else BadDatacenter
    {
      if !(0 <= setup.node.datacenter <= MAX_DATACENTER_ID) {
        return Failure(BadDatacenter);
      }
      if !(0 <= setup.node.machine <= MAX_MACHINE_ID) {
        return Failure(BadMachine);
      }
      var g := new Generator(setup);
      r := Success(g);
    }

    method CurrentTimestamp() returns (timestamp: int)
      modifies this`clockAt
      ensures timestamp == setup.clock(old(clockAt)) && clockAt == old(clockAt) + 1
    {
      timestamp := setup.clock(clockAt);
      clockAt := clockAt + 1;
    }

    method CallCache() returns (r: Reply)
      modifies this`cacheAt
      ensures r == setup.cache(old(cacheAt)) && cacheAt == old(cacheAt) + 1
    {
      r := setup.cache(cacheAt);
      cacheAt := cacheAt + 1;
    }

    method WaitForNextMillis(last: int) returns (r: Result<int, Error>)
      modifies this`clockAt
      ensures var (timestamp, at) := setup.Wait(old(clockAt), last, 0);
        clockAt == at && r == if timestamp > last then Success(timestamp) else Failure(ClockDrift)
      ensures old(clockAt) < clockAt <= old(clockAt) + 101
      ensures forall i | old(clockAt) <= i < clockAt - 1 :: setup.clock(i) <= last
      ensures r == if setup.clock(clockAt - 1) > last then Success(setup.clock(clockAt - 1)) else Failure(ClockDrift)
      ensures r.Failure? ==> clockAt == old(clockAt) + 101
    {
      var timestamp := CurrentTimestamp();
      var sleeps := 0;
      while timestamp <= last && sleeps < MAX_WAIT
        invariant sleeps <= MAX_WAIT && clockAt > 0 && timestamp == setup.clock(clockAt - 1)
        invariant setup.Wait(old(clockAt), last, 0) == setup.Wait(clockAt - 1, last, sleeps)
        decreases MAX_WAIT - sleeps
      {
        timestamp := CurrentTimestamp();
        sleeps := sleeps + 1;
      }
      r := if timestamp <= last then Failure(ClockDrift) else Success(timestamp);
      WaitStopsInTime(setup, old(clockAt), last, 0);
    }

    method GetDistributedSequence() returns (drawn: int)
      modifies this`sequence, this`cacheAt
      ensures setup.Draw(old(Local())).sequence == drawn && setup.Draw(old(Local())).state == Local()
      ensures cacheAt > old(cacheAt) && setup.Calls(old(cacheAt), cacheAt)
      ensures if setup.cache(cacheAt - 1).Raises? then drawn == sequence == (old(sequence) + 1) % 4096
              else drawn == setup.cache(cacheAt - 2).value && sequence == old(sequence)
    {
      DrawCalls(setup, Local());
      var reply := CallCache();
      if reply.Returns? && reply.value > MAX_SEQUENCE {
        reply := CallCache();
        if reply.Returns? {
          reply := CallCache();
        }
      }
      if reply.Returns? {
        drawn := reply.value;
        reply := CallCache();
      }
      if reply.Raises? {
        sequence := BitAnd(sequence + 1, MAX_SEQUENCE);
        drawn := sequence;
      }
    }

    method GenerateId() returns (r: Result<int, Error>)
      modifies this
      ensures r == match setup.Generate(old(Local())).outcome
                   case Generated(stamp) => Success(stamp.Id(setup.node))
                   case _ => Failure(ClockDrift)
      ensures Local() == setup.Generate(old(Local())).state
      ensures setup.clock(old(clockAt)) < old(lastTimestamp) ==>
        r == Failure(ClockDrift) && Local() == old(Local()).(clockAt := clockAt)
      ensures r.Failure? ==> lastTimestamp == old(lastTimestamp)
      ensures r.Success? ==>
        && clockAt > old(clockAt) && lastTimestamp == setup.clock(clockAt - 1) >= old(lastTimestamp)
        && setup.EndsDraw(old(cacheAt), cacheAt)
      ensures r.Success? && setup.node.Valid() ==>
        var number := if setup.cache(cacheAt - 1).Raises? then sequence else setup.cache(cacheAt - 2).value;
        0 <= number <= 4095 ==> Decompose(r.value) == Parts(lastTimestamp, setup.node, number)
    {
      hide BitAnd, Pack, Setup.Draw, Setup.Wait, Setup.Calls, Setup.EndsDraw, Decompose;
      GeneratedFields(setup, Local());
      var timestamp := CurrentTimestamp();
      if timestamp < lastTimestamp {
        return Failure(ClockDrift);
      }
      var drawn := GetDistributedSequence();
      if timestamp == lastTimestamp && drawn == 0 {
        var later := WaitForNextMillis(lastTimestamp);
        if later.Failure? {
          return later;
        }
        timestamp := later.value;
        drawn := GetDistributedSequence();
      }
      lastTimestamp := timestamp;
      r := Success(Pack(Parts(timestamp, setup.node, drawn)));
    }

    /** Calls generate `count` times; the first call that raises ends the batch and its IDs are lost. */
    method BatchGenerateIds(count: int) returns (r: Result<seq<int>, Error>)
      modifies this
      ensures !(1 <= count <= 1000) ==> r == Failure(BadCount) && Local() == old(Local())
      ensures 1 <= count <= 1000 ==>
        var steps := setup.BatchEnd(old(Local()), 0, count);
        && Local() == setup.After(old(Local()), steps)
        && r == if setup.AllGenerated(old(Local()), 0, steps)
                then Success(setup.Ids(setup.Stamps(old(Local()), steps))) else Failure(ClockDrift)
      ensures r.Success? ==> |r.value| == count == |setup.Stamps(old(Local()), count)|
      ensures r.Success? && setup.node.Valid() && Fit(setup.Stamps(old(Local()), count)) ==>
        forall k | 0 <= k < count ::
          var made := setup.Stamps(old(Local()), count)[k];
          Decompose(r.value[k]) == Parts(made.timestamp, setup.node, made.sequence)
    {
      hide BitAnd, BitOr, ShiftLeft, Setup.Generate, Decompose;
      if !(1 <= count <= 1000) {
        return Failure(BadCount);
      }
      ghost var start := Local();
      var ids := [];
      var i := 0;
      while i < count
        invariant 0 <= i <= count && |ids| == i
        invariant Local() == setup.After(start, i) && ids == setup.Ids(setup.Stamps(start, i))
        invariant setup.AllGenerated(start, 0, i)
        invariant setup.BatchEnd(start, 0, count) == setup.BatchEnd(start, i, count)
      {
        var id := GenerateId();
        i := i + 1;
        if id.Failure? {
          assert !setup.OutcomeAt(start, i - 1).Generated?;
          assert setup.BatchEnd(start, 0, count) == i;
          return Failure(ClockDrift);
        }
        ids := ids + [id.value];
      }
      if setup.node.Valid() && Fit(setup.Stamps(start, count)) {
        IdsDecompose(setup, setup.Stamps(start, count));
      }
      r := Success(ids);
    }
  }

  // ---- Runs of the local fallback ----

  /** No call of the first n took its sequence from the cache. */
  predicate LocalOnly(u: Setup, n: nat) {
    forall i | 0 <= i < n :: u.Generate(u.After(START, i)).OnFallback()
  }

  /** The last of the first n calls that read a clock not behind gave up waiting. */
  predicate Stuck(u: Setup, n: nat) {
    n > 0 &&
    match u.OutcomeAt(START, n - 1)
    case Stalled => true
    case Generated(_) => false
    case MovedBackwards(_) => Stuck(u, n - 1)
  }

  /** Call i starts in the very millisecond whose sequence the stalled call used up. */
  predicate ResumesAt(u: Setup, i: nat) {
    Stuck(u, i) && u.clock(u.After(START, i).clockAt) == u.After(START, i).lastTimestamp
  }

  /** Every sequence fits its bits. */
  ghost predicate Fit(stamps: seq<Stamp>) {
    forall p | p in stamps :: 0 <= p.sequence <= MAX_SEQUENCE
  }

  predicate Increasing(ids: seq<int>) {
    forall i, j | 0 <= i < j < |ids| :: ids[i] < ids[j]
  }

  predicate Ascending(stamps: seq<Stamp>) {
    forall i, j | 0 <= i < j < |stamps| :: stamps[i].Before(stamps[j])
  }

  lemma AscendingIds(u: Setup, stamps: seq<Stamp>)
    requires u.node.Valid() && Fit(stamps)
    ensures Increasing(u.Ids(stamps)) <==> Ascending(stamps)
  {
    hide Pack;
    forall i, j | 0 <= i < j < |stamps| ensures u.Ids(stamps)[i] < u.Ids(stamps)[j] <==> stamps[i].Before(stamps[j]) {
      var p, q := stamps[i], stamps[j];
      PackOrder(Parts(p.timestamp, u.node, p.sequence), Parts(q.timestamp, u.node, q.sequence));
    }
  }

  /** A wait that has slept `sleeps` times stops at the first later reading, after at most 100 sleeps in all. */
  lemma {:induction false} WaitStopsInTime(u: Setup, at: nat, last: int, sleeps: nat)
    requires sleeps <= 100
    ensures var (timestamp, end) := u.Wait(at, last, sleeps);
      && at < end <= at + (100 - sleeps) + 1
      && timestamp == u.clock(end - 1)
      && (forall i | at <= i < end - 1 :: u.clock(i) <= last)
      && (timestamp <= last ==> end == at + (100 - sleeps) + 1)
    decreases MAX_WAIT - sleeps
  {
    if u.clock(at) <= last && sleeps < MAX_WAIT {
      WaitStopsInTime(u, at + 1, last, sleeps + 1);
    }
  }

  lemma DrawFallsBack(u: Setup, s: State)
    requires u.Draw(s).fallback
    ensures u.Draw(s).sequence == u.Draw(s).state.sequence == (s.sequence + 1) % 4096
    ensures u.Draw(s).state.lastTimestamp == s.lastTimestamp
    ensures u.Draw(s).state.clockAt == s.clockAt
  {
    Powers();
    AndMask(s.sequence + 1, 12);
    hide BitAnd, Pow2;
  }

  /** What a draw does, in terms of the replies: its calls end with the first raise, which falls back to the local
      sequence, or with the expire, which leaves the count of the last incr. */
  lemma DrawCalls(u: Setup, s: State)
    ensures var d := u.Draw(s);
      var to := d.state.cacheAt;
      && s.cacheAt < to && u.Calls(s.cacheAt, to)
      && d.state.lastTimestamp == s.lastTimestamp && d.state.clockAt == s.clockAt
      && (d.fallback <==> u.cache(to - 1).Raises?)
      && if u.cache(to - 1).Raises? then d.sequence == d.state.sequence == (s.sequence + 1) % 4096
         else d.sequence == u.cache(to - 2).value && d.state.sequence == s.sequence
  {
    if u.Draw(s).fallback {
      DrawFallsBack(u, s);
    }
    hide BitAnd;
  }

  /** The fields of the ID that a call generates: the clock reading that it ended with, and the number that its last
      cache calls came to. */
  lemma GeneratedFields(u: Setup, s: State)
    ensures var r := u.Generate(s);
      r.outcome.Generated? ==>
        var stamp, to := r.outcome.stamp, r.state;
        && to.clockAt > s.clockAt && stamp.timestamp == to.lastTimestamp == u.clock(to.clockAt - 1)
        && u.EndsDraw(s.cacheAt, to.cacheAt)
        && (r.Answered() <==> u.cache(to.cacheAt - 1).Returns?)
        && stamp.sequence == (if u.cache(to.cacheAt - 1).Raises? then to.sequence else u.cache(to.cacheAt - 2).value)
        && (u.node.Valid() && 0 <= stamp.sequence <= 4095 ==>
              Decompose(stamp.Id(u.node)) == Parts(stamp.timestamp, u.node, stamp.sequence))
  {
    hide BitAnd, Setup.Draw, Setup.Wait, Pack, Decompose, Setup.Calls;
    var read := s.(clockAt := s.clockAt + 1);
    DrawCalls(u, read);
    var d := u.Draw(read);
    var (later, at) := u.Wait(d.state.clockAt, s.lastTimestamp, 0);
    WaitStopsInTime(u, d.state.clockAt, s.lastTimestamp, 0);
    DrawCalls(u, d.state.(clockAt := at));
    var r := u.Generate(s);
    if r.outcome.Generated? {
      var p := Parts(r.outcome.stamp.timestamp, u.node, r.outcome.stamp.sequence);
      if p.Valid() {
        DecomposeUndoesPack(p);
      }
    }
  }

  /** Every ID of a run, a batch or any other selection of stamps decomposes into its stamp and the node. */
  lemma IdsDecompose(u: Setup, stamps: seq<Stamp>)
    requires u.node.Valid() && Fit(stamps)
    ensures forall k | 0 <= k < |stamps| ::
      Decompose(u.Ids(stamps)[k]) == Parts(stamps[k].timestamp, u.node, stamps[k].sequence)
  {
    hide Pack, Decompose;
    forall k | 0 <= k < |stamps|
      ensures Decompose(u.Ids(stamps)[k]) == Parts(stamps[k].timestamp, u.node, stamps[k].sequence)
    {
      DecomposeUndoesPack(Parts(stamps[k].timestamp, u.node, stamps[k].sequence));
    }
  }

  /** The state, and the newest stamp, that n local calls leave behind. */
  ghost predicate Shape(u: Setup, n: nat) {
    var s, made := u.After(START, n), u.Stamps(START, n);
    && 0 <= s.sequence <= MAX_SEQUENCE
    && (forall p | p in made :: 0 <= p.sequence <= MAX_SEQUENCE)
    && (made == [] ==> !Stuck(u, n) && s.sequence == 0 && s.lastTimestamp == -1)
    && (Stuck(u, n) ==> s.sequence == 0)
    && (made != [] ==>
          made[|made| - 1] == Stamp(s.lastTimestamp, if Stuck(u, n) then MAX_SEQUENCE else s.sequence))
  }

  /** What one local call does, in terms of the clock alone. */
  lemma LocalStep(u: Setup, s: State)
    requires 0 <= s.sequence <= MAX_SEQUENCE
    requires u.Generate(s).OnFallback()
    ensures var r, t := u.Generate(s), u.clock(s.clockAt);
      match r.outcome
      case MovedBackwards(drift) =>
        t < s.lastTimestamp && drift == s.lastTimestamp - t &&
        r.state.sequence == s.sequence && r.state.lastTimestamp == s.lastTimestamp
      case Stalled =>
        t == s.lastTimestamp && s.sequence == MAX_SEQUENCE && r.state.sequence == 0 &&
        r.state.lastTimestamp == s.lastTimestamp
      case Generated(stamp) =>
        stamp == Stamp(r.state.lastTimestamp, r.state.sequence) &&
        if t > s.lastTimestamp then
          r.state.lastTimestamp == t && r.state.sequence == (s.sequence + 1) % 4096
        else if s.sequence < MAX_SEQUENCE then
          t == s.lastTimestamp == r.state.lastTimestamp && r.state.sequence == s.sequence + 1
        else
          t == s.lastTimestamp < r.state.lastTimestamp && r.state.sequence == 1
  {
    hide BitAnd, Setup.Draw, Setup.Wait;
    var t := u.clock(s.clockAt);
    if t >= s.lastTimestamp {
      var read := s.(clockAt := s.clockAt + 1);
      DrawFallsBack(u, read);
      var d := u.Draw(read);
      if t == s.lastTimestamp && d.sequence == 0 {
        var (later, at) := u.Wait(d.state.clockAt, s.lastTimestamp, 0);
        if later > s.lastTimestamp {
          DrawFallsBack(u, d.state.(clockAt := at));
        }
      }
    }
  }

  lemma {:induction false} ShapeHolds(u: Setup, n: nat)
    requires LocalOnly(u, n)
    ensures Shape(u, n)
  {
    hide BitAnd, Setup.Generate;
    if n > 0 {
      ShapeHolds(u, n - 1);
      LocalStep(u, u.After(START, n - 1));
    }
  }

  lemma AppendAscending(made: seq<Stamp>, stamp: Stamp)
    ensures Ascending(made + [stamp]) <==> Ascending(made) && (made == [] || made[|made| - 1].Before(stamp))
  {
    var all := made + [stamp];
    assert made != [] ==> all[|made| - 1] == made[|made| - 1] && all[|made|] == stamp;
    if Ascending(all) {
      assert all[..|made|] == made;
    }
  }

  /** A new stamp follows the newest one unless its call resumes in the exhausted millisecond. */
  lemma NewStampFollows(u: Setup, i: nat)
    requires LocalOnly(u, i + 1)
    ensures var made := u.Stamps(START, i);
      match u.OutcomeAt(START, i)
      case Generated(stamp) => (made == [] || made[|made| - 1].Before(stamp)) <==> !ResumesAt(u, i)
      case _ => !ResumesAt(u, i)
  {
    hide BitAnd, Setup.Generate;
    ShapeHolds(u, i);
    LocalStep(u, u.After(START, i));
  }

  lemma {:induction false} LocalStampsAscend(u: Setup, n: nat)
    requires LocalOnly(u, n)
    ensures Ascending(u.Stamps(START, n)) <==> forall i | 0 <= i < n :: !ResumesAt(u, i)
  {
    hide Setup.OutcomeAt, ResumesAt;
    if n > 0 {
      LocalStampsAscend(u, n - 1);
      NewStampFollows(u, n - 1);
      var made := u.Stamps(START, n - 1);
      match u.OutcomeAt(START, n - 1)
      case Generated(stamp) => AppendAscending(made, stamp);
      case _ => assert u.Stamps(START, n) == made;
    }
  }

  /** The IDs of a local run increase strictly, whatever the clock does, exactly when no call resumes
      in the millisecond in which an earlier call gave up waiting. */
  lemma LocalIdsIncrease(u: Setup, n: nat)
    requires u.node.Valid() && LocalOnly(u, n)
    ensures Increasing(u.Ids(u.Stamps(START, n))) <==> forall i | 0 <= i < n :: !ResumesAt(u, i)
  {
    hide Pack, Setup.OutcomeAt, ResumesAt;
    LocalStampsAscend(u, n);
    ShapeHolds(u, n);
    AscendingIds(u, u.Stamps(START, n));
  }

  // ---- A cache that always raises ----

  ghost predicate CacheDown(u: Setup) {
    forall i: nat :: u.cache(i).Raises?
  }

  lemma DownDraws(u: Setup, s: State)
    requires CacheDown(u)
    ensures u.Draw(s).fallback
  {
    hide BitAnd;
  }

  lemma DownFallsBack(u: Setup, s: State)
    requires CacheDown(u)
    ensures u.Generate(s).OnFallback()
  {
    hide BitAnd, Setup.Draw, Setup.Wait;
    var read := s.(clockAt := s.clockAt + 1);
    var d := u.Draw(read);
    var (later, at) := u.Wait(d.state.clockAt, s.lastTimestamp, 0);
    DownDraws(u, read);
    DownDraws(u, d.state.(clockAt := at));
  }

  /** A call that need not wait reads the clock once. */
  lemma ReadsOnce(u: Setup, s: State)
    requires CacheDown(u) && 0 <= s.sequence <= MAX_SEQUENCE
    requires u.clock(s.clockAt) == s.lastTimestamp ==> s.sequence < MAX_SEQUENCE
    ensures u.Generate(s).state.clockAt == s.clockAt + 1
  {
    hide BitAnd, Setup.Draw, Setup.Wait;
    var read := s.(clockAt := s.clockAt + 1);
    DownDraws(u, read);
    DrawFallsBack(u, read);
  }

  /** The call that finds the sequence exhausted in a millisecond that does not end gives up. */
  lemma Stalls(u: Setup, t: int, s: State)
    requires CacheDown(u) && s.lastTimestamp == t && s.sequence == MAX_SEQUENCE
    requires forall i: nat | i >= s.clockAt :: u.clock(i) == t
    ensures u.Generate(s).outcome.Stalled? && u.Generate(s).state.clockAt > s.clockAt
    ensures u.Generate(s).state.sequence == 0 && u.Generate(s).state.lastTimestamp == t
  {
    hide BitAnd, Setup.Draw, Setup.Wait;
    DownFallsBack(u, s);
    var read := s.(clockAt := s.clockAt + 1);
    var d := u.Draw(read);
    assert d.fallback && d.sequence == 0 && d.state.lastTimestamp == t by {
      DownDraws(u, read);
      DrawFallsBack(u, read);
    }
    DrawFallsBack(u, read);
    WaitStopsInTime(u, d.state.clockAt, t, 0);
    LocalStep(u, s);
  }

  // ---- A clock that stops ----

  ghost predicate Stopped(u: Setup, t: int) {
    t >= 0 && (forall i: nat :: u.clock(i) == t) && CacheDown(u)
  }

  lemma {:induction false} StoppedRun(u: Setup, t: int, n: nat)
    requires Stopped(u, t) && n <= MAX_SEQUENCE
    ensures u.After(START, n).sequence == n && u.After(START, n).lastTimestamp == if n == 0 then -1 else t
    ensures |u.Stamps(START, n)| == n && (n > 0 ==> u.Stamps(START, n)[0] == Stamp(t, 1))
  {
    hide BitAnd, Setup.Generate;
    if n > 0 {
      StoppedRun(u, t, n - 1);
      DownFallsBack(u, u.After(START, n - 1));
      LocalStep(u, u.After(START, n - 1));
    }
  }

  /** While the clock stands still, the call after the one that gives up repeats the first ID. */
  lemma StoppedClockRepeats(u: Setup, t: int)
    requires Stopped(u, t)
    ensures var stamps := u.Stamps(START, MAX_SEQUENCE + 2);
      |stamps| == MAX_SEQUENCE + 1 && stamps[0] == stamps[MAX_SEQUENCE] == Stamp(t, 1)
  {
    hide BitAnd, Setup.Generate;
    var n := MAX_SEQUENCE;
    StoppedRun(u, t, n);
    Stalls(u, t, u.After(START, n));
    var s := u.After(START, n + 1);
    assert u.Stamps(START, n + 1) == u.Stamps(START, n);
    DownFallsBack(u, s);
    LocalStep(u, s);
    assert u.Stamps(START, n + 2) == u.Stamps(START, n + 1) + [Stamp(t, 1)];
  }

  // ---- A clock that moves on late and then stops ----

  /** The clock reads 0 for 4094 calls and 1 from then on; the cache always raises. */
  function LateSetup(node: Node): Setup {
    Setup(node, (i: nat) => if i < MAX_SEQUENCE - 1 then 0 else 1, (i: nat) => Raises)
  }

  lemma {:induction false} LateRun(node: Node, n: nat)
    requires n < MAX_SEQUENCE
    ensures var u := LateSetup(node);
      var s := u.After(START, n);
      && s.sequence == n && s.lastTimestamp == (if n == 0 then -1 else 0) && s.clockAt == n
      && u.Stamps(START, n) == seq(n, k => Stamp(0, k + 1))
  {
    hide BitAnd, Setup.Generate;
    if n > 0 {
      LateRun(node, n - 1);
      var u := LateSetup(node);
      var s := u.After(START, n - 1);
      DownFallsBack(u, s);
      LocalStep(u, s);
      ReadsOnce(u, s);
      assert u.Stamps(START, n) == u.Stamps(START, n - 1) + [Stamp(0, n)];
    }
  }

  /** The second millisecond begins at 4095 here, because the local sequence is not reset. So the next call gives up,
      and the one after it resumes with a number that this millisecond has not issued yet. */
  lemma LateStamps(node: Node)
    ensures var u, n := LateSetup(node), MAX_SEQUENCE + 2;
      && LocalOnly(u, n) && ResumesAt(u, n - 1)
      && u.Stamps(START, n) == seq(MAX_SEQUENCE - 1, k => Stamp(0, k + 1)) + [Stamp(1, MAX_SEQUENCE), Stamp(1, 1)]
  {
    hide BitAnd, Setup.Generate;
    var u, n := LateSetup(node), MAX_SEQUENCE - 1;
    assert LocalOnly(u, n + 3) by {
      forall i | 0 <= i < n + 3 ensures u.Generate(u.After(START, i)).OnFallback() {
        DownFallsBack(u, u.After(START, i));
      }
    }
    LateRun(node, n);
    var a, b, c := u.After(START, n), u.After(START, n + 1), u.After(START, n + 2);
    LocalStep(u, a);
    ReadsOnce(u, a);
    Stalls(u, 1, b);
    LocalStep(u, c);
    assert u.Stamps(START, n + 1) == u.Stamps(START, n) + [Stamp(1, MAX_SEQUENCE)];
    assert u.Stamps(START, n + 2) == u.Stamps(START, n + 1);
    assert u.Stamps(START, n + 3) == u.Stamps(START, n + 2) + [Stamp(1, 1)];
    assert Stuck(u, n + 2);
  }

  // ---- Any clock and any cache ----

  /** What any call does to the timestamps, whatever the cache replies. */
  lemma AnyStep(u: Setup, s: State)
    ensures var r := u.Generate(s);
      match r.outcome
      case Generated(stamp) => s.lastTimestamp <= stamp.timestamp == r.state.lastTimestamp
      case _ => r.state.lastTimestamp == s.lastTimestamp
  {
    hide BitAnd, Setup.Draw, Setup.Wait;
    var read := s.(clockAt := s.clockAt + 1);
    DrawKeepsTimestamp(u, read);
    var d := u.Draw(read);
    var (later, at) := u.Wait(d.state.clockAt, s.lastTimestamp, 0);
    DrawKeepsTimestamp(u, d.state.(clockAt := at));
  }

  lemma DrawKeepsTimestamp(u: Setup, s: State)
    ensures u.Draw(s).state.lastTimestamp == s.lastTimestamp
  {
    hide BitAnd;
  }

  /** A call whose cache answers, with positive counts, reads the clock once and never waits: it takes the first
      count, or past the maximum the one that follows the deletion. */
  lemma SharedCall(u: Setup, s: State)
    requires u.clock(s.clockAt) >= s.lastTimestamp
    requires forall i | s.cacheAt <= i < s.cacheAt + 4 :: u.cache(i).Returns? && u.cache(i).value >= 1
    ensures var t, first := u.clock(s.clockAt), u.cache(s.cacheAt).value;
      var sequence := if first <= MAX_SEQUENCE then first else u.cache(s.cacheAt + 2).value;
      && u.Generate(s).outcome == Generated(Stamp(t, sequence))
      && u.Generate(s).state ==
           State(s.sequence, t, s.clockAt + 1, s.cacheAt + (if first <= MAX_SEQUENCE then 2 else 4))
  {
    hide Setup.Fallback, Setup.Wait;
    var read := s.(clockAt := s.clockAt + 1);
    assert u.Draw(read).sequence >= 1;
  }
}
