/** N execution contexts of one node drawing their sequences from a shared counter per millisecond.
    Cache calls of different contexts interleave; no call falls back to the local sequence. */
module SnowflakeShared {
  import opened SnowflakePacking

  const TTL_MS := 1000

  /** Where a context stands between two calls into the cache. */
  datatype Phase =
    | Idle
    | Holding(timestamp: int)                  // has read the clock
    | Overflowed(timestamp: int)               // incr passed MAX_SEQUENCE
    | Deleted(timestamp: int)                  // has deleted the counter
    | Drew(timestamp: int, draw: nat)          // holds the draw with this index

  datatype Context = Context(phase: Phase, lastTimestamp: int)

  /** A (timestamp, sequence) pair handed to a context by the counter. */
  datatype Draw = Draw(timestamp: int, sequence: int)

  datatype State = State(
    now: int,
    contexts: seq<Context>,
    counters: map<int, int>,      // live counters by timestamp
    expiry: map<int, int>,        // when a live counter with a TTL disappears
    births: map<int, nat>,        // how often incr found no counter for a timestamp
    exceeded: set<int>,           // timestamps whose counter passed MAX_SEQUENCE
    draws: seq<Draw>,             // every draw, in order
    emitted: seq<nat>)            // indices of the draws returned as IDs, in order
  {
    function Births(t: int): nat {
      if t in births then births[t] else 0
    }

    function Counter(t: int): int {
      if t in counters then counters[t] else 0
    }

    function Update(c: nat, p: Phase): State
      requires c < |contexts|
    {
      this.(contexts := contexts[c := contexts[c].(phase := p)])
    }

    /** The counter after incr, which starts a missing counter at 1. */
    function Incremented(t: int): State {
      this.(counters := counters[t := Counter(t) + 1],
            births := if t in counters then births else births[t := Births(t) + 1])
    }

    function Drawing(c: nat, t: int): State
      requires c < |contexts|
    {
      this.(draws := draws + [Draw(t, Counter(t))]).Update(c, Drew(t, |draws|))
    }
  }

  datatype Step =
    | Tick(ms: nat)
    | Begin(c: nat, reading: int)
    | Incr(c: nat)
    | Delete(c: nat)
    | IncrAgain(c: nat)
    | Emit(c: nat)
    | Evict(timestamp: int)

  function Start(n: nat, now: int): State {
    State(now, seq(n, _ => Context(Idle, -1)), map[], map[], map[], {}, [], [])
  }

  predicate Enabled(s: State, step: Step) {
    match step
    case Tick(_) => true
    case Evict(t) => t in s.counters
    case Begin(c, _) => c < |s.contexts| && s.contexts[c].phase.Idle?
    case Incr(c) => c < |s.contexts| && s.contexts[c].phase.Holding?
    case Delete(c) => c < |s.contexts| && s.contexts[c].phase.Overflowed?
    case IncrAgain(c) => c < |s.contexts| && s.contexts[c].phase.Deleted?
    case Emit(c) => c < |s.contexts| && s.contexts[c].phase.Drew?
  }

  function Next(s: State, step: Step): State
    requires Enabled(s, step)
  {
    match step
    case Tick(ms) => s.(now := s.now + ms)
    case Evict(t) => s.(counters := s.counters - {t}, expiry := s.expiry - {t})
    case Begin(c, reading) =>
      // A reading behind the context's last timestamp raises; nothing changes.
      if reading < s.contexts[c].lastTimestamp then s else s.Update(c, Holding(reading))
    case Incr(c) =>
      var t := s.contexts[c].phase.timestamp;
      var i := s.Incremented(t);
      if i.Counter(t) > MAX_SEQUENCE then i.(exceeded := i.exceeded + {t}).Update(c, Overflowed(t))
      else i.Drawing(c, t)
    case Delete(c) =>
      var t := s.contexts[c].phase.timestamp;
      s.(counters := s.counters - {t}, expiry := s.expiry - {t}).Update(c, Deleted(t))
    case IncrAgain(c) =>
      var t := s.contexts[c].phase.timestamp;
      s.Incremented(t).Drawing(c, t)
    case Emit(c) =>
      var t := s.contexts[c].phase.timestamp;
      s.(expiry := if t in s.counters then s.expiry[t := s.now + TTL_MS] else s.expiry,
         emitted := s.emitted + [s.contexts[c].phase.draw],
         contexts := s.contexts[c := Context(Idle, t)])
  }

  /** The states of a run, one more than its steps. */
  ghost predicate IsRun(states: seq<State>, steps: seq<Step>) {
    && |states| == |steps| + 1
    && (exists n: nat, now: int :: states[0] == Start(n, now))
    && forall i | 0 <= i < |steps| :: Enabled(states[i], steps[i]) && states[i + 1] == Next(states[i], steps[i])
  }

  predicate Quiescent(s: State) {
    forall c | 0 <= c < |s.contexts| :: s.contexts[c].phase.Idle?
  }

  predicate BornOnce(s: State) {
    forall t | t in s.births :: s.births[t] <= 1
  }

  // ---- What every reachable state satisfies ----

  predicate Holds(s: State, c: int, i: nat) {
    0 <= c < |s.contexts| && s.contexts[c].phase.Drew? && s.contexts[c].phase.draw == i
  }

  /** A draw is held by one context or emitted once, never both. */
  ghost predicate DrawsOwned(s: State) {
    && (forall k | 0 <= k < |s.emitted| :: s.emitted[k] < |s.draws|)
    && (forall k, l | 0 <= k < l < |s.emitted| :: s.emitted[k] != s.emitted[l])
    && (forall c | 0 <= c < |s.contexts| && s.contexts[c].phase.Drew? ::
          s.contexts[c].phase.draw < |s.draws| && s.contexts[c].phase.draw !in s.emitted &&
          s.draws[s.contexts[c].phase.draw].timestamp == s.contexts[c].phase.timestamp)
    && (forall c, d | 0 <= c < d < |s.contexts| && s.contexts[c].phase.Drew? && s.contexts[d].phase.Drew? ::
          s.contexts[c].phase.draw != s.contexts[d].phase.draw)
  }

  ghost predicate NoDrawLost(s: State) {
    forall i | 0 <= i < |s.draws| && i !in s.emitted :: exists c :: Holds(s, c, i)
  }

  /** The draws of a timestamp whose counter was created at most once count up from 1. */
  ghost predicate CountsUp(s: State) {
    Counted(s) && DrawsDiffer(s) && PendingBorn(s)
  }

  ghost predicate Counted(s: State) {
    && (forall i | 0 <= i < |s.draws| :: s.Births(s.draws[i].timestamp) >= 1)
    && (forall t | t in s.counters :: s.Births(t) >= 1 && s.counters[t] >= 1)
    && (forall i | 0 <= i < |s.draws| && s.Births(s.draws[i].timestamp) == 1 ::
          1 <= s.draws[i].sequence <= MAX_SEQUENCE &&
          (s.draws[i].timestamp in s.counters ==> s.draws[i].sequence <= s.counters[s.draws[i].timestamp]))
  }

  ghost predicate DrawsDiffer(s: State) {
    forall i, j | 0 <= i < j < |s.draws| && s.Births(s.draws[i].timestamp) == 1 :: s.draws[i] != s.draws[j]
  }

  /** A context past the maximum found a counter; if it has deleted that and there is one again, another
      context has created it. */
  ghost predicate PendingBorn(s: State) {
    && (forall c | 0 <= c < |s.contexts| && s.contexts[c].phase.Deleted? ::
          s.Births(s.contexts[c].phase.timestamp) >= 1 &&
          (s.contexts[c].phase.timestamp in s.counters ==> s.Births(s.contexts[c].phase.timestamp) >= 2))
    && (forall c | 0 <= c < |s.contexts| && s.contexts[c].phase.Overflowed? ::
          s.Births(s.contexts[c].phase.timestamp) >= 1)
  }

  /** Each creation of a counter handed out sequence 1. */
  ghost predicate BirthsDrawn(s: State) {
    && (forall t | s.Births(t) >= 1 :: exists i :: Drawn(s, i, t))
    && (forall t | s.Births(t) >= 2 :: exists i, j :: i < j && Drawn(s, i, t) && Drawn(s, j, t))
  }

  /** A timestamp whose counter passed the maximum is created again, or a context is still about to do so. */
  ghost predicate ExcessReborn(s: State) {
    forall t | t in s.exceeded :: s.Births(t) >= 2 || exists c :: Pending(s, c, t)
  }

  predicate Pending(s: State, c: int, t: int) {
    0 <= c < |s.contexts| && (s.contexts[c].phase == Overflowed(t) || s.contexts[c].phase == Deleted(t))
  }

  lemma DrawsOwnedStep(s: State, step: Step)
    requires Enabled(s, step) && DrawsOwned(s)
    ensures DrawsOwned(Next(s, step))
  {
    match step
    case Incr(c) =>
      if s.Counter(s.contexts[c].phase.timestamp) < MAX_SEQUENCE {
        DrawingKeepsOwned(s, c, s.contexts[c].phase.timestamp);
      }
    case IncrAgain(c) => DrawingKeepsOwned(s, c, s.contexts[c].phase.timestamp);
    case _ =>
  }

  lemma DrawingKeepsOwned(s: State, c: nat, t: int)
    requires c < |s.contexts| && !s.contexts[c].phase.Drew? && DrawsOwned(s)
    ensures DrawsOwned(s.Incremented(t).Drawing(c, t))
  {
    var after := s.Incremented(t).Drawing(c, t);
    assert forall i | 0 <= i < |s.draws| :: after.draws[i] == s.draws[i];
  }

  lemma NoDrawLostStep(s: State, step: Step)
    requires Enabled(s, step) && NoDrawLost(s)
    ensures NoDrawLost(Next(s, step))
  {
    var after := Next(s, step);
    assert forall k | 0 <= k < |s.emitted| :: after.emitted[k] == s.emitted[k];
    assert step.Emit? ==> after.emitted[|s.emitted|] == s.contexts[step.c].phase.draw;
    forall i | 0 <= i < |after.draws| && i !in after.emitted ensures exists c :: Holds(after, c, i) {
      if i < |s.draws| {
        var c :| Holds(s, c, i);
        assert Holds(after, c, i);
      } else {
        assert Holds(after, step.c, i);
      }
    }
  }

  lemma CountsUpStep(s: State, step: Step)
    requires Enabled(s, step) && CountsUp(s)
    ensures CountsUp(Next(s, step))
  {
    hide CountsUp, Next;
    match step
    case Incr(c) => CountsUpAfterIncr(s, c);
    case IncrAgain(c) => CountsUpAfterIncrAgain(s, c);
    case Delete(c) => CountsUpAfterDelete(s, c);
    case _ => CountsUpOtherwise(s, step);
  }

  lemma CountsUpOtherwise(s: State, step: Step)
    requires Enabled(s, step) && CountsUp(s) && !(step.Incr? || step.IncrAgain? || step.Delete?)
    ensures CountsUp(Next(s, step))
  {
  }

  lemma CountsUpAfterDelete(s: State, c: nat)
    requires Enabled(s, Delete(c)) && CountsUp(s)
    ensures CountsUp(Next(s, Delete(c)))
  {
  }

  lemma CountsUpAfterIncr(s: State, c: nat)
    requires Enabled(s, Incr(c)) && CountsUp(s)
    ensures CountsUp(Next(s, Incr(c)))
  {
    var t := s.contexts[c].phase.timestamp;
    IncrementKeepsCount(s, t);
    if s.Counter(t) < MAX_SEQUENCE {
      DrawKeepsCount(s, c, t);
    }
  }

  lemma CountsUpAfterIncrAgain(s: State, c: nat)
    requires Enabled(s, IncrAgain(c)) && CountsUp(s)
    ensures CountsUp(Next(s, IncrAgain(c)))
  {
    var t := s.contexts[c].phase.timestamp;
    DrawKeepsCount(s, c, t);
  }

  lemma IncrementKeepsCount(s: State, t: int)
    requires CountsUp(s)
    ensures CountsUp(s.Incremented(t))
  {
  }

  /** The new draw exceeds all earlier ones of its timestamp, unless the counter was created again. */
  lemma DrawKeepsCount(s: State, c: nat, t: int)
    requires CountsUp(s) && c < |s.contexts|
    requires s.Counter(t) < MAX_SEQUENCE || s.Incremented(t).Births(t) >= 2
    ensures CountsUp(s.Incremented(t).Drawing(c, t))
  {
    var i := s.Incremented(t);
    var after := i.Drawing(c, t);
    assert i.draws == s.draws && after.draws[|s.draws|] == Draw(t, i.Counter(t));
    forall k | 0 <= k < |s.draws| && after.Births(after.draws[k].timestamp) == 1
      ensures after.draws[k] != after.draws[|s.draws|]
    {
      assert s.Births(s.draws[k].timestamp) == 1;
    }
  }

  ghost predicate Drawn(s: State, i: int, t: int) {
    0 <= i < |s.draws| && s.draws[i] == Draw(t, 1)
  }

  lemma BirthsDrawnStep(s: State, step: Step)
    requires Enabled(s, step) && BirthsDrawn(s)
    ensures BirthsDrawn(Next(s, step))
  {
    var after := Next(s, step);
    forall t | after.Births(t) >= 1 ensures exists i :: Drawn(after, i, t) {
      if s.Births(t) >= 1 {
        var i :| Drawn(s, i, t);
        assert Drawn(after, i, t);
      } else {
        assert Drawn(after, |s.draws|, t);
      }
    }
    forall t | after.Births(t) >= 2 ensures exists i, j :: i < j && Drawn(after, i, t) && Drawn(after, j, t) {
      if s.Births(t) >= 2 {
        var i, j :| i < j && Drawn(s, i, t) && Drawn(s, j, t);
        assert Drawn(after, i, t) && Drawn(after, j, t);
      } else {
        var i :| Drawn(s, i, t);
        assert Drawn(after, i, t) && Drawn(after, |s.draws|, t);
      }
    }
  }

  lemma ExcessRebornStep(s: State, step: Step)
    requires Enabled(s, step) && ExcessReborn(s) && PendingBorn(s)
    ensures ExcessReborn(Next(s, step))
  {
    var after := Next(s, step);
    forall t | t in after.exceeded && after.Births(t) < 2 ensures exists c :: Pending(after, c, t) {
      if t in s.exceeded {
        var c :| Pending(s, c, t);
        assert Pending(after, c, t);
      } else {
        assert Pending(after, step.c, t);
      }
    }
  }

  ghost predicate Invariant(s: State) {
    DrawsOwned(s) && NoDrawLost(s) && CountsUp(s) && BirthsDrawn(s) && ExcessReborn(s)
  }

  lemma {:induction false} RunInvariant(states: seq<State>, steps: seq<Step>, i: nat)
    requires IsRun(states, steps) && i < |states|
    ensures Invariant(states[i])
  {
    if i > 0 {
      RunInvariant(states, steps, i - 1);
      var s, step := states[i - 1], steps[i - 1];
      DrawsOwnedStep(s, step);
      NoDrawLostStep(s, step);
      CountsUpStep(s, step);
      BirthsDrawnStep(s, step);
      ExcessRebornStep(s, step);
    }
  }

  // ---- The emitted IDs ----

  function IdOf(node: Node, d: Draw): int {
    Pack(Parts(d.timestamp, node, d.sequence))
  }

  function EmittedIds(node: Node, s: State): seq<int>
    requires DrawsOwned(s)
  {
    seq(|s.emitted|, k requires 0 <= k < |s.emitted| => IdOf(node, s.draws[s.emitted[k]]))
  }

  /** Every emitted ID decomposes into the timestamp and the count of its draw, and the node. */
  lemma EmittedIdsDecompose(node: Node, states: seq<State>, steps: seq<Step>, i: nat)
    requires node.Valid() && IsRun(states, steps) && i < |states|
    ensures Invariant(states[i])
    ensures var s := states[i];
      forall k | 0 <= k < |s.emitted| && 0 <= s.draws[s.emitted[k]].sequence <= 4095 ::
        Decompose(EmittedIds(node, s)[k])
          == Parts(s.draws[s.emitted[k]].timestamp, node, s.draws[s.emitted[k]].sequence)
  {
    hide Pack, Decompose;
    RunInvariant(states, steps, i);
    var s := states[i];
    forall k | 0 <= k < |s.emitted| && 0 <= s.draws[s.emitted[k]].sequence <= 4095
      ensures Decompose(EmittedIds(node, s)[k]) ==
        Parts(s.draws[s.emitted[k]].timestamp, node, s.draws[s.emitted[k]].sequence)
    {
      DecomposeUndoesPack(Parts(s.draws[s.emitted[k]].timestamp, node, s.draws[s.emitted[k]].sequence));
    }
  }

  // ---- Each context by itself ----

  /** A call under way is for a reading that was not behind the context. */
  ghost predicate NotBehind(s: State) {
    forall c | 0 <= c < |s.contexts| && !s.contexts[c].phase.Idle? ::
      s.contexts[c].lastTimestamp <= s.contexts[c].phase.timestamp
  }

  lemma {:induction false} NeverBehind(states: seq<State>, steps: seq<Step>, i: nat)
    requires IsRun(states, steps) && i < |states|
    ensures NotBehind(states[i]) && |states[i].contexts| == |states[0].contexts|
  {
    if i > 0 {
      NeverBehind(states, steps, i - 1);
      NotBehindStep(states[i - 1], steps[i - 1]);
    }
  }

  lemma NotBehindStep(s: State, step: Step)
    requires Enabled(s, step) && NotBehind(s)
    ensures NotBehind(Next(s, step)) && |Next(s, step).contexts| == |s.contexts|
    ensures forall c | 0 <= c < |s.contexts| :: s.contexts[c].lastTimestamp <= Next(s, step).contexts[c].lastTimestamp
  {
  }

  /** A context's timestamps never decrease, whatever it reads: a call is refused, without effect, exactly when its
      reading is behind the context's newest timestamp. */
  lemma {:induction false} ContextsMoveForward(states: seq<State>, steps: seq<Step>, i: nat, j: nat, c: nat)
    requires IsRun(states, steps) && i <= j < |states| && c < |states[0].contexts|
    ensures |states[i].contexts| == |states[j].contexts| == |states[0].contexts|
    ensures states[i].contexts[c].lastTimestamp <= states[j].contexts[c].lastTimestamp
    ensures i < |steps| && steps[i].Begin? && steps[i].c == c ==>
      if steps[i].reading < states[i].contexts[c].lastTimestamp then states[i + 1] == states[i]
      else states[i + 1].contexts[c].phase == Holding(steps[i].reading)
    decreases j - i
  {
    NeverBehind(states, steps, i);
    NeverBehind(states, steps, j);
    if i < j {
      ContextsMoveForward(states, steps, i, j - 1, c);
      NeverBehind(states, steps, j - 1);
      NotBehindStep(states[j - 1], steps[j - 1]);
    }
  }

  lemma UnderWayStep(s: State, step: Step, c: nat)
    requires Enabled(s, step) && c < |s.contexts| == |Next(s, step).contexts|
    requires !Next(s, step).contexts[c].phase.Idle?
    ensures var t := Next(s, step).contexts[c].phase.timestamp;
      if s.contexts[c].phase.Idle? then step == Begin(c, t) else s.contexts[c].phase.timestamp == t
  {
  }

  /** The timestamp of a call under way, and so of the draw that it emits, is one that its own context has read. */
  lemma {:induction false} TimestampWasRead(states: seq<State>, steps: seq<Step>, i: nat, c: nat)
    requires IsRun(states, steps) && i < |states|
    requires c < |states[i].contexts| && !states[i].contexts[c].phase.Idle?
    ensures exists j :: 0 <= j < i && steps[j] == Begin(c, states[i].contexts[c].phase.timestamp)
  {
    hide Next;
    NeverBehind(states, steps, i);
    if i > 0 {
      NeverBehind(states, steps, i - 1);
      UnderWayStep(states[i - 1], steps[i - 1], c);
      if !states[i - 1].contexts[c].phase.Idle? {
        TimestampWasRead(states, steps, i - 1, c);
      }
    }
  }

  /** What a context emits is its own draw, with the timestamp of its call. */
  lemma EmitsOwnDraw(states: seq<State>, steps: seq<Step>, i: nat)
    requires IsRun(states, steps) && i < |steps| && steps[i].Emit?
    ensures var s, after, c := states[i], states[i + 1], steps[i].c;
      && after.emitted == s.emitted + [s.contexts[c].phase.draw]
      && s.contexts[c].phase.draw < |after.draws|
      && after.draws[s.contexts[c].phase.draw].timestamp == s.contexts[c].phase.timestamp ==
           after.contexts[c].lastTimestamp
  {
    RunInvariant(states, steps, i);
  }

  // ---- Uniqueness ----

  /** While every counter was created at most once, no two IDs coincide, in any state of any interleaving. */
  lemma BornOnceIsDistinct(node: Node, states: seq<State>, steps: seq<Step>, i: nat)
    requires node.Valid() && IsRun(states, steps) && i < |states| && BornOnce(states[i])
    ensures Invariant(states[i])
    ensures Distinct(EmittedIds(node, states[i]))
  {
    RunInvariant(states, steps, i);
    var s := states[i];
    var ids := EmittedIds(node, s);
    forall k, l | 0 <= k < l < |ids| ensures ids[k] != ids[l] {
      var a, b := s.emitted[k], s.emitted[l];
      assert s.Births(s.draws[a].timestamp) == 1 && s.Births(s.draws[b].timestamp) == 1;
      assert s.draws[a] != s.draws[b];
      PackInjective(Parts(s.draws[a].timestamp, node, s.draws[a].sequence),
                    Parts(s.draws[b].timestamp, node, s.draws[b].sequence));
    }
  }

  /** Once all calls have returned, the IDs of every interleaving, under any clock readings and any evictions,
      are pairwise distinct exactly when no millisecond's counter was created twice. */
  lemma DistinctExactlyWhenBornOnce(node: Node, states: seq<State>, steps: seq<Step>, i: nat)
    requires node.Valid() && IsRun(states, steps) && i < |states| && Quiescent(states[i])
    ensures Invariant(states[i])
    ensures Distinct(EmittedIds(node, states[i])) <==> BornOnce(states[i])
  {
    RunInvariant(states, steps, i);
    hide IsRun;
    var s := states[i];
    if BornOnce(s) {
      BornOnceIsDistinct(node, states, steps, i);
    } else {
      var t :| t in s.births && s.births[t] >= 2;
      var a, b :| a < b && Drawn(s, a, t) && Drawn(s, b, t);
      assert a in s.emitted && b in s.emitted;
      var k :| 0 <= k < |s.emitted| && s.emitted[k] == a;
      var l :| 0 <= l < |s.emitted| && s.emitted[l] == b;
      assert EmittedIds(node, s)[k] == EmittedIds(node, s)[l];
    }
  }

  /** Passing MAX_SEQUENCE in one millisecond always ends in a repeated ID. */
  lemma ExcessRepeats(node: Node, states: seq<State>, steps: seq<Step>, i: nat, t: int)
    requires node.Valid() && IsRun(states, steps) && i < |states| && Quiescent(states[i])
    requires t in states[i].exceeded
    ensures Invariant(states[i])
    ensures !Distinct(EmittedIds(node, states[i]))
  {
    DistinctExactlyWhenBornOnce(node, states, steps, i);
    assert states[i].Births(t) >= 2;
  }

  // ---- Without evictions ----

  ghost predicate NoExcess(s: State) {
    forall t :: t !in s.exceeded
  }

  /** While no counter has passed the maximum, none has been deleted either. */
  ghost predicate Undisturbed(s: State) {
    NoExcess(s) ==>
      && (forall t | t in s.births :: s.births[t] == 1 && t in s.counters)
      && (forall c | 0 <= c < |s.contexts| :: !s.contexts[c].phase.Overflowed? && !s.contexts[c].phase.Deleted?)
  }

  lemma UndisturbedStep(s: State, step: Step)
    requires Enabled(s, step) && !step.Evict? && Undisturbed(s)
    ensures Undisturbed(Next(s, step))
  {
    assert forall t | t in s.exceeded :: t in Next(s, step).exceeded;
  }

  lemma {:induction false} UndisturbedRun(states: seq<State>, steps: seq<Step>, i: nat)
    requires IsRun(states, steps) && i < |states|
    requires forall k | 0 <= k < i :: !steps[k].Evict?
    ensures Undisturbed(states[i])
  {
    if i > 0 {
      UndisturbedRun(states, steps, i - 1);
      UndisturbedStep(states[i - 1], steps[i - 1]);
    }
  }

  /** Whatever clocks the contexts read, while the store loses no counter the IDs are distinct as long as no
      counter passes MAX_SEQUENCE; once all calls have returned, exactly then. */
  lemma WithoutEvictionsOnlyExcessRepeats(node: Node, states: seq<State>, steps: seq<Step>, i: nat)
    requires node.Valid() && IsRun(states, steps) && i < |states|
    requires forall k | 0 <= k < i :: !steps[k].Evict?
    ensures Invariant(states[i])
    ensures NoExcess(states[i]) ==> Distinct(EmittedIds(node, states[i]))
    ensures Quiescent(states[i]) ==> (Distinct(EmittedIds(node, states[i])) <==> NoExcess(states[i]))
  {
    hide Invariant, Distinct, Quiescent, IsRun;
    RunInvariant(states, steps, i);
    UndisturbedRun(states, steps, i);
    if t :| t in states[i].exceeded {
      if Quiescent(states[i]) {
        ExcessRepeats(node, states, steps, i, t);
      }
    } else {
      BornOnceIsDistinct(node, states, steps, i);
    }
  }

  // ---- Runs that repeat an ID ----

  lemma OneMore(states: seq<State>, steps: seq<Step>, step: Step) returns (longer: seq<State>)
    requires IsRun(states, steps) && Enabled(states[|steps|], step)
    ensures longer == states + [Next(states[|steps|], step)]
    ensures IsRun(longer, steps + [step]) && longer[|steps| + 1] == Next(states[|steps|], step)
  {
    longer := states + [Next(states[|steps|], step)];
    assert longer[0] == states[0];
    var all := steps + [step];
    forall i | 0 <= i < |all|
      ensures Enabled(longer[i], all[i]) && longer[i + 1] == Next(longer[i], all[i])
    {
      if i < |steps| {
        assert longer[i] == states[i] && longer[i + 1] == states[i + 1] && all[i] == steps[i];
      }
    }
  }

  /** A single context after k calls in millisecond t. */
  ghost predicate Alone(s: State, t: int, k: nat) {
    && s.contexts == [Context(Idle, if k == 0 then -1 else t)]
    && s.exceeded == {} && s.Counter(t) == k && s.Births(t) == (if k == 0 then 0 else 1)
    && (t in s.counters <==> k > 0)
  }

  function OneCall(t: int): seq<Step> {
    [Begin(0, t), Incr(0), Emit(0)]
  }

  /** One more call of a lone context, with room in the counter. */
  lemma CallAlone(states: seq<State>, steps: seq<Step>, t: int) returns (longer: seq<State>)
    requires IsRun(states, steps)
    requires var s := states[|steps|];
      |s.contexts| == 1 && s.contexts[0].phase.Idle? && s.contexts[0].lastTimestamp <= t && s.Counter(t) < MAX_SEQUENCE
    ensures IsRun(longer, steps + OneCall(t)) && |longer| == |steps| + 4
    ensures var s, after := states[|steps|], longer[|steps| + 3];
      && after.contexts == [Context(Idle, t)] && after.exceeded == s.exceeded
      && t in after.counters && after.Counter(t) == s.Counter(t) + 1
      && after.Births(t) == s.Births(t) + (if t in s.counters then 0 else 1)
  {
    assert |states| == |steps| + 1;
    hide IsRun;
    var begun := OneMore(states, steps, Begin(0, t));
    var counted := OneMore(begun, steps + [Begin(0, t)], Incr(0));
    longer := OneMore(counted, steps + [Begin(0, t)] + [Incr(0)], Emit(0));
    assert steps + [Begin(0, t)] + [Incr(0)] + [Emit(0)] == steps + OneCall(t);
  }

  lemma StartIsRun(n: nat, now: int)
    ensures IsRun([Start(n, now)], [])
  {
  }

  lemma {:induction false} AloneCounts(t: int, k: nat) returns (states: seq<State>, steps: seq<Step>)
    requires t >= 0 && k <= MAX_SEQUENCE
    ensures IsRun(states, steps) && Alone(states[|steps|], t, k)
    ensures forall i | 0 <= i < |steps| :: !steps[i].Evict?
  {
    hide IsRun, Next;
    if k == 0 {
      states, steps := [Start(1, 0)], [];
      StartIsRun(1, 0);
    } else {
      states, steps := AloneCounts(t, k - 1);
      states := CallAlone(states, steps, t);
      steps := steps + OneCall(t);
    }
  }

  /** A store that loses a counter which is then drawn from again repeats an ID: two calls in one millisecond,
      an eviction between them. */
  lemma EvictionRepeats(node: Node, t: int) returns (states: seq<State>, steps: seq<Step>)
    requires node.Valid() && t >= 0
    ensures IsRun(states, steps) && steps == OneCall(t) + [Evict(t)] + OneCall(t)
    ensures Quiescent(states[|steps|]) && NoExcess(states[|steps|]) && !BornOnce(states[|steps|])
    ensures Invariant(states[|steps|]) && !Distinct(EmittedIds(node, states[|steps|]))
  {
    hide IsRun, Invariant;
    states, steps := [Start(1, 0)], [];
    StartIsRun(1, 0);
    states := CallAlone(states, steps, t);
    steps := steps + OneCall(t);
    states := OneMore(states, steps, Evict(t));
    states := CallAlone(states, steps + [Evict(t)], t);
    steps := steps + [Evict(t)] + OneCall(t);
    DistinctExactlyWhenBornOnce(node, states, steps, |steps|);
  }

  function ExceedingCall(t: int): seq<Step> {
    [Begin(0, t), Incr(0), Delete(0), IncrAgain(0), Emit(0)]
  }

  /** The next call of a lone context whose counter is full. */
  lemma CallExceeds(states: seq<State>, steps: seq<Step>, t: int) returns (longer: seq<State>)
    requires IsRun(states, steps)
    requires var s := states[|steps|];
      |s.contexts| == 1 && s.contexts[0].phase.Idle? && s.contexts[0].lastTimestamp <= t && s.Counter(t) == MAX_SEQUENCE
    ensures IsRun(longer, steps + ExceedingCall(t)) && |longer| == |steps| + 6
    ensures Quiescent(longer[|steps| + 5]) && t in longer[|steps| + 5].exceeded
  {
    assert |states| == |steps| + 1;
    hide IsRun;
    var counted, s2 := CallOverflows(states, steps, t);
    var deleted := OneMore(counted, s2, Delete(0));
    var s3 := s2 + [Delete(0)];
    var again := OneMore(deleted, s3, IncrAgain(0));
    longer := OneMore(again, s3 + [IncrAgain(0)], Emit(0));
    assert s3 + [IncrAgain(0)] + [Emit(0)] == steps + ExceedingCall(t);
  }

  lemma CallOverflows(states: seq<State>, steps: seq<Step>, t: int) returns (longer: seq<State>, all: seq<Step>)
    requires IsRun(states, steps)
    requires var s := states[|steps|];
      |s.contexts| == 1 && s.contexts[0].phase.Idle? && s.contexts[0].lastTimestamp <= t && s.Counter(t) == MAX_SEQUENCE
    ensures all == steps + [Begin(0, t)] + [Incr(0)]
    ensures IsRun(longer, all) && |longer| == |all| + 1
    ensures var s := longer[|all|]; |s.contexts| == 1 && s.contexts[0].phase == Overflowed(t) && t in s.exceeded
  {
    assert |states| == |steps| + 1;
    hide IsRun;
    var begun := OneMore(states, steps, Begin(0, t));
    longer := OneMore(begun, steps + [Begin(0, t)], Incr(0));
    all := steps + [Begin(0, t)] + [Incr(0)];
  }

  /** The call after the 4095th in one millisecond passes the maximum and repeats an ID, even alone and with a store
      that loses nothing. */
  lemma ExcessHappens(node: Node, t: int) returns (states: seq<State>, steps: seq<Step>)
    requires node.Valid() && t >= 0
    ensures IsRun(states, steps) && Quiescent(states[|steps|]) && t in states[|steps|].exceeded
    ensures forall i | 0 <= i < |steps| :: !steps[i].Evict?
    ensures Invariant(states[|steps|]) && !Distinct(EmittedIds(node, states[|steps|]))
  {
    hide IsRun, Invariant, Quiescent;
    var counted, calls := AloneCounts(t, MAX_SEQUENCE);
    states := CallExceeds(counted, calls, t);
    steps := calls + ExceedingCall(t);
    ExcessRepeats(node, states, steps, |steps|, t);
  }

  // ---- A shared clock and prompt draws are enough ----

  /** The contexts read the store's clock, every incr comes within the counter's lifetime of the reading it
      is for and stays within MAX_SEQUENCE, and a counter disappears only after its expiry. */
  predicate Timely(s: State, step: Step)
    requires Enabled(s, step)
  {
    match step
    case Begin(_, reading) => reading == s.now
    case Incr(c) =>
      var t := s.contexts[c].phase.timestamp;
      s.now <= t + 1000 && s.Counter(t) < 4095
    case Evict(t) => t in s.expiry && s.expiry[t] < s.now
    case _ => true
  }

  ghost predicate Prompt(s: State) {
    && s.exceeded == {}
    && BornOnce(s)
    && (forall c | 0 <= c < |s.contexts| :: !s.contexts[c].phase.Overflowed? && !s.contexts[c].phase.Deleted?)
    && (forall c | 0 <= c < |s.contexts| && !s.contexts[c].phase.Idle? :: s.contexts[c].phase.timestamp <= s.now)
    && (forall t | t in s.expiry :: s.expiry[t] >= t + TTL_MS)
    && (forall t | t in s.births && t !in s.counters :: s.now > t + TTL_MS)
  }

  lemma PromptStep(s: State, step: Step)
    requires Enabled(s, step) && Timely(s, step) && Prompt(s)
    ensures Prompt(Next(s, step))
  {
  }

  lemma {:induction false} PromptRun(states: seq<State>, steps: seq<Step>, i: nat)
    requires IsRun(states, steps) && i < |states|
    requires forall k | 0 <= k < i :: Timely(states[k], steps[k])
    ensures Prompt(states[i])
  {
    if i > 0 {
      PromptRun(states, steps, i - 1);
      PromptStep(states[i - 1], steps[i - 1]);
    }
  }

  /** With prompt draws every ID of every interleaving of any number of contexts is unique. */
  lemma TimelyIdsAreDistinct(node: Node, states: seq<State>, steps: seq<Step>, i: nat)
    requires node.Valid() && IsRun(states, steps) && i < |states|
    requires forall k | 0 <= k < i :: Timely(states[k], steps[k])
    ensures Invariant(states[i])
    ensures Distinct(EmittedIds(node, states[i]))
  {
    PromptRun(states, steps, i);
    BornOnceIsDistinct(node, states, steps, i);
  }
}
