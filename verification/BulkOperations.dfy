/** The bulk handler: a list of operations run in batches, failures recorded and skipped. */
module BulkOperations {
  import opened Wrappers

  /** An operation may change the store and may then raise; nothing is rolled back. */
  type Operation<!S, !E> = S -> (S, Option<E>)

  datatype ErrorEntry<E> = ErrorEntry(index: nat, batchIndex: nat, batchNumber: nat, error: E)

  datatype Report<E> = Report(
    successful: nat, failed: nat, errors: seq<ErrorEntry<E>>, total: nat, batchesProcessed: nat)

  datatype Error = ZeroBatchSize

  /** The store before operation number i, each earlier one having run exactly once, in order. */
  function StoreAt<S, E>(ops: seq<Operation<S, E>>, s: S, i: nat): S
    requires i <= |ops|
  {
    if i == 0 then s else ops[i - 1](StoreAt(ops, s, i - 1)).0
  }

  function ErrorOf<S, E>(ops: seq<Operation<S, E>>, s: S, i: nat): Option<E>
    requires i < |ops|
  {
    ops[i](StoreAt(ops, s, i)).1
  }

  /** The failing positions below n, in increasing order. */
  function Failing<S, E>(ops: seq<Operation<S, E>>, s: S, n: nat): (r: seq<nat>)
    requires n <= |ops|
    ensures forall k | 0 <= k < |r| :: r[k] < n && ErrorOf(ops, s, r[k]).Some?
    ensures forall k, l | 0 <= k < l < |r| :: r[k] < r[l]
    ensures forall i | 0 <= i < n && ErrorOf(ops, s, i).Some? :: i in r
    ensures |r| <= n
  {
    if n == 0 then []
    else Failing(ops, s, n - 1) + (if ErrorOf(ops, s, n - 1).Some? then [n - 1] else [])
  }

  function Indices<E>(errors: seq<ErrorEntry<E>>): seq<nat> {
    seq(|errors|, k requires 0 <= k < |errors| => errors[k].index)
  }

  /** The entry carries its operation's own error and the position's batch coordinates. */
  ghost predicate Located<S, E>(ops: seq<Operation<S, E>>, s: S, batchSize: int, e: ErrorEntry<E>) {
    && e.index < |ops| && Some(e.error) == ErrorOf(ops, s, e.index)
    && e.batchNumber >= 1 && e.batchIndex < batchSize
    && e.index == (e.batchNumber - 1) * batchSize + e.batchIndex
  }

  /** What the report of the first n operations has to say. */
  ghost predicate Reports<S, E>(ops: seq<Operation<S, E>>, s: S, n: nat, batchSize: int, r: Report<E>) {
    && n <= |ops|
    && r.total == |ops| && r.successful + r.failed == n && r.failed == |r.errors|
    && Indices(r.errors) == Failing(ops, s, n)
    && forall e | e in r.errors :: Located(ops, s, batchSize, e)
  }

  lemma ReportsStep<S, E>(
    ops: seq<Operation<S, E>>, s: S, n: nat, batchSize: int, r: Report<E>, next: Report<E>, j: nat)
    requires Reports(ops, s, n, batchSize, r) && n < |ops| && j < batchSize
    requires n == (r.batchesProcessed - 1) * batchSize + j && r.batchesProcessed >= 1
    requires next == match ErrorOf(ops, s, n)
                     case None => r.(successful := r.successful + 1)
                     case Some(e) => r.(failed := r.failed + 1,
                                        errors := r.errors + [ErrorEntry(n, j, r.batchesProcessed, e)])
    ensures Reports(ops, s, n + 1, batchSize, next)
  {
    hide ErrorOf, StoreAt;
    match ErrorOf(ops, s, n)
    case None =>
    case Some(e) =>
      var entry := ErrorEntry(n, j, r.batchesProcessed, e);
      assert Located(ops, s, batchSize, entry);
      assert Indices(next.errors) == Indices(r.errors) + [n];
  }

  /** One batch: the operations from position `start` up to `end`. */
  method ProcessBatch<S, E>(
    ghost ops: seq<Operation<S, E>>, ghost batchSize: int, ghost store: S,
    batch: seq<Operation<S, E>>, start: nat, results: Report<E>, before: S)
    returns (r: Report<E>, after: S)
    requires |batch| <= batchSize && start + |batch| <= |ops| && batch == ops[start..start + |batch|]
    requires results.batchesProcessed >= 1 && start == (results.batchesProcessed - 1) * batchSize
    requires Reports(ops, store, start, batchSize, results) && before == StoreAt(ops, store, start)
    ensures Reports(ops, store, start + |batch|, batchSize, r) && after == StoreAt(ops, store, start + |batch|)
    ensures r.batchesProcessed == results.batchesProcessed
  {
    hide Reports, Located, Failing, Indices;
    r, after := results, before;
    var j := 0;
    while j < |batch|
      invariant 0 <= j <= |batch| && r.batchesProcessed == results.batchesProcessed
      invariant Reports(ops, store, start + j, batchSize, r) && after == StoreAt(ops, store, start + j)
    {
      assert batch[j] == ops[start + j];
      ghost var previous := r;
      var (changed, error) := batch[j](after);
      after := changed;
      match error {
        case None =>
          r := r.(successful := r.successful + 1);
        case Some(e) =>
          r := r.(failed := r.failed + 1, errors := r.errors + [ErrorEntry(start + j, j, r.batchesProcessed, e)]);
      }
      ReportsStep(ops, store, start + j, batchSize, previous, r, j);
      j := j + 1;
    }
  }

  function Bounded(i: nat, n: nat): nat {
    if i < n then i else n
  }

  /** With a positive batch size every operation runs exactly once in list order. A batch size of zero raises
      before anything runs; a negative one makes the range of batches empty, so nothing runs at all. */
  method BulkOperationHandler<S, E>(ops: seq<Operation<S, E>>, batchSize: int, store: S)
    returns (r: Result<Report<E>, Error>, after: S)
    ensures batchSize == 0 ==> r == Failure(ZeroBatchSize) && after == store
    ensures batchSize < 0 ==> r == Success(Report(0, 0, [], |ops|, 0)) && after == store
    ensures batchSize > 0 ==>
      && r.Success? && after == StoreAt(ops, store, |ops|)
      && Reports(ops, store, |ops|, batchSize, r.value)
      && (r.value.batchesProcessed - 1) * batchSize < |ops| <= r.value.batchesProcessed * batchSize
    ensures batchSize != 0 ==>
      r.Success? && (r.value.successful + r.value.failed == r.value.total <==> batchSize > 0 || |ops| == 0)
  {
    after := store;
    var results: Report<E> := Report(0, 0, [], |ops|, 0);
    if batchSize == 0 {
      return Failure(ZeroBatchSize), after;
    } else if batchSize < 0 {
      return Success(results), after;
    }
    var i := 0;
    while i < |ops|
      invariant 0 <= i == results.batchesProcessed * batchSize
      invariant (results.batchesProcessed - 1) * batchSize < |ops|
      invariant Reports(ops, store, Bounded(i, |ops|), batchSize, results)
      invariant after == StoreAt(ops, store, Bounded(i, |ops|))
    {
      var batch := ops[i..Bounded(i + batchSize, |ops|)];
      results := results.(batchesProcessed := results.batchesProcessed + 1);
      hide Reports;
      results, after := ProcessBatch(ops, batchSize, store, batch, i, results, after);
      NextMultiple(results.batchesProcessed, batchSize);
      i := i + batchSize;
    }
    r := Success(results);
  }

  lemma NextMultiple(n: nat, size: int)
    requires n >= 1
    ensures (n - 1) * size + size == n * size
  {
  }

  // ---- Every operation once, in order ----

  /** Operations that each write their own number to a log, and then raise if the list says so. */
  function Recording<E>(raises: seq<Option<E>>): seq<Operation<seq<nat>, E>> {
    seq(|raises|, i requires 0 <= i < |raises| => (log: seq<nat>) => (log + [i], raises[i]))
  }

  /** On a log, each operation's effect appears once and in list order, that of a failing one too, and the failing
      positions are those of the operations that raise. */
  lemma {:induction false} EveryEffectOnce<E>(raises: seq<Option<E>>, n: nat)
    requires n <= |raises|
    ensures StoreAt(Recording(raises), [], n) == seq(n, i => i)
    ensures n < |raises| ==> ErrorOf(Recording(raises), [], n) == raises[n]
  {
    if n > 0 {
      EveryEffectOnce(raises, n - 1);
    }
  }

  /** So a report on such operations names exactly the positions that raise, with their own errors. */
  lemma RecordedReport<E>(raises: seq<Option<E>>, batchSize: int, r: Report<E>)
    requires Reports(Recording(raises), [], |raises|, batchSize, r)
    ensures r.total == |raises| == r.successful + r.failed && r.failed == |r.errors|
    ensures forall i: nat :: i in Indices(r.errors) <==> i < |raises| && raises[i].Some?
    ensures forall e | e in r.errors :: e.index < |raises| && Some(e.error) == raises[e.index]
  {
    hide StoreAt, Recording;
    assert |Recording(raises)| == |raises| by {
      RecordingLength(raises);
    }
    forall i: nat | i < |raises| ensures ErrorOf(Recording(raises), [], i) == raises[i] {
      EveryEffectOnce(raises, i);
    }
    hide ErrorOf;
  }

  lemma RecordingLength<E>(raises: seq<Option<E>>)
    ensures |Recording(raises)| == |raises|
  {
  }
}
