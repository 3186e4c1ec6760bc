/** Contexts that collect validation errors, and what merging them amounts to. */
module ValidationContext {
  import opened Wrappers

  /** Python's append guarded by a membership test. */
  function AddOnce(xs: seq<string>, x: string): seq<string> {
    if x in xs then xs else xs + [x]
  }

  /** The elements of ys added one by one; each test sees what has been added before. */
  function Extend(xs: seq<string>, ys: seq<string>): seq<string> {
    if ys == [] then xs else AddOnce(Extend(xs, ys[..|ys| - 1]), ys[|ys| - 1])
  }

  function At(errors: map<string, seq<string>>, field: string): seq<string> {
    if field in errors then errors[field] else []
  }

  /** What a context holds. */
  datatype State<D> = State(errors: map<string, seq<string>>, warnings: seq<string>, context: map<string, D>)
  {
    function WithError(field: string, message: string): State<D> {
      if field == "" || message == "" then this
      else this.(errors := errors[field := AddOnce(At(errors, field), message)])
    }

    function WithWarning(message: string): State<D> {
      if message == "" then this else this.(warnings := AddOnce(warnings, message))
    }

    function WithContext(key: string, value: D): State<D> {
      this.(context := context[key := value])
    }

    function Merged(other: State<D>): State<D> {
      State(
        map f | f in errors.Keys + other.errors.Keys :: Extend(At(errors, f), At(other.errors, f)),
        Extend(warnings, Given(other.warnings)),
        context + other.context)
    }

    ghost predicate WellFormed() {
      && Listed(warnings)
      && forall f | f in errors :: f != "" && errors[f] != [] && Listed(errors[f])
    }
  }

  /** The warnings that add_warning accepts. */
  function Given(messages: seq<string>): seq<string> {
    if messages == [] then []
    else Given(messages[..|messages| - 1]) + (if messages[|messages| - 1] == "" then [] else [messages[|messages| - 1]])
  }

  ghost predicate Distinct(xs: seq<string>) {
    forall i, j | 0 <= i < j < |xs| :: xs[i] != xs[j]
  }

  /** A list as the contexts keep them: no message twice and none empty. */
  ghost predicate Listed(xs: seq<string>) {
    Distinct(xs) && "" !in xs
  }

  class ValidationContext<D> {
    var errors: map<string, seq<string>>
    var warnings: seq<string>
    var context: map<string, D>

    ghost function Value(): State<D>
      reads this
    {
      State(errors, warnings, context)
    }

    constructor ()
      ensures Value() == State(map[], [], map[])
    {
      errors, warnings, context := map[], [], map[];
    }

    method AddError(field: string, message: string)
      modifies this
      ensures Value() == old(Value()).WithError(field, message)
    {
      if field == "" || message == "" {
        return;
      }
      if field !in errors {
        errors := errors[field := []];
      }
      if message !in errors[field] {
        errors := errors[field := errors[field] + [message]];
      }
    }

    method AddWarning(message: string)
      modifies this`warnings
      ensures Value() == old(Value()).WithWarning(message)
    {
      if message != "" && message !in warnings {
        warnings := warnings + [message];
      }
    }

    method SetContext(key: string, value: D)
      modifies this
      ensures Value() == old(Value()).WithContext(key, value)
    {
      context := context[key := value];
    }

    method Clear()
      modifies this
      ensures Value() == State(map[], [], map[])
    {
      errors, warnings, context := map[], [], map[];
    }

    /** The other context may be this one. */
    method Merge(other: ValidationContext<D>)
      modifies this
      ensures Value() == old(Value()).Merged(old(other.Value()))
      ensures other != this ==> other.Value() == old(other.Value())
      ensures context.Keys == old(context.Keys + other.context.Keys)
      ensures forall k | k in context ::
        context[k] == old(if k in other.context then other.context[k] else context[k])
    {
      MergeErrors(other);
      MergeWarnings(other);
      context := context + other.context;
    }

    method MergeErrors(other: ValidationContext<D>)
      modifies this`errors
      ensures errors == old(Value()).Merged(old(other.Value())).errors
      ensures other != this ==> other.errors == old(other.errors)
    {
      hide Extend;
      ghost var mine, theirs := errors, other.errors;
      var pending := other.errors.Keys;
      forall f ensures At(theirs, f) == [] ==> Extend(At(mine, f), At(theirs, f)) == At(mine, f) {
        ExtendByNothing(At(mine, f));
      }
      while pending != {}
        invariant pending <= theirs.Keys
        invariant forall f | f in pending :: f in other.errors && other.errors[f] == theirs[f]
        invariant errors.Keys == mine.Keys + (theirs.Keys - pending)
        invariant forall f | f in errors ::
          errors[f] == if f in pending then mine[f] else Extend(At(mine, f), At(theirs, f))
        invariant other != this ==> other.errors == theirs
        decreases pending
      {
        var field :| field in pending;
        MergeField(field, other.errors[field]);
        pending := pending - {field};
      }
      assert errors == State(mine, warnings, context).Merged(State(theirs, warnings, context)).errors;
    }

    method MergeField(field: string, messages: seq<string>)
      modifies this`errors
      ensures errors == old(errors)[field := Extend(At(old(errors), field), messages)]
    {
      if field !in errors {
        errors := errors[field := []];
      }
      ghost var before := errors[field];
      for i := 0 to |messages|
        invariant errors == old(errors)[field := Extend(before, messages[..i])]
      {
        ExtendPrefix(before, messages, i);
        if messages[i] !in errors[field] {
          errors := errors[field := errors[field] + [messages[i]]];
        }
      }
      assert messages[..|messages|] == messages;
    }

    method MergeWarnings(other: ValidationContext<D>)
      modifies this`warnings
      ensures warnings == Extend(old(warnings), Given(old(other.warnings)))
      ensures other != this ==> other.warnings == old(other.warnings)
    {
      ghost var mine, theirs := warnings, other.warnings;
      var i := 0;
      while i < |other.warnings|
        invariant i <= |theirs| && other.warnings == theirs
        invariant warnings == Extend(mine, Given(theirs[..i]))
      {
        GivenStep(theirs, i);
        ExtendSnoc(mine, Given(theirs[..i]), theirs[i]);
        AddWarning(other.warnings[i]);
        i := i + 1;
      }
      assert theirs[..i] == theirs;
    }
  }

  lemma ExtendPrefix(xs: seq<string>, ys: seq<string>, i: nat)
    ensures Extend(xs, ys[..0]) == xs
    ensures i < |ys| ==> Extend(xs, ys[..i + 1]) == AddOnce(Extend(xs, ys[..i]), ys[i])
  {
    assert i < |ys| ==> ys[..i + 1][..i] == ys[..i];
  }

  lemma ExtendSnoc(xs: seq<string>, ys: seq<string>, y: string)
    ensures Extend(xs, ys + [y]) == AddOnce(Extend(xs, ys), y)
  {
    assert (ys + [y])[..|ys|] == ys;
  }

  lemma GivenStep(ys: seq<string>, i: nat)
    requires i < |ys|
    ensures Given(ys[..i + 1]) == if ys[i] == "" then Given(ys[..i]) else Given(ys[..i]) + [ys[i]]
  {
    assert ys[..i + 1][..i] == ys[..i];
  }

  lemma ExtendByNothing(xs: seq<string>)
    ensures Extend(xs, []) == xs
  {
  }

  // ---- Adding one by one ----

  lemma {:induction false} ExtendMembers(xs: seq<string>, ys: seq<string>, x: string)
    ensures x in Extend(xs, ys) <==> x in xs || x in ys
  {
    if ys != [] {
      ExtendMembers(xs, ys[..|ys| - 1], x);
      assert ys == ys[..|ys| - 1] + [ys[|ys| - 1]];
    }
  }

  /** What was there stays in front, and no message comes twice. */
  lemma {:induction false} ExtendKeeps(xs: seq<string>, ys: seq<string>)
    ensures xs <= Extend(xs, ys)
    ensures Listed(xs) && "" !in ys ==> Listed(Extend(xs, ys))
  {
    if ys != [] {
      ExtendKeeps(xs, ys[..|ys| - 1]);
    }
  }

  lemma {:induction false} ExtendByMembers(xs: seq<string>, ys: seq<string>)
    requires forall y | y in ys :: y in xs
    ensures Extend(xs, ys) == xs
  {
    if ys != [] {
      ExtendByMembers(xs, ys[..|ys| - 1]);
    }
  }

  lemma {:induction false} ExtendAssociative(a: seq<string>, b: seq<string>, c: seq<string>)
    ensures Extend(a, Extend(b, c)) == Extend(Extend(a, b), c)
  {
    if c != [] {
      var d, x := c[..|c| - 1], c[|c| - 1];
      ExtendAssociative(a, b, d);
      if x in Extend(b, d) {
        ExtendMembers(a, Extend(b, d), x);
      } else {
        ExtendSnoc(a, Extend(b, d), x);
      }
    }
  }

  lemma {:induction false} ExtendAppend(a: seq<string>, b: seq<string>, c: seq<string>)
    ensures Extend(a, b + c) == Extend(Extend(a, b), c)
  {
    if c == [] {
      assert b + c == b;
    } else {
      assert (b + c)[..|b + c| - 1] == b + c[..|c| - 1];
      ExtendAppend(a, b, c[..|c| - 1]);
    }
  }

  lemma {:induction false} GivenMembers(ys: seq<string>, x: string)
    ensures x in Given(ys) <==> x in ys && x != ""
  {
    if ys != [] {
      GivenMembers(ys[..|ys| - 1], x);
      assert ys == ys[..|ys| - 1] + [ys[|ys| - 1]];
    }
  }

  lemma {:induction false} GivenAll(ys: seq<string>)
    requires "" !in ys
    ensures Given(ys) == ys
  {
    if ys != [] {
      GivenAll(ys[..|ys| - 1]);
      assert ys == ys[..|ys| - 1] + [ys[|ys| - 1]];
    }
  }

  lemma GivenAddOnce(xs: seq<string>, x: string)
    requires x != ""
    ensures Given(AddOnce(xs, x)) == AddOnce(Given(xs), x)
  {
    GivenMembers(xs, x);
    assert (xs + [x])[..|xs|] == xs;
  }

  lemma {:induction false} GivenExtend(xs: seq<string>, ys: seq<string>)
    requires "" !in ys
    ensures Given(Extend(xs, ys)) == Extend(Given(xs), ys)
  {
    if ys != [] {
      GivenExtend(xs, ys[..|ys| - 1]);
      GivenAddOnce(Extend(xs, ys[..|ys| - 1]), ys[|ys| - 1]);
    }
  }

  // ---- Merging ----

  lemma MergedAt<D>(a: State<D>, b: State<D>, field: string)
    ensures At(a.Merged(b).errors, field) == Extend(At(a.errors, field), At(b.errors, field))
  {
    ExtendByNothing([]);
  }

  /** Merging keeps the lists without repetition and without empty messages, and the earlier messages in front. */
  lemma MergeKeepsWellFormed<D>(a: State<D>, b: State<D>)
    requires a.WellFormed() && b.WellFormed()
    ensures a.Merged(b).WellFormed()
    ensures forall f :: At(a.errors, f) <= At(a.Merged(b).errors, f)
    ensures a.warnings <= a.Merged(b).warnings
  {
    hide Extend, Given;
    forall f ensures At(a.errors, f) <= At(a.Merged(b).errors, f) && Listed(At(a.Merged(b).errors, f)) {
      MergedAt(a, b, f);
      ExtendKeeps(At(a.errors, f), At(b.errors, f));
    }
    forall f | f in a.Merged(b).errors ensures f != "" && a.Merged(b).errors[f] != [] {
      NotEmptyAfter(At(a.errors, f), At(b.errors, f));
    }
    GivenAll(b.warnings);
    ExtendKeeps(a.warnings, b.warnings);
  }

  lemma NotEmptyAfter(xs: seq<string>, ys: seq<string>)
    requires xs != [] || ys != []
    ensures Extend(xs, ys) != []
  {
  }

  /** Merging is associative, for all contexts. */
  lemma MergeAssociative<D>(a: State<D>, b: State<D>, c: State<D>)
    ensures a.Merged(b.Merged(c)) == a.Merged(b).Merged(c)
  {
    hide State.Merged;
    ErrorsAssociative(a, b, c);
    OthersAssociative(a, b, c);
  }

  lemma ErrorsAssociative<D>(a: State<D>, b: State<D>, c: State<D>)
    ensures a.Merged(b.Merged(c)).errors == a.Merged(b).Merged(c).errors
  {
    hide Extend, Given, At;
    var l, r := a.Merged(b.Merged(c)), a.Merged(b).Merged(c);
    forall f ensures At(l.errors, f) == At(r.errors, f) {
      MergedAt(b, c, f);
      MergedAt(a, b, f);
      MergedAt(a, b.Merged(c), f);
      MergedAt(a.Merged(b), c, f);
      ExtendAssociative(At(a.errors, f), At(b.errors, f), At(c.errors, f));
    }
    SameErrors(l.errors, r.errors);
  }

  lemma OthersAssociative<D>(a: State<D>, b: State<D>, c: State<D>)
    ensures a.Merged(b.Merged(c)).warnings == a.Merged(b).Merged(c).warnings
    ensures a.Merged(b.Merged(c)).context == a.Merged(b).Merged(c).context
  {
    hide Extend, Given, At;
    NoneGivenEmpty(c.warnings);
    GivenExtend(b.warnings, Given(c.warnings));
    ExtendAssociative(a.warnings, Given(b.warnings), Given(c.warnings));
    assert a.context + (b.context + c.context) == (a.context + b.context) + c.context;
  }

  lemma NoneGivenEmpty(ys: seq<string>)
    ensures "" !in Given(ys)
  {
    GivenMembers(ys, "");
  }

  lemma SameErrors(m: map<string, seq<string>>, n: map<string, seq<string>>)
    requires m.Keys == n.Keys && forall f :: At(m, f) == At(n, f)
    ensures m == n
  {
    forall f | f in m ensures m[f] == n[f] {
      assert At(m, f) == At(n, f);
    }
  }

  /** Merging a context again, or with itself, changes nothing. */
  lemma MergeIdempotent<D>(a: State<D>, b: State<D>)
    ensures a.Merged(b).Merged(b) == a.Merged(b) && a.Merged(a) == a
  {
    MergeSelf(b);
    MergeAssociative(a, b, b);
    MergeSelf(a);
  }

  lemma MergeSelf<D>(a: State<D>)
    ensures a.Merged(a) == a
  {
    hide Extend, Given;
    forall f ensures At(a.Merged(a).errors, f) == At(a.errors, f) {
      MergedAt(a, a, f);
      ExtendByMembers(At(a.errors, f), At(a.errors, f));
    }
    SameErrors(a.Merged(a).errors, a.errors);
    forall x | x in Given(a.warnings) ensures x in a.warnings {
      GivenMembers(a.warnings, x);
    }
    ExtendByMembers(a.warnings, Given(a.warnings));
  }

  // ---- Any way of building a context ----

  /** A context built by any nesting of the operations. */
  datatype Build<D> =
    | Empty
    | Error(before: Build<D>, field: string, message: string)
    | Warning(before: Build<D>, message: string)
    | Context(before: Build<D>, key: string, value: D)
    | Merge(before: Build<D>, other: Build<D>)
  {
    function Outcome(): State<D> {
      match this
      case Empty => State(map[], [], map[])
      case Error(before, field, message) => before.Outcome().WithError(field, message)
      case Warning(before, message) => before.Outcome().WithWarning(message)
      case Context(before, key, value) => before.Outcome().WithContext(key, value)
      case Merge(before, other) => before.Outcome().Merged(other.Outcome())
    }

    /** The messages reported for a field, in the order in which they would reach a single context. */
    function Reported(f: string): seq<string> {
      match this
      case Empty => []
      case Error(before, field, message) =>
        before.Reported(f) + (if field == f && field != "" && message != "" then [message] else [])
      case Warning(before, _) => before.Reported(f)
      case Context(before, _, _) => before.Reported(f)
      case Merge(before, other) => before.Reported(f) + other.Reported(f)
    }

    function Warned(): seq<string> {
      match this
      case Empty => []
      case Error(before, _, _) => before.Warned()
      case Warning(before, message) => before.Warned() + (if message != "" then [message] else [])
      case Context(before, _, _) => before.Warned()
      case Merge(before, other) => before.Warned() + other.Warned()
    }

    /** The context entries set, in the order in which they would reach a single context. */
    function Settings(): seq<(string, D)> {
      match this
      case Empty => []
      case Error(before, _, _) => before.Settings()
      case Warning(before, _) => before.Settings()
      case Context(before, key, value) => before.Settings() + [(key, value)]
      case Merge(before, other) => before.Settings() + other.Settings()
    }
  }

  /** The last value set for a key in a list of settings. */
  function LastSet<D>(settings: seq<(string, D)>, key: string): Option<D> {
    if settings == [] then None
    else if settings[|settings| - 1].0 == key then Some(settings[|settings| - 1].1)
    else LastSet(settings[..|settings| - 1], key)
  }

  lemma {:induction false} LastSetAppend<D>(a: seq<(string, D)>, b: seq<(string, D)>, key: string)
    ensures LastSet(a + b, key) == if LastSet(b, key).Some? then LastSet(b, key) else LastSet(a, key)
  {
    if b == [] {
      assert a + b == a;
    } else {
      LastSetAppend(a, b[..|b| - 1], key);
      assert (a + b)[..|a + b| - 1] == a + b[..|b| - 1];
    }
  }

  /** However a context was built, a key has an entry exactly when it was set somewhere, and its value is the last
      one set in replay order; so merging lets the other's entries win. */
  lemma {:induction false} LastSettingWins<D>(b: Build<D>, key: string)
    ensures key in b.Outcome().context <==> exists i :: 0 <= i < |b.Settings()| && b.Settings()[i].0 == key
    ensures (if key in b.Outcome().context then Some(b.Outcome().context[key]) else None) == LastSet(b.Settings(), key)
  {
    ContextIsLastSet(b, key);
    LastSetExists(b.Settings(), key);
  }

  lemma {:induction false} ContextIsLastSet<D>(b: Build<D>, key: string)
    ensures (if key in b.Outcome().context then Some(b.Outcome().context[key]) else None) == LastSet(b.Settings(), key)
  {
    hide Extend, Given;
    match b
    case Empty =>
    case Error(before, _, _) => ContextIsLastSet(before, key);
    case Warning(before, _) => ContextIsLastSet(before, key);
    case Context(before, k, value) =>
      ContextIsLastSet(before, key);
      LastSetAppend(before.Settings(), [(k, value)], key);
      assert [(k, value)][..0] == [];
    case Merge(before, other) =>
      ContextIsLastSet(before, key);
      ContextIsLastSet(other, key);
      LastSetAppend(before.Settings(), other.Settings(), key);
  }

  lemma {:induction false} LastSetExists<D>(settings: seq<(string, D)>, key: string)
    ensures LastSet(settings, key).Some? <==> exists i :: 0 <= i < |settings| && settings[i].0 == key
  {
    if settings != [] {
      LastSetExists(settings[..|settings| - 1], key);
    }
  }

  /** Every context is well formed, however it was built. */
  lemma {:induction false} BuiltIsWellFormed<D>(b: Build<D>)
    ensures b.Outcome().WellFormed()
  {
    hide Extend, Given;
    match b
    case Empty =>
    case Error(before, _, _) => BuiltIsWellFormed(before);
    case Warning(before, _) => BuiltIsWellFormed(before);
    case Context(before, _, _) => BuiltIsWellFormed(before);
    case Merge(before, other) =>
      BuiltIsWellFormed(before);
      BuiltIsWellFormed(other);
      MergeKeepsWellFormed(before.Outcome(), other.Outcome());
  }

  /** However contexts were merged, the result is that of adding everything to one context, message by message. */
  lemma {:induction false} MergingIsReplaying<D>(b: Build<D>, f: string)
    ensures At(b.Outcome().errors, f) == Extend([], b.Reported(f))
    ensures b.Outcome().warnings == Extend([], b.Warned())
    ensures f in b.Outcome().errors <==> b.Reported(f) != []
  {
    match b
    case Empty =>
    case Error(before, field, message) =>
      MergingIsReplaying(before, f);
      if field == f && field != "" && message != "" {
        ExtendSnoc([], before.Reported(f), message);
      } else {
        assert b.Reported(f) == before.Reported(f);
      }
    case Warning(before, message) =>
      MergingIsReplaying(before, f);
      if message != "" {
        ExtendSnoc([], before.Warned(), message);
      } else {
        assert b.Warned() == before.Warned();
      }
    case Context(before, _, _) => MergingIsReplaying(before, f);
    case Merge(before, other) =>
      MergingIsReplaying(before, f);
      MergingIsReplaying(other, f);
      MergedAt(before.Outcome(), other.Outcome(), f);
      TwoReplays(before.Reported(f), other.Reported(f));
      BuiltIsWellFormed(other);
      GivenAll(other.Outcome().warnings);
      TwoReplays(before.Warned(), other.Warned());
  }

  lemma TwoReplays(xs: seq<string>, ys: seq<string>)
    ensures Extend(Extend([], xs), Extend([], ys)) == Extend([], xs + ys)
  {
    ExtendAssociative(Extend([], xs), [], ys);
    ExtendByNothing(Extend([], xs));
    ExtendAppend([], xs, ys);
  }

  /** The first place of an element. */
  function FirstIndex(xs: seq<string>, x: string): (i: nat)
    requires x in xs
    ensures i < |xs| && xs[i] == x && x !in xs[..i]
  {
    if xs[0] == x then 0
    else
      assert xs == [xs[0]] + xs[1..];
      var i := 1 + FirstIndex(xs[1..], x);
      assert xs[..i] == [xs[0]] + xs[1..][..i - 1];
      i
  }

  lemma FirstIndexAppend(xs: seq<string>, x: string, y: string)
    requires y in xs + [x]
    ensures FirstIndex(xs + [x], y) == if y in xs then FirstIndex(xs, y) else |xs|
  {
    var i, j := FirstIndex(xs + [x], y), if y in xs then FirstIndex(xs, y) else |xs|;
    assert (xs + [x])[j] == y;
    assert (xs + [x])[..i] == if i <= |xs| then xs[..i] else xs + [x];
  }

  ghost predicate InFirstOrder(ys: seq<string>, r: seq<string>)
    requires forall x | x in r :: x in ys
  {
    forall i, j | 0 <= i < j < |r| :: FirstIndex(ys, r[i]) < FirstIndex(ys, r[j])
  }

  lemma FirstOrderGrows(ys: seq<string>, x: string, r: seq<string>)
    requires forall y | y in r :: y in ys
    requires forall y | y in ys :: y in r
    requires InFirstOrder(ys, r)
    ensures forall y | y in AddOnce(r, x) :: y in ys + [x]
    ensures InFirstOrder(ys + [x], AddOnce(r, x))
  {
    hide FirstIndex;
    forall y | y in ys + [x] ensures FirstIndex(ys + [x], y) == if y in ys then FirstIndex(ys, y) else |ys| {
      FirstIndexAppend(ys, x, y);
    }
  }

  /** One context keeps each message once, in the order of the first reports. */
  lemma {:induction false} FirstReportsInOrder(ys: seq<string>)
    ensures forall x :: x in Extend([], ys) <==> x in ys
    ensures InFirstOrder(ys, Extend([], ys)) && Distinct(Extend([], ys))
  {
    hide FirstIndex, InFirstOrder;
    if ys == [] {
      NothingInOrder();
    } else {
      var before, x := ys[..|ys| - 1], ys[|ys| - 1];
      assert ys == before + [x];
      FirstReportsInOrder(before);
      FirstOrderGrows(before, x, Extend([], before));
    }
  }

  lemma NothingInOrder()
    ensures InFirstOrder([], [])
  {
  }
}
