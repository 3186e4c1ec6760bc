/** The recursive dictionary update used for logging overrides. */
module DeepUpdate {
  import opened Wrappers

  /** A nested dictionary as a value. */
  datatype Value = Leaf(value: int) | Dict(entries: map<string, Value>)

  /** The update merged into the original, key by key. */
  function Merge(o: Value, u: Value): (r: Value)
    requires o.Dict? && u.Dict?
    ensures r.Dict?
    decreases u
  {
    Dict(map k | k in o.entries.Keys + u.entries.Keys :: MergedAt(o, u, k))
  }

  function MergedAt(o: Value, u: Value, k: string): Value
    requires o.Dict? && u.Dict? && (k in o.entries || k in u.entries)
    decreases u, 0
  {
    if k !in u.entries then o.entries[k]
    else if u.entries[k].Dict? && k in o.entries && o.entries[k].Dict? then Merge(o.entries[k], u.entries[k])
    else u.entries[k]
  }

  // ---- What the update does to every path ----

  type Path = seq<string>

  function Get(v: Value, p: Path): Option<Value>
    decreases |p|
  {
    if p == [] then Some(v)
    else if v.Dict? && p[0] in v.entries then Get(v.entries[p[0]], p[1..])
    else None
  }

  /** The update puts a leaf on a proper prefix of the path, so nothing is left below it. */
  predicate CutsOff(u: Value, p: Path)
    decreases |p|
  {
    p != [] && (u.Leaf? || (p[0] in u.entries && CutsOff(u.entries[p[0]], p[1..])))
  }

  lemma {:induction false} CutsOffMeansLeafAbove(u: Value, p: Path)
    ensures CutsOff(u, p) <==> exists i :: 0 <= i < |p| && Get(u, p[..i]).Some? && Get(u, p[..i]).value.Leaf?
    decreases |p|
  {
    if p != [] {
      assert p[..0] == [];
      if u.Dict? && p[0] in u.entries {
        CutsOffMeansLeafAbove(u.entries[p[0]], p[1..]);
        forall i | 0 <= i < |p| - 1 ensures Get(u, p[..i + 1]) == Get(u.entries[p[0]], p[1..][..i]) {
          assert p[..i + 1][1..] == p[1..][..i];
        }
        if CutsOff(u.entries[p[0]], p[1..]) {
          var below, rest := u.entries[p[0]], p[1..];
          var i :| 0 <= i < |rest| && Get(below, rest[..i]).Some? && Get(below, rest[..i]).value.Leaf?;
          assert Get(u, p[..i + 1]).value.Leaf?;
        }
        if exists i :: 0 <= i < |p| && Get(u, p[..i]).Some? && Get(u, p[..i]).value.Leaf? {
          var i :| 0 <= i < |p| && Get(u, p[..i]).Some? && Get(u, p[..i]).value.Leaf?;
          assert i > 0;
          assert Get(u, p[..(i - 1) + 1]) == Get(u.entries[p[0]], p[1..][..i - 1]);
        }
      } else {
        if u.Leaf? {
          assert Get(u, p[..0]).value.Leaf?;
        }
        forall i | 0 < i < |p| ensures Get(u, p[..i]).None? {
        }
      }
    }
  }

  /** The value at any path after the update, from the original's and the update's at that path. */
  function Expected(o: Value, u: Value, p: Path): Option<Value> {
    match Get(u, p)
    case Some(Leaf(x)) => Some(Leaf(x))
    case Some(Dict(_)) =>
      var below := Get(o, p);
      if below.Some? && below.value.Dict? then Some(Merge(below.value, Get(u, p).value)) else Get(u, p)
    case None => if CutsOff(u, p) then None else Get(o, p)
  }

  lemma {:induction false} MergeAtEveryPath(o: Value, u: Value, p: Path)
    requires o.Dict? && u.Dict?
    ensures Get(Merge(o, u), p) == Expected(o, u, p)
    decreases |p|
  {
    if p != [] {
      var k, rest := p[0], p[1..];
      if k in u.entries && u.entries[k].Dict? && k in o.entries && o.entries[k].Dict? {
        MergeAtEveryPath(o.entries[k], u.entries[k], rest);
      } else if k in u.entries {
        BelowNoDict(if k in o.entries then o.entries[k] else Leaf(0), u.entries[k], rest);
      }
    }
  }

  /** Where original and update do not both have dictionaries, the update's value stands alone. */
  lemma BelowNoDict(o: Value, u: Value, p: Path)
    requires o.Leaf? || u.Leaf?
    ensures Get(u, p) == Expected(o, u, p)
    decreases |p|
  {
  }

  /** Applying the same update twice is applying it once. */
  lemma {:induction false} MergeIdempotent(o: Value, u: Value)
    requires o.Dict? && u.Dict?
    ensures Merge(Merge(o, u), u) == Merge(o, u)
    decreases u
  {
    var once := Merge(o, u);
    forall k | k in once.entries ensures MergedAt(once, u, k) == once.entries[k] {
      assert once.entries[k] == MergedAt(o, u, k);
      if k in u.entries && u.entries[k].Dict? {
        if k in o.entries && o.entries[k].Dict? {
          MergeIdempotent(o.entries[k], u.entries[k]);
        } else {
          MergeSelf(u.entries[k]);
        }
      }
    }
    assert Merge(once, u).entries == once.entries;
  }

  lemma {:induction false} MergeSelf(u: Value)
    requires u.Dict?
    ensures Merge(u, u) == u
    decreases u
  {
    forall k | k in u.entries ensures MergedAt(u, u, k) == u.entries[k] {
      if u.entries[k].Dict? {
        MergeSelf(u.entries[k]);
      }
    }
    assert Merge(u, u).entries == u.entries;
  }

  // ---- The update in place ----

  datatype Node = Atom(value: int) | Ref(dict: PyDict)

  /** A Python dictionary object. */
  class PyDict {
    var entries: map<string, Node>
    ghost var repr: set<PyDict>

    /** The dictionaries below this one are part of its footprint, and no two entries share any. */
    ghost predicate Valid()
      reads this, repr
      ensures Valid() ==> this in repr
      decreases repr
    {
      && this in repr
      && (forall k | k in entries && entries[k].Ref? ::
            entries[k].dict in repr && entries[k].dict.repr < repr && this !in entries[k].dict.repr
            && entries[k].dict.Valid())
      && (forall k, l | k in entries && l in entries && k != l && entries[k].Ref? && entries[l].Ref? ::
            entries[k].dict.repr !! entries[l].dict.repr)
    }

    ghost function Contents(): (v: Value)
      requires Valid()
      reads this, repr
      ensures v.Dict?
      decreases repr, 1
    {
      Dict(map k | k in entries :: Item(k))
    }

    /** The value of one entry. */
    ghost function Item(k: string): Value
      requires Valid() && k in entries
      reads this, repr
      decreases repr, 0
    {
      match entries[k]
      case Atom(x) => Leaf(x)
      case Ref(d) => d.Contents()
    }
  }

  /** The update has been applied to the original already. The two may share dictionaries by now, but only in
      the same place: an entry holds the update's own value, or a dictionary to which the update's has been applied. */
  ghost predicate Applied(original: PyDict, update: PyDict)
    requires original.Valid() && update.Valid()
    reads original, original.repr, update, update.repr
    decreases update.repr, 1
  {
    original == update ||
    (update.repr <= original.repr && forall k | k in update.entries :: AppliedAt(original, update, k))
  }

  ghost predicate AppliedAt(original: PyDict, update: PyDict, k: string)
    requires original.Valid() && update.Valid() && k in update.entries
    reads original, original.repr, update, update.repr
    decreases update.repr, 0
  {
    && k in original.entries
    && match update.entries[k]
       case Atom(_) => original.entries[k] == update.entries[k]
       case Ref(d) => original.entries[k].Ref? && Applied(original.entries[k].dict, d)
  }

  lemma AppliedBelow(original: PyDict, update: PyDict, k: string)
    requires original.Valid() && update.Valid() && k in update.entries && Applied(original, update)
    ensures AppliedAt(original, update, k)
  {
  }

  ghost predicate Handled(original: PyDict, update: PyDict, pending: set<string>)
    requires original.Valid() && update.Valid()
    reads original, original.repr, update, update.repr
  {
    forall k | k in update.entries && k !in pending :: AppliedAt(original, update, k)
  }

  /** What the loop keeps: the keys in `pending` have not been handled yet. */
  ghost predicate Partial(original: PyDict, update: PyDict, pending: set<string>, mine: set<PyDict>)
    reads original, update, original.repr, update.repr
  {
    && original.Valid() && update.Valid()
    && mine !! update.repr && original in mine && original.repr == mine + update.repr
    && pending <= update.entries.Keys
    && (forall k | k in pending && k in original.entries && original.entries[k].Ref? ::
          original.entries[k].dict.repr <= mine)
    && (forall k, l | k in pending && l in original.entries && update.entries[k].Ref? && original.entries[l].Ref? ::
          update.entries[k].dict.repr !! original.entries[l].dict.repr)
  }

  /** Before a key is handled: either the loop is under way, or the update has been applied before. */
  ghost predicate Ready(original: PyDict, update: PyDict, pending: set<string>, mine: set<PyDict>, again: bool)
    reads original, update, original.repr, update.repr
  {
    if again then
      original.Valid() && update.Valid() && Applied(original, update) && pending <= update.entries.Keys &&
      mine == original.repr
    else Partial(original, update, pending, mine) && Handled(original, update, pending)
  }

  /** One key whose value is not merged: the value itself, shared with the update, becomes the entry. */
  method Replace(
    original: PyDict, update: PyDict, key: string, ghost pending: set<string>, ghost mine: set<PyDict>,
    ghost again: bool)
    requires Ready(original, update, pending, mine, again) && key in pending
    requires again ==> !(update.entries[key].Ref? && key in original.entries && original.entries[key].Ref?)
    modifies original`entries
    ensures again ==> unchanged(original)
    ensures key in update.entries && original.entries == old(original.entries)[key := update.entries[key]]
    ensures Ready(original, update, pending - {key}, mine, again)
  {
    if again {
      AppliedBelow(original, update, key);
      assert original.entries == original.entries[key := update.entries[key]];
    }
    original.entries := original.entries[key := update.entries[key]];
  }

  /** One key with dictionaries on both sides: the original's is updated in place, nothing else changes. */
  method MergeBelow(
    original: PyDict, update: PyDict, key: string, ghost pending: set<string>, ghost mine: set<PyDict>,
    ghost again: bool)
    requires Ready(original, update, pending, mine, again) && key in pending
    requires update.entries[key].Ref? && key in original.entries && original.entries[key].Ref?
    modifies original.entries[key].dict.repr
    ensures original.entries == old(original.entries)
    ensures Ready(original, update, pending - {key}, mine, again)
    ensures again ==> unchanged(mine)
    ensures !again ==>
      original.entries[key].dict.Contents() ==
      old(Merge(original.entries[key].dict.Contents(), update.entries[key].dict.Contents()))
    ensures !again ==> forall k | k in original.entries && k != key && original.entries[k].Ref? ::
      original.entries[k].dict.Contents() == old(original.entries[k].dict.Contents())
    decreases update.repr, 0
  {
    ghost var child := original.entries[key].dict;
    if again {
      AppliedBelow(original, update, key);
      assert child.repr <= mine;
    } else {
      assert original !in child.repr && child.repr !! update.repr;
      assert forall k | k in original.entries && k != key && original.entries[k].Ref? ::
        original.entries[k].dict in original.entries[k].dict.repr && original.entries[k].dict.repr !! child.repr;
      assert forall k | k in update.entries && update.entries[k].Ref? ::
        update.entries[k].dict in update.entries[k].dict.repr && update.entries[k].dict.repr !! child.repr;
    }
    label before:
    DeepUpdate(original.entries[key].dict, update.entries[key].dict);
    if again {
      assert unchanged@before(mine);
    } else {
      assert unchanged@before(original) && unchanged@before(update);
      forall k | k in original.entries && k != key && original.entries[k].Ref?
        ensures unchanged@before(original.entries[k].dict.repr) && original.entries[k].dict.Valid()
        ensures original.entries[k].dict.repr == old(original.entries[k].dict.repr)
        ensures original.entries[k].dict.Contents() == old(original.entries[k].dict.Contents())
      {
      }
      forall k | k in update.entries && update.entries[k].Ref?
        ensures unchanged@before(update.entries[k].dict) && update.entries[k].dict.Valid()
      {
      }
    }
  }

  /** The entries handled so far hold merged values, the others the original ones. */
  ghost predicate Progress(original: PyDict, update: PyDict, o: Value, u: Value, pending: set<string>)
    requires original.Valid() && update.Valid() && o.Dict? && u.Dict?
    reads original, update, original.repr, update.repr
  {
    && update.Contents() == u && original.entries.Keys == o.entries.Keys + (update.entries.Keys - pending)
    && forall k | k in original.entries ::
         original.Item(k) == if k in pending && k in o.entries then o.entries[k] else MergedAt(o, u, k)
  }

  /** Widening the footprint changes no contents. */
  ghost method Widen(original: PyDict, extra: set<PyDict>)
    requires original.Valid()
    modifies original`repr
    ensures original.Valid() && original.repr == old(original.repr) + extra
    ensures original.Contents() == old(original.Contents())
    ensures forall k | k in original.entries && original.entries[k].Ref? ::
      original.entries[k].dict.repr == old(original.entries[k].dict.repr)
  {
    original.repr := original.repr + extra;
    assert forall k | k in original.entries && original.entries[k].Ref? ::
      old(original.entries[k].dict.Valid()) && original !in original.entries[k].dict.repr;
    forall k | k in original.entries && original.entries[k].Ref?
      ensures original.entries[k].dict.Valid()
      ensures original.entries[k].dict.Contents() == old(original.entries[k].dict.Contents())
    {
    }
    assert original.Contents().entries == old(original.Contents()).entries;
  }

  method HandleMerge(
    original: PyDict, update: PyDict, key: string, ghost pending: set<string>, ghost mine: set<PyDict>,
    ghost o: Value, ghost u: Value, ghost again: bool)
    requires Ready(original, update, pending, mine, again) && key in pending
    requires update.entries[key].Ref? && key in original.entries && original.entries[key].Ref?
    requires o.Dict? && u.Dict? && (!again ==> Progress(original, update, o, u, pending))
    modifies mine
    ensures Ready(original, update, pending - {key}, mine, again)
    ensures !again ==> Progress(original, update, o, u, pending - {key})
    ensures again ==> unchanged(mine)
    decreases update.repr, 1
  {
    if !again {
      assert original.Item(key) == o.entries[key] && update.Item(key) == u.entries[key];
      assert MergedAt(o, u, key) == Merge(original.Item(key), update.Item(key));
    }
    MergeBelow(original, update, key, pending, mine, again);
    if !again {
      assert original.Item(key) == MergedAt(o, u, key);
      assert forall k | k in original.entries && k != key :: original.Item(k) == old(original.Item(k));
    }
  }

  method HandleReplace(
    original: PyDict, update: PyDict, key: string, ghost pending: set<string>, ghost mine: set<PyDict>,
    ghost o: Value, ghost u: Value, ghost again: bool)
    requires Ready(original, update, pending, mine, again) && key in pending
    requires !(update.entries[key].Ref? && key in original.entries && original.entries[key].Ref?)
    requires o.Dict? && u.Dict? && (!again ==> Progress(original, update, o, u, pending))
    modifies original`entries
    ensures Ready(original, update, pending - {key}, mine, again)
    ensures !again ==> Progress(original, update, o, u, pending - {key})
    ensures again ==> unchanged(mine)
  {
    if !again {
      assert update.Item(key) == u.entries[key];
      assert key in original.entries ==> original.Item(key) == o.entries[key];
    }
    Replace(original, update, key, pending, mine, again);
    if !again {
      assert original.Item(key) == MergedAt(o, u, key);
      assert forall k | k in original.entries && k != key :: original.Item(k) == old(original.Item(k));
    }
  }

  lemma {:induction false} AppliedIsMerged(original: PyDict, update: PyDict)
    requires original.Valid() && update.Valid() && Applied(original, update)
    ensures Merge(original.Contents(), update.Contents()) == original.Contents()
    decreases update.repr
  {
    var o, u := original.Contents(), update.Contents();
    if original == update {
      MergeSelf(u);
    } else {
      forall k | k in u.entries ensures k in o.entries && MergedAt(o, u, k) == o.entries[k] {
        AppliedBelow(original, update, k);
        assert o.entries[k] == original.Item(k) && u.entries[k] == update.Item(k);
        if update.entries[k].Ref? {
          AppliedIsMerged(original.entries[k].dict, update.entries[k].dict);
        }
      }
      assert Merge(o, u).entries == o.entries;
    }
  }

  /** The first state of the loop. */
  ghost method Prepare(original: PyDict, update: PyDict, again: bool)
    requires original.Valid() && update.Valid() && (again <==> Applied(original, update))
    requires !again ==> original.repr !! update.repr
    modifies original`repr
    ensures Ready(original, update, update.entries.Keys, old(original.repr), again)
    ensures original.Contents() == old(original.Contents()) && original.repr == old(original.repr + update.repr)
    ensures !again ==> Progress(original, update, old(original.Contents()), old(update.Contents()), update.entries.Keys)
    ensures again ==> unchanged(original)
  {
    if !again {
      Widen(original, update.repr);
    }
  }

  /** What the last state of the loop amounts to. */
  lemma Finished(original: PyDict, update: PyDict, mine: set<PyDict>, o: Value, u: Value)
    requires Ready(original, update, {}, mine, false)
    requires o.Dict? && u.Dict? && Progress(original, update, o, u, {})
    ensures original.Contents() == Merge(o, u) && Applied(original, update)
  {
    assert original.Contents().entries == Merge(o, u).entries;
  }

  /** In place: every dictionary of the original that the update also has as a dictionary is updated, every other
      value of the update replaces the entry and is shared with it. Applying the very same update again, with
      whatever the two share by then, changes no dictionary at all. */
  method DeepUpdate(original: PyDict, update: PyDict)
    requires original.Valid() && update.Valid()
    requires original.repr !! update.repr || Applied(original, update)
    modifies original.repr
    ensures original.Valid() && original.repr == old(original.repr + update.repr)
    ensures original.Contents() == old(Merge(original.Contents(), update.Contents()))
    ensures update.Valid() && Applied(original, update)
    ensures old(Applied(original, update)) ==> unchanged(old(original.repr))
    decreases update.repr, 2
  {
    ghost var again := Applied(original, update);
    ghost var o, u := original.Contents(), update.Contents();
    ghost var mine := original.repr;
    if again {
      AppliedIsMerged(original, update);
    }
    Prepare(original, update, again);
    var pending := update.entries.Keys;
    while pending != {}
      invariant Ready(original, update, pending, mine, again)
      invariant !again ==> Progress(original, update, o, u, pending)
      invariant again ==> unchanged(mine)
      decreases pending
    {
      hide Partial, Progress, Handled, Ready, Applied;
      var key :| key in pending;
      if update.entries[key].Ref? && key in original.entries && original.entries[key].Ref? {
        HandleMerge(original, update, key, pending, mine, o, u, again);
      } else {
        HandleReplace(original, update, key, pending, mine, o, u, again);
      }
      pending := pending - {key};
    }
    if !again {
      Finished(original, update, mine, o, u);
    }
  }
}
