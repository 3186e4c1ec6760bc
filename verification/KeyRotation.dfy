/** The rotating window of signing keys, and the snapshot of it kept in the cache. */
module KeyRotation {
  import opened TtlCache
  import opened Wrappers

  const KEEP_COUNT := 2
  const CACHE_KEY := "jwt:keys"

  // Identifiers and key material are opaque: only their identity matters here.
  type KeyId = nat

  datatype KeyPair = KeyPair(private: string, public: string)

  datatype Metadata = Metadata(createdAt: nat, active: bool)

  /** A freshly generated key and its creation stamp. */
  datatype NewKey = NewKey(id: KeyId, pair: KeyPair, createdAt: nat)

  datatype Error = NotInitialized

  /** The manager's dictionaries; `order` is the insertion order of the key pairs. */
  datatype Keys = Keys(
    order: seq<KeyId>, pairs: map<KeyId, KeyPair>, metadata: map<KeyId, Metadata>, current: Option<KeyId>)

  const EMPTY := Keys([], map[], map[], None)

  function WithNewKey(k: Keys, key: NewKey): Keys {
    Keys(if key.id in k.order then k.order else k.order + [key.id],
         k.pairs[key.id := key.pair],
         k.metadata[key.id := Metadata(key.createdAt, true)],
         Some(key.id))
  }

  /** All keys of `ids` but the new one marked as previous. */
  function Demote(m: map<KeyId, Metadata>, ids: seq<KeyId>, newId: KeyId): map<KeyId, Metadata> {
    if ids == [] then m
    else
      var before, x := Demote(m, ids[..|ids| - 1], newId), ids[|ids| - 1];
      if x == newId || x !in before then before else before[x := before[x].(active := false)]
  }

  function Demoted(k: Keys, newId: KeyId): Keys {
    k.(metadata := Demote(k.metadata, k.order, newId))
  }

  // ---- The stable sort, newest first ----

  // A key without metadata sorts before every stamp.
  function Stamp(m: map<KeyId, Metadata>, x: KeyId): int {
    if x in m then m[x].createdAt else -1
  }

  /** The place of x in a descending list: after every key at least as new. */
  function Insert(sorted: seq<KeyId>, x: KeyId, m: map<KeyId, Metadata>): seq<KeyId> {
    if sorted == [] || Stamp(m, x) > Stamp(m, sorted[0]) then [x] + sorted
    else [sorted[0]] + Insert(sorted[1..], x, m)
  }

  function NewestFirst(keys: seq<KeyId>, m: map<KeyId, Metadata>): seq<KeyId> {
    if keys == [] then [] else Insert(NewestFirst(keys[..|keys| - 1], m), keys[|keys| - 1], m)
  }

  // ---- Deletion ----

  function Except(keys: seq<KeyId>, x: KeyId): seq<KeyId> {
    if keys == [] then []
    else (if keys[0] == x then [] else [keys[0]]) + Except(keys[1..], x)
  }

  function Without(k: Keys, x: KeyId): Keys {
    if k.current == Some(x) then k else Keys(Except(k.order, x), k.pairs - {x}, k.metadata - {x}, k.current)
  }

  /** The victims deleted one after the other, sparing the current key. */
  function RemoveAll(k: Keys, victims: seq<KeyId>): Keys {
    if victims == [] then k else Without(RemoveAll(k, victims[..|victims| - 1]), victims[|victims| - 1])
  }

  function Victims(k: Keys): seq<KeyId> {
    var sorted := NewestFirst(k.order, k.metadata);
    if |sorted| <= KEEP_COUNT then [] else sorted[KEEP_COUNT..]
  }

  function Cleaned(k: Keys): Keys {
    RemoveAll(k, Victims(k))
  }

  function Made(k: Keys, key: NewKey): Keys {
    Demoted(WithNewKey(k, key), key.id)
  }

  function Rotated(k: Keys, key: NewKey): Keys {
    Cleaned(Made(k, key))
  }

  /** What the cache holds after a rotation: the snapshot taken on generating the key is replaced
      only if a cleanup followed. */
  function Saved(k: Keys, key: NewKey): Keys {
    if |Made(k, key).order| <= KEEP_COUNT then WithNewKey(k, key) else Rotated(k, key)
  }

  // ---- The manager, its cache, and what happens to them ----

  /** What a process holds in memory, and the cache that outlives it. */
  datatype World = World(memory: Keys, initialized: bool, store: Store<Keys>)

  /** Create is a new process with a new manager; Lose is the store dropping the snapshot before its time. */
  datatype Event = Create | Initialize(key: NewKey, now: real) | Rotate(key: NewKey, now: real) | Lose

  function Happen(interval: nat, w: World, e: Event): World {
    match e
    case Create => World(EMPTY, false, w.store)
    case Initialize(key, now) =>
      if w.initialized then w
      else
        var cached := Lookup(w.store, CACHE_KEY, now);
        var loaded := if cached.Some? then cached.value else w.memory;
        if loaded.current.Some? then World(loaded, true, w.store)
        else
          var started := WithNewKey(loaded, key);
          World(started, true, Put(w.store, CACHE_KEY, started, interval * 2, now))
    case Rotate(key, now) =>
      if !w.initialized then w
      else World(Rotated(w.memory, key), true, Put(w.store, CACHE_KEY, Saved(w.memory, key), interval * 2, now))
    case Lose => w.(store := Remove(w.store, {CACHE_KEY}))
  }

  /** The public key for an identifier; without one, that of the current key. */
  function PublicKey(k: Keys, id: Option<KeyId>): Option<string> {
    var target := if id.Some? then id else k.current;
    if target.Some? && target.value in k.pairs then Some(k.pairs[target.value].public) else None
  }

  ghost predicate Distinct(keys: seq<KeyId>) {
    forall i, j | 0 <= i < j < |keys| :: keys[i] != keys[j]
  }

  /** Both dictionaries hold the same keys, each once. */
  ghost predicate SameDomain(k: Keys) {
    && Distinct(k.order)
    && (forall x :: x in k.order <==> x in k.pairs)
    && (forall x :: x in k.pairs <==> x in k.metadata)
  }

  class KeyRotationManager {
    const cache: AsyncCache<Keys>
    const rotationInterval: nat
    var currentKeyId: Option<KeyId>
    var order: seq<KeyId>
    var keyPairs: map<KeyId, KeyPair>
    var keyMetadata: map<KeyId, Metadata>
    var initialized: bool

    function Contents(): Keys
      reads this
    {
      Keys(order, keyPairs, keyMetadata, currentKeyId)
    }

    function View(): World
      reads this, cache
    {
      World(Contents(), initialized, cache.store)
    }

    constructor (cache: AsyncCache<Keys>, rotationInterval: nat)
      ensures this.cache == cache && this.rotationInterval == rotationInterval
      ensures Contents() == EMPTY && !initialized
    {
      this.cache, this.rotationInterval := cache, rotationInterval;
      currentKeyId, order, keyPairs, keyMetadata, initialized := None, [], map[], map[], false;
    }

    /** Loads the cached snapshot if there is one; without a current key generates the first. */
    method Initialize(firstKey: NewKey, now: real)
      modifies this, cache
      ensures View() == Happen(rotationInterval, old(View()), Event.Initialize(firstKey, now))
    {
      if initialized {
        return;
      }
      var cached := cache.Get(CACHE_KEY, now);
      if cached.Some? {
        order, keyPairs, keyMetadata := cached.value.order, cached.value.pairs, cached.value.metadata;
        currentKeyId := cached.value.current;
      }
      if currentKeyId.None? {
        var _ := GenerateNewKeyPair(firstKey, now);
      }
      initialized := true;
    }

    method SaveKeysToCache(now: real)
      modifies cache
      ensures cache.store == Put(old(cache.store), CACHE_KEY, Contents(), rotationInterval * 2, now)
    {
      var _ := cache.Set(CACHE_KEY, Contents(), rotationInterval * 2, now);
    }

    method GenerateNewKeyPair(key: NewKey, now: real) returns (id: KeyId)
      modifies this`order, this`keyPairs, this`keyMetadata, this`currentKeyId, cache
      ensures id == key.id && Contents() == WithNewKey(old(Contents()), key)
      ensures cache.store == Put(old(cache.store), CACHE_KEY, Contents(), rotationInterval * 2, now)
    {
      id := key.id;
      if id !in order {
        order := order + [id];
      }
      keyPairs := keyPairs[id := key.pair];
      keyMetadata := keyMetadata[id := Metadata(key.createdAt, true)];
      currentKeyId := Some(id);
      SaveKeysToCache(now);
    }

    /** Before initialization this raises; afterwards the stored keys move on by one rotation. */
    method RotateKeys(key: NewKey, now: real) returns (r: Result<KeyId, Error>)
      requires SameDomain(Contents())
      modifies this`order, this`keyPairs, this`keyMetadata, this`currentKeyId, cache
      ensures r == if initialized then Success(key.id) else Failure(NotInitialized)
      ensures View() == Happen(rotationInterval, old(View()), Rotate(key, now))
    {
      hide Distinct, Cleaned, Demote;
      if !initialized {
        return Failure(NotInitialized);
      }
      var id := GenerateNewKeyPair(key, now);
      DemotePreviousKeys(id);
      CleanupOldKeys(now);
      r := Success(id);
    }

    method DemotePreviousKeys(newId: KeyId)
      requires forall x | x in order :: x in keyMetadata
      modifies this`keyMetadata
      ensures Contents() == Demoted(old(Contents()), newId)
    {
      ghost var before := keyMetadata;
      for i := 0 to |order|
        invariant keyMetadata.Keys == before.Keys
        invariant keyMetadata == Demote(before, order[..i], newId)
      {
        assert order[..i + 1][..i] == order[..i];
        if order[i] != newId {
          keyMetadata := keyMetadata[order[i] := keyMetadata[order[i]].(active := false)];
        }
      }
      assert order[..|order|] == order;
    }

    method CleanupOldKeys(now: real)
      modifies this`order, this`keyPairs, this`keyMetadata, cache
      ensures Contents() == Cleaned(old(Contents()))
      ensures cache.store == if |old(order)| <= KEEP_COUNT then old(cache.store)
                             else Put(old(cache.store), CACHE_KEY, Contents(), rotationInterval * 2, now)
    {
      SortLength(order, keyMetadata);
      if |order| <= KEEP_COUNT {
        return;
      }
      ghost var before := Contents();
      var sorted := NewestFirst(order, keyMetadata);
      var removable := sorted[KEEP_COUNT..];
      for i := 0 to |removable|
        invariant Contents() == RemoveAll(before, removable[..i])
        invariant currentKeyId == before.current && cache.store == old(cache.store)
      {
        assert removable[..i + 1][..i] == removable[..i];
        if Some(removable[i]) != currentKeyId {
          order := Except(order, removable[i]);
          keyPairs := keyPairs - {removable[i]};
          keyMetadata := keyMetadata - {removable[i]};
        }
      }
      assert removable[..|removable|] == removable;
      SaveKeysToCache(now);
    }

    method GetPublicKey(id: Option<KeyId>) returns (key: Option<string>)
      ensures key == PublicKey(Contents(), id)
    {
      var target := if id.Some? then id else currentKeyId;
      if target.Some? && target.value in keyPairs {
        return Some(keyPairs[target.value].public);
      }
      key := None;
    }
  }

  // ---- Facts about the sort ----

  lemma {:induction false} SortLength(keys: seq<KeyId>, m: map<KeyId, Metadata>)
    ensures |NewestFirst(keys, m)| == |keys|
  {
    if keys != [] {
      SortLength(keys[..|keys| - 1], m);
      InsertSplits(NewestFirst(keys[..|keys| - 1], m), keys[|keys| - 1], m);
    }
  }

  ghost predicate Descending(keys: seq<KeyId>, m: map<KeyId, Metadata>) {
    forall i, j | 0 <= i < j < |keys| :: Stamp(m, keys[i]) >= Stamp(m, keys[j])
  }

  /** How many keys have a stamp of at least t. */
  function AtLeast(keys: seq<KeyId>, t: int, m: map<KeyId, Metadata>): nat {
    if keys == [] then 0
    else AtLeast(keys[..|keys| - 1], t, m) + (if Stamp(m, keys[|keys| - 1]) >= t then 1 else 0)
  }

  function Position(sorted: seq<KeyId>, x: KeyId, m: map<KeyId, Metadata>): (p: nat)
    ensures p <= |sorted|
  {
    if sorted == [] || Stamp(m, x) > Stamp(m, sorted[0]) then 0 else 1 + Position(sorted[1..], x, m)
  }

  lemma {:induction false} InsertSplits(sorted: seq<KeyId>, x: KeyId, m: map<KeyId, Metadata>)
    ensures var p := Position(sorted, x, m); Insert(sorted, x, m) == sorted[..p] + [x] + sorted[p..]
  {
    if sorted != [] && Stamp(m, x) <= Stamp(m, sorted[0]) {
      InsertSplits(sorted[1..], x, m);
      var p := Position(sorted[1..], x, m);
      assert sorted[..p + 1] == [sorted[0]] + sorted[1..][..p];
      assert sorted[p + 1..] == sorted[1..][p..];
    }
  }

  lemma {:induction false} PositionSeparates(sorted: seq<KeyId>, x: KeyId, m: map<KeyId, Metadata>, i: nat)
    requires Descending(sorted, m) && i < |sorted|
    ensures Stamp(m, sorted[i]) >= Stamp(m, x) <==> i < Position(sorted, x, m)
  {
    if Stamp(m, x) <= Stamp(m, sorted[0]) && i > 0 {
      PositionSeparates(sorted[1..], x, m, i - 1);
    }
  }

  lemma InsertDescends(sorted: seq<KeyId>, x: KeyId, m: map<KeyId, Metadata>)
    requires Descending(sorted, m)
    ensures Descending(Insert(sorted, x, m), m)
  {
    hide Insert, Stamp, Position;
    var p, r := Position(sorted, x, m), Insert(sorted, x, m);
    InsertSplits(sorted, x, m);
    forall i | 0 <= i < |sorted| ensures Stamp(m, sorted[i]) >= Stamp(m, x) <==> i < p {
      PositionSeparates(sorted, x, m, i);
    }
    forall i, j | 0 <= i < j < |r| ensures Stamp(m, r[i]) >= Stamp(m, r[j]) {
      var a := if i < p then i else i - 1;
      var b := if j < p then j else j - 1;
      assert i != p ==> r[i] == sorted[a];
      assert j != p ==> r[j] == sorted[b];
    }
  }

  lemma {:induction false} SortDescends(keys: seq<KeyId>, m: map<KeyId, Metadata>)
    ensures Descending(NewestFirst(keys, m), m)
  {
    hide Insert, Stamp;
    if keys != [] {
      SortDescends(keys[..|keys| - 1], m);
      InsertDescends(NewestFirst(keys[..|keys| - 1], m), keys[|keys| - 1], m);
    }
  }

  lemma {:induction false} SortMembers(keys: seq<KeyId>, m: map<KeyId, Metadata>)
    ensures forall y :: y in NewestFirst(keys, m) <==> y in keys
  {
    if keys != [] {
      var front, x := keys[..|keys| - 1], keys[|keys| - 1];
      SortMembers(front, m);
      InsertSplits(NewestFirst(front, m), x, m);
      MiddleMembers(NewestFirst(front, m), Position(NewestFirst(front, m), x, m), x);
      assert keys == front + [x];
      hide Insert, NewestFirst;
    }
  }

  lemma MiddleMembers(s: seq<KeyId>, p: nat, x: KeyId)
    requires p <= |s|
    ensures forall y :: y in s[..p] + [x] + s[p..] <==> y in s || y == x
    ensures Distinct(s) && x !in s ==> Distinct(s[..p] + [x] + s[p..])
  {
    assert s == s[..p] + s[p..];
  }

  lemma {:induction false} SortKeepsDistinct(keys: seq<KeyId>, m: map<KeyId, Metadata>)
    requires Distinct(keys)
    ensures Distinct(NewestFirst(keys, m))
  {
    if keys != [] {
      var front, x := keys[..|keys| - 1], keys[|keys| - 1];
      var rest := NewestFirst(front, m);
      SortKeepsDistinct(front, m);
      SortMembers(front, m);
      InsertSplits(rest, x, m);
      MiddleMembers(rest, Position(rest, x, m), x);
      hide Insert;
    }
  }

  lemma {:induction false} AtLeastSplits(a: seq<KeyId>, b: seq<KeyId>, t: int, m: map<KeyId, Metadata>)
    ensures AtLeast(a + b, t, m) == AtLeast(a, t, m) + AtLeast(b, t, m)
  {
    if b == [] {
      assert a + b == a;
    } else {
      AtLeastSplits(a, b[..|b| - 1], t, m);
      assert (a + b)[..|a + b| - 1] == a + b[..|b| - 1];
    }
  }

  lemma {:induction false} AtLeastSorted(keys: seq<KeyId>, t: int, m: map<KeyId, Metadata>)
    ensures AtLeast(NewestFirst(keys, m), t, m) == AtLeast(keys, t, m)
  {
    if keys != [] {
      var front, y := keys[..|keys| - 1], keys[|keys| - 1];
      var rest := NewestFirst(front, m);
      AtLeastSorted(front, t, m);
      InsertSplits(rest, y, m);
      var p := Position(rest, y, m);
      assert rest == rest[..p] + rest[p..];
      AtLeastSplits(rest[..p], rest[p..], t, m);
      AtLeastSplits(rest[..p] + [y], rest[p..], t, m);
      AtLeastSplits(rest[..p], [y], t, m);
      assert AtLeast([y], t, m) == AtLeast([], t, m) + if Stamp(m, y) >= t then 1 else 0;
    }
  }

  lemma {:induction false} AtLeastSameStamps(keys: seq<KeyId>, t: int, m: map<KeyId, Metadata>, n: map<KeyId, Metadata>)
    requires forall x | x in keys :: Stamp(m, x) == Stamp(n, x)
    ensures AtLeast(keys, t, m) == AtLeast(keys, t, n)
  {
    if keys != [] {
      AtLeastSameStamps(keys[..|keys| - 1], t, m, n);
    }
  }

  lemma {:induction false} PositionCounts(sorted: seq<KeyId>, x: KeyId, m: map<KeyId, Metadata>)
    requires Descending(sorted, m)
    ensures Position(sorted, x, m) == AtLeast(sorted, Stamp(m, x), m)
  {
    if sorted != [] {
      PositionCounts(sorted[..|sorted| - 1], x, m);
      PositionSeparates(sorted, x, m, |sorted| - 1);
      PositionOfPrefix(sorted, x, m);
    }
  }

  lemma {:induction false} PositionOfPrefix(sorted: seq<KeyId>, x: KeyId, m: map<KeyId, Metadata>)
    requires sorted != []
    ensures var p, q := Position(sorted, x, m), Position(sorted[..|sorted| - 1], x, m);
      if p == |sorted| then q == |sorted| - 1 else q == p
  {
    if |sorted| > 1 && Stamp(m, x) <= Stamp(m, sorted[0]) {
      PositionOfPrefix(sorted[1..], x, m);
      assert sorted[1..][..|sorted| - 2] == sorted[..|sorted| - 1][1..];
    }
  }

  // ---- Facts about deletion ----

  lemma {:induction false} ExceptFacts(keys: seq<KeyId>, x: KeyId)
    requires Distinct(keys)
    ensures forall y :: y in Except(keys, x) <==> y in keys && y != x
    ensures Distinct(Except(keys, x))
    ensures |Except(keys, x)| == |keys| - (if x in keys then 1 else 0)
  {
    if keys != [] {
      assert keys == [keys[0]] + keys[1..];
      var rest := Except(keys[1..], x);
      ExceptFacts(keys[1..], x);
      assert keys[0] !in rest;
      assert Distinct([keys[0]] + rest);
    }
  }

  lemma WithoutKeepsDomain(k: Keys, x: KeyId)
    requires SameDomain(k)
    ensures SameDomain(Without(k, x))
  {
    ExceptFacts(k.order, x);
    hide Except, Distinct;
  }

  /** What survives the deletion of distinct keys. */
  lemma {:induction false} RemoveAllFacts(k: Keys, victims: seq<KeyId>)
    requires SameDomain(k) && Distinct(victims) && forall x | x in victims :: x in k.order
    ensures var r := RemoveAll(k, victims);
      && SameDomain(r) && r.current == k.current
      && (forall x :: x in r.order <==> x in k.order && (x !in victims || Some(x) == k.current))
      && (forall x | x in r.order :: r.pairs[x] == k.pairs[x] && r.metadata[x] == k.metadata[x])
      && |r.order| == |k.order| - |victims| + (if exists x :: x in victims && Some(x) == k.current then 1 else 0)
  {
    if victims != [] {
      var front, x := victims[..|victims| - 1], victims[|victims| - 1];
      assert victims == front + [x];
      RemoveAllFacts(k, front);
      var before := RemoveAll(k, front);
      WithoutKeepsDomain(before, x);
      ExceptFacts(before.order, x);
      hide Except, Distinct;
    }
  }

  // ---- One rotation ----

  lemma {:induction false} DemoteFacts(m: map<KeyId, Metadata>, ids: seq<KeyId>, newId: KeyId)
    ensures var d := Demote(m, ids, newId);
      && d.Keys == m.Keys
      && forall x | x in m :: d[x] == if x in ids && x != newId then m[x].(active := false) else m[x]
  {
    if ids != [] {
      assert ids == ids[..|ids| - 1] + [ids[|ids| - 1]];
      DemoteFacts(m, ids[..|ids| - 1], newId);
    }
  }

  ghost predicate OnlyCurrentActive(k: Keys) {
    forall x | x in k.metadata :: k.metadata[x].active <==> k.current == Some(x)
  }

  lemma MadeFacts(k: Keys, key: NewKey)
    requires SameDomain(k) && key.id !in k.order
    ensures var made := Made(k, key);
      && SameDomain(made) && OnlyCurrentActive(made)
      && made.order == k.order + [key.id] && made.current == Some(key.id)
      && Stamp(made.metadata, key.id) == key.createdAt
      && forall x | x in k.order :: Stamp(made.metadata, x) == Stamp(k.metadata, x)
  {
    hide Demote;
    var added := WithNewKey(k, key);
    assert SameDomain(added) by {
      assert Distinct(added.order);
    }
    DemoteFacts(added.metadata, added.order, key.id);
    hide Distinct;
  }

  /** The sorted list after adding the newest insertion: it stands behind the keys at least as new. */
  lemma SortedWithNewKey(k: Keys, key: NewKey)
    requires SameDomain(k) && key.id !in k.order
    ensures var made := Made(k, key);
      var sorted, p := NewestFirst(made.order, made.metadata), AtLeast(k.order, key.createdAt, k.metadata);
      p < |sorted| && sorted[p] == key.id
  {
    hide Distinct, Demote, Insert, SameDomain;
    var made := Made(k, key);
    MadeFacts(k, key);
    assert made.order[..|k.order|] == k.order;
    var m := made.metadata;
    var others := NewestFirst(k.order, m);
    SortDescends(k.order, m);
    InsertSplits(others, key.id, m);
    PositionCounts(others, key.id, m);
    AtLeastSorted(k.order, key.createdAt, m);
    AtLeastSameStamps(k.order, key.createdAt, k.metadata, m);
  }

  /** The victims of a cleanup: distinct keys, none newer than a key that is spared. */
  lemma VictimsFacts(k: Keys)
    requires SameDomain(k)
    ensures var v := Victims(k);
      && Distinct(v) && (forall x | x in v :: x in k.order)
      && |v| == (if |k.order| < 2 then 0 else |k.order| - 2)
      && (forall x, y | x in k.order && x !in v && y in v :: Stamp(k.metadata, x) >= Stamp(k.metadata, y))
      && |NewestFirst(k.order, k.metadata)| == |k.order|
      && (forall i | 0 <= i < |k.order| :: NewestFirst(k.order, k.metadata)[i] in v <==> i >= 2)
  {
    hide Insert;
    var sorted, v := NewestFirst(k.order, k.metadata), Victims(k);
    SortLength(k.order, k.metadata);
    SortMembers(k.order, k.metadata);
    SortKeepsDistinct(k.order, k.metadata);
    SortDescends(k.order, k.metadata);
    hide NewestFirst, Stamp;
    var head := |sorted| - |v|;
    assert sorted == sorted[..head] + v;
    forall i | 0 <= i < |sorted| ensures sorted[i] in v <==> i >= 2 {
      if i >= 2 {
        assert sorted[i] == v[i - 2];
      }
    }
    forall x, y | x in k.order && x !in v && y in v ensures Stamp(k.metadata, x) >= Stamp(k.metadata, y) {
      var i :| 0 <= i < |sorted| && sorted[i] == x;
      var j :| 0 <= j < |v| && v[j] == y;
      assert sorted[j + 2] == y;
    }
  }

  /** For any creation stamps a rotation with a fresh identifier keeps the new key, as the only active one,
      and the newest of the others; one key too many exactly when two others are not older than it. */
  lemma RotationKeeps(k: Keys, key: NewKey)
    requires SameDomain(k) && key.id !in k.order
    ensures var r, made := Rotated(k, key), Made(k, key);
      && SameDomain(r) && OnlyCurrentActive(r)
      && r.current == Some(key.id) && key.id in r.order
      && (forall x | x in r.order :: x in made.order && x in r.pairs && x in made.pairs && r.pairs[x] == made.pairs[x])
      && |r.order| == (if |k.order| < 2 then |k.order| + 1
                       else if AtLeast(k.order, key.createdAt, k.metadata) >= 2 then 3 else 2)
      && (forall x, y | x in r.order && x != key.id && y in k.order && y !in r.order ::
            Stamp(k.metadata, x) >= Stamp(k.metadata, y))
  {
    hide Demote, NewestFirst, RemoveAll, Distinct, Stamp, AtLeast, Made, Victims, OnlyCurrentActive;
    var made := Made(k, key);
    MadeFacts(k, key);
    SortedWithNewKey(k, key);
    VictimsFacts(made);
    var victims := Victims(made);
    RemoveAllFacts(made, victims);
    assert key.id in victims <==> AtLeast(k.order, key.createdAt, k.metadata) >= 2;
    assert (exists x :: x in victims && Some(x) == made.current) <==> key.id in victims;
    KeepsOnlyCurrentActive(made, Rotated(k, key));
  }

  lemma KeepsOnlyCurrentActive(k: Keys, r: Keys)
    requires OnlyCurrentActive(k) && SameDomain(r) && r.current == k.current
    requires forall x | x in r.order :: x in r.metadata && x in k.metadata && r.metadata[x] == k.metadata[x]
    ensures OnlyCurrentActive(r)
  {
    hide Distinct;
  }

  // ---- Any number of rotations ----

  /** The keys after initializing on an empty cache and rotating once per further new key. */
  function RunKeys(ks: seq<NewKey>): Keys {
    if ks == [] then EMPTY
    else if |ks| == 1 then WithNewKey(EMPTY, ks[0])
    else Rotated(RunKeys(ks[..|ks| - 1]), ks[|ks| - 1])
  }

  /** The snapshot in the cache at the same time. */
  function RunSaved(ks: seq<NewKey>): Keys
    requires ks != []
  {
    if |ks| == 1 then WithNewKey(EMPTY, ks[0]) else Saved(RunKeys(ks[..|ks| - 1]), ks[|ks| - 1])
  }

  ghost predicate FreshIds(ks: seq<NewKey>) {
    forall i, j | 0 <= i < j < |ks| :: ks[i].id != ks[j].id
  }

  ghost predicate IncreasingStamps(ks: seq<NewKey>) {
    forall i, j | 0 <= i < j < |ks| :: ks[i].createdAt < ks[j].createdAt
  }

  /** x was generated in the run, with this material. */
  ghost predicate GeneratedAs(ks: seq<NewKey>, x: KeyId, pair: KeyPair) {
    exists i :: 0 <= i < |ks| && ks[i].id == x && ks[i].pair == pair
  }

  ghost predicate AllGenerated(ks: seq<NewKey>, k: Keys) {
    forall x | x in k.order :: x in k.pairs && GeneratedAs(ks, x, k.pairs[x])
  }

  ghost predicate Window(k: Keys, key: NewKey, generations: nat) {
    && SameDomain(k) && OnlyCurrentActive(k)
    && k.current == Some(key.id) && key.id in k.order
    && if generations == 1 then |k.order| == 1 else 2 <= |k.order| <= 3
  }

  /** Whatever the clock stamps, even tied or running backwards: from the second generation on two or three keys
      are stored, all of them generated ones with their own material, the newest current and alone active. */
  lemma {:induction false} AnyStamps(ks: seq<NewKey>)
    requires ks != [] && FreshIds(ks)
    ensures Window(RunKeys(ks), ks[|ks| - 1], |ks|) && AllGenerated(ks, RunKeys(ks))
  {
    hide SameDomain, OnlyCurrentActive, Rotated, Made, RunKeys, AtLeast, Stamp;
    if |ks| == 1 {
      FirstKey(ks);
    } else {
      var front, key := ks[..|ks| - 1], ks[|ks| - 1];
      AnyStamps(front);
      var before := RunKeys(front);
      NotYetGenerated(ks, before);
      RunStep(ks);
      RotationKeeps(before, key);
      MadePairs(before, key);
      forall x | x in RunKeys(ks).order ensures GeneratedAs(ks, x, RunKeys(ks).pairs[x]) {
        if x == key.id {
          assert ks[|ks| - 1].id == x && ks[|ks| - 1].pair == RunKeys(ks).pairs[x];
        } else {
          assert x in before.order && GeneratedAs(front, x, before.pairs[x]);
          GeneratedEarlier(ks, x, before.pairs[x]);
        }
      }
    }
  }

  lemma NotYetGenerated(ks: seq<NewKey>, k: Keys)
    requires ks != [] && FreshIds(ks) && AllGenerated(ks[..|ks| - 1], k)
    ensures ks[|ks| - 1].id !in k.order
  {
    forall x | x in k.order ensures x != ks[|ks| - 1].id {
      assert GeneratedAs(ks[..|ks| - 1], x, k.pairs[x]);
    }
  }

  lemma GeneratedEarlier(ks: seq<NewKey>, x: KeyId, pair: KeyPair)
    requires ks != [] && GeneratedAs(ks[..|ks| - 1], x, pair)
    ensures GeneratedAs(ks, x, pair)
  {
    var i :| 0 <= i < |ks| - 1 && ks[..|ks| - 1][i].id == x && ks[..|ks| - 1][i].pair == pair;
    assert ks[i].id == x && ks[i].pair == pair;
  }

  lemma RunStep(ks: seq<NewKey>)
    requires |ks| > 1
    ensures RunKeys(ks) == Rotated(RunKeys(ks[..|ks| - 1]), ks[|ks| - 1])
  {
  }

  lemma MadePairs(k: Keys, key: NewKey)
    requires key.id !in k.order
    ensures var made := Made(k, key);
      made.order == k.order + [key.id] && made.pairs == k.pairs[key.id := key.pair]
  {
  }

  lemma ExceptAbsent(keys: seq<KeyId>, x: KeyId)
    requires x !in keys
    ensures Except(keys, x) == keys
  {
    if keys != [] {
      ExceptAbsent(keys[1..], x);
    }
  }

  lemma RotateOne(k: Keys, key: NewKey)
    requires SameDomain(k) && key.id !in k.order && |k.order| == 1
    ensures Rotated(k, key) == Made(k, key)
  {
    hide Made;
    MadeFacts(k, key);
    VictimsFacts(Made(k, key));
    assert Victims(Made(k, key)) == [];
  }

  /** A newest key pushes out the older of two. */
  lemma RotateTwo(k: Keys, key: NewKey)
    requires SameDomain(k) && key.id !in k.order && |k.order| == 2
    requires Stamp(k.metadata, k.order[0]) < Stamp(k.metadata, k.order[1]) < key.createdAt
    ensures var made, a, b := Made(k, key), k.order[0], k.order[1];
      a != b && Rotated(k, key) == Keys([b, key.id], made.pairs - {a}, made.metadata - {a}, Some(key.id))
  {
    hide Made, NewestFirst, Victims, SameDomain, OnlyCurrentActive, Stamp;
    var made := Made(k, key);
    MadeFacts(k, key);
    VictimsFacts(made);
    var v, a, b := Victims(made), k.order[0], k.order[1];
    TwoDistinct(k);
    assert made.order == [a, b, key.id];
    assert v[0] in v && a in k.order && b in k.order;
    assert v[0] == a by {
      assert a in made.order && b in made.order;
    }
    assert v == [a];
    RemoveOne(made, a);
    ExceptAbsent([b, key.id], a);
    assert made.order[1..] == [b, key.id];
  }

  lemma TwoDistinct(k: Keys)
    requires SameDomain(k) && |k.order| == 2
    ensures k.order[0] != k.order[1]
  {
  }

  lemma RemoveOne(k: Keys, x: KeyId)
    ensures RemoveAll(k, [x]) == Without(k, x)
  {
    assert RemoveAll(k, [x][..0]) == k;
  }

  /** The key is stored with its material and stamp. */
  ghost predicate Holds(k: Keys, key: NewKey) {
    key.id in k.pairs && k.pairs[key.id] == key.pair && Stamp(k.metadata, key.id) == key.createdAt
  }

  lemma MadeHolds(k: Keys, earlier: NewKey, key: NewKey)
    requires Holds(k, earlier) && earlier.id != key.id
    ensures Holds(Made(k, key), earlier) && Holds(Made(k, key), key)
  {
    DemoteFacts(WithNewKey(k, key).metadata, WithNewKey(k, key).order, key.id);
    hide Demote;
  }

  /** A rotation by a newest key keeps it and the newest before it. */
  lemma RotateNewest(k: Keys, previous: NewKey, key: NewKey)
    requires SameDomain(k) && key.id !in k.order && 1 <= |k.order| <= 2 && Holds(k, previous)
    requires k.order[|k.order| - 1] == previous.id && previous.createdAt < key.createdAt
    requires |k.order| == 2 ==> Stamp(k.metadata, k.order[0]) < previous.createdAt
    ensures Rotated(k, key).order == [previous.id, key.id]
    ensures Holds(Rotated(k, key), previous) && Holds(Rotated(k, key), key)
  {
    hide Rotated, Made;
    assert previous.id in k.order;
    MadeHolds(k, previous, key);
    MadePairs(k, key);
    if |k.order| == 1 {
      RotateOne(k, key);
    } else {
      RotateTwo(k, key);
      assert k.order[0] in k.order;
    }
    hide SameDomain;
  }

  /** Exactly the last two generated keys, or the only one, are stored. */
  ghost predicate LastTwoStored(ks: seq<NewKey>, k: Keys)
    requires ks != []
  {
    var n := |ks|;
    && k.order == (if n == 1 then [ks[0].id] else [ks[n - 2].id, ks[n - 1].id])
    && Holds(k, ks[n - 1]) && (n > 1 ==> Holds(k, ks[n - 2]))
  }

  lemma FirstKey(ks: seq<NewKey>)
    requires |ks| == 1
    ensures LastTwoStored(ks, RunKeys(ks)) && Window(RunKeys(ks), ks[0], 1) && AllGenerated(ks, RunKeys(ks))
  {
    hide RunKeys, AllGenerated, Window;
    FirstRun(ks);
    LoneKey(ks[0]);
    LoneIsGenerated(ks);
  }

  lemma LoneKey(key: NewKey)
    ensures Window(WithNewKey(EMPTY, key), key, 1)
  {
  }

  lemma LoneIsGenerated(ks: seq<NewKey>)
    requires |ks| == 1
    ensures AllGenerated(ks, WithNewKey(EMPTY, ks[0]))
  {
    assert ks[0].id == ks[0].id && ks[0].pair == ks[0].pair;
    assert GeneratedAs(ks, ks[0].id, ks[0].pair);
  }

  /** With strictly increasing stamps exactly the last two generated keys are stored. */
  lemma {:induction false} LastTwo(ks: seq<NewKey>)
    requires ks != [] && FreshIds(ks) && IncreasingStamps(ks)
    ensures LastTwoStored(ks, RunKeys(ks))
  {
    hide RunKeys, Rotated, SameDomain, OnlyCurrentActive, AllGenerated, Stamp;
    var n := |ks|;
    if n == 1 {
      FirstKey(ks);
    } else {
      var front := ks[..n - 1];
      LastTwo(front);
      AnyStamps(front);
      NotYetGenerated(ks, RunKeys(front));
      RunStep(ks);
      assert front[n - 2] == ks[n - 2] && (n > 2 ==> front[n - 3] == ks[n - 3]);
      RotateNewest(RunKeys(front), ks[n - 2], ks[n - 1]);
    }
  }

  /** The lookup by identifier gives the i-th generated key's own public key while the key is one of the last two
      and nothing afterwards; the lookup without an identifier gives the newest. */
  lemma VerifiableWhileAmongLastTwo(ks: seq<NewKey>, i: nat)
    requires FreshIds(ks) && IncreasingStamps(ks) && i < |ks|
    ensures PublicKey(RunKeys(ks), Some(ks[i].id)) == if i >= |ks| - 2 then Some(ks[i].pair.public) else None
    ensures PublicKey(RunKeys(ks), None) == Some(ks[|ks| - 1].pair.public)
  {
    hide RunKeys, Distinct, AllGenerated, OnlyCurrentActive, Stamp;
    LastTwo(ks);
    AnyStamps(ks);
    assert ks[i].id in RunKeys(ks).order <==> ks[i].id in RunKeys(ks).pairs;
  }

  /** The cached pairs and current identifier always equal those in memory. The cached metadata is stale after
      the first rotation, when the replaced key is still marked active there, and after no other. */
  lemma CachedEqualsMemory(ks: seq<NewKey>)
    requires ks != [] && FreshIds(ks)
    ensures var memory, cached := RunKeys(ks), RunSaved(ks);
      && cached.order == memory.order && cached.pairs == memory.pairs && cached.current == memory.current
      && (cached == memory <==> |ks| != 2)
  {
    hide Rotated, RunKeys, Made, AllGenerated, SameDomain, OnlyCurrentActive;
    if |ks| == 1 {
      FirstRun(ks);
    } else {
      var front, key := ks[..|ks| - 1], ks[|ks| - 1];
      var before := RunKeys(front);
      AnyStamps(front);
      NotYetGenerated(ks, before);
      RunStep(ks);
      MadePairs(before, key);
      if |ks| == 2 {
        RotateOne(before, key);
        FirstRotationDemotes(before, key);
      }
    }
  }

  lemma FirstRun(ks: seq<NewKey>)
    requires |ks| == 1
    ensures RunKeys(ks) == WithNewKey(EMPTY, ks[0])
  {
  }

  lemma FirstRotationDemotes(k: Keys, key: NewKey)
    requires |k.order| == 1 && SameDomain(k) && OnlyCurrentActive(k) && k.current == Some(k.order[0])
    requires key.id !in k.order
    ensures var added := WithNewKey(k, key); Made(k, key) == added.(metadata := Made(k, key).metadata) != added
  {
    var x := k.order[0];
    assert x in k.order && k.metadata[x].active;
    DemoteFacts(WithNewKey(k, key).metadata, WithNewKey(k, key).order, key.id);
    assert x in WithNewKey(k, key).order;
  }

  // ---- Restarts ----

  /** Any history, from a manager that has not been created yet and a store without a snapshot. */
  function RunWorld(interval: nat, s: Store<Keys>, events: seq<Event>): World {
    if events == [] then World(EMPTY, false, s)
    else Happen(interval, RunWorld(interval, s, events[..|events| - 1]), events[|events| - 1])
  }

  /** The keys generated since a manager last started from nothing, and whether the memory was loaded from the
      snapshot after the newest of them. */
  datatype History = History(keys: seq<NewKey>, reloaded: bool)

  function Since(interval: nat, s: Store<Keys>, events: seq<Event>): History {
    if events == [] then History([], false)
    else
      var front := events[..|events| - 1];
      var before, w := Since(interval, s, front), RunWorld(interval, s, front);
      match events[|events| - 1]
      case Initialize(key, now) =>
        if w.initialized then before
        else if Lookup(w.store, CACHE_KEY, now).Some? then before.(reloaded := true)
        else History([key], false)
      case Rotate(key, _) => if w.initialized then History(before.keys + [key], false) else before
      case _ => before
  }

  /** When the snapshot was last written, if the store has not lost it. */
  function SavedAt(interval: nat, s: Store<Keys>, events: seq<Event>): Option<real> {
    if events == [] then None
    else
      var front := events[..|events| - 1];
      var before, w := SavedAt(interval, s, front), RunWorld(interval, s, front);
      match events[|events| - 1]
      case Initialize(_, now) =>
        if w.initialized || Lookup(w.store, CACHE_KEY, now).Some? then before else Some(now)
      case Rotate(_, now) => if w.initialized then Some(now) else before
      case Lose => None
      case Create => before
  }

  lemma {:induction false} UninitializedIsEmpty(interval: nat, s: Store<Keys>, events: seq<Event>)
    ensures !RunWorld(interval, s, events).initialized ==> RunWorld(interval, s, events).memory == EMPTY
  {
    hide Rotated, Saved;
    if events != [] {
      UninitializedIsEmpty(interval, s, events[..|events| - 1]);
    }
  }

  lemma SavedHasCurrent(k: Keys, key: NewKey)
    ensures Saved(k, key).current == Some(key.id)
  {
    hide Victims, Demote;
    RemovalKeepsCurrent(Made(k, key), Victims(Made(k, key)));
  }

  lemma {:induction false} RemovalKeepsCurrent(k: Keys, victims: seq<KeyId>)
    ensures RemoveAll(k, victims).current == k.current
  {
    if victims != [] {
      RemovalKeepsCurrent(k, victims[..|victims| - 1]);
    }
  }

  /** The snapshot is found until two rotation intervals after it was last written, or for ever if the interval is
      zero. */
  lemma {:induction false} SnapshotLives(interval: nat, s: Store<Keys>, events: seq<Event>, now: real)
    requires "jwt:keys" !in s
    ensures var w, saved := RunWorld(interval, s, events), SavedAt(interval, s, events);
      && ("jwt:keys" in w.store ==> w.store["jwt:keys"].value.current.Some?)
      && (Lookup(w.store, "jwt:keys", now).Some? <==>
            saved.Some? && (interval == 0 || now <= saved.value + (interval * 2) as real))
  {
    hide Rotated, Saved;
    if events != [] {
      var front, last := events[..|events| - 1], events[|events| - 1];
      SnapshotLives(interval, s, front, now);
      if last.Initialize? {
        UninitializedIsEmpty(interval, s, front);
        SnapshotLives(interval, s, front, last.now);
      } else if last.Rotate? {
        SavedHasCurrent(RunWorld(interval, s, front).memory, last.key);
      }
    }
  }

  /** Demoting marks every listed key but the new one, so it does not matter how these were marked before. */
  lemma MarksDoNotMatter(m: map<KeyId, Metadata>, marked: map<KeyId, Metadata>, ids: seq<KeyId>, newId: KeyId)
    requires marked.Keys == m.Keys
    requires forall x | x in m :: marked[x].createdAt == m[x].createdAt
    requires forall x | x in m :: x in ids && (x == newId ==> marked[x] == m[x])
    ensures Demote(marked, ids, newId) == Demote(m, ids, newId)
  {
    DemoteFacts(m, ids, newId);
    DemoteFacts(marked, ids, newId);
    hide Demote;
    var c, d := Demote(m, ids, newId), Demote(marked, ids, newId);
    assert forall x | x in c :: d[x] == c[x];
  }

  lemma MadeAlike(k: Keys, marked: map<KeyId, Metadata>, key: NewKey)
    requires SameDomain(k) && key.id !in k.order && marked.Keys == k.metadata.Keys
    requires forall x | x in marked :: marked[x].createdAt == k.metadata[x].createdAt
    ensures Made(k.(metadata := marked), key) == Made(k, key)
  {
    hide Demote, Distinct;
    var a, b := WithNewKey(k, key), WithNewKey(k.(metadata := marked), key);
    MarksDoNotMatter(a.metadata, b.metadata, a.order, key.id);
  }

  lemma FirstTwo(ks: seq<NewKey>)
    requires |ks| == 2 && FreshIds(ks)
    ensures RunSaved(ks) == WithNewKey(WithNewKey(EMPTY, ks[0]), ks[1])
    ensures RunKeys(ks) == Made(WithNewKey(EMPTY, ks[0]), ks[1])
  {
    hide Rotated;
    var front := ks[..1];
    FirstRun(front);
    FirstKey(front);
    RunStep(ks);
    RotateOne(RunKeys(front), ks[1]);
  }

  /** Two keys that were both generated as active are still both marked so in the snapshot. */
  lemma StaleSnapshot(ks: seq<NewKey>)
    requires |ks| == 2 && FreshIds(ks)
    ensures !OnlyCurrentActive(RunSaved(ks)) && LastTwoStored(ks, RunSaved(ks))
    ensures var memory, cached := RunKeys(ks), RunSaved(ks);
      && cached == memory.(metadata := cached.metadata) && cached.metadata.Keys == memory.metadata.Keys
      && forall x | x in cached.metadata :: cached.metadata[x].createdAt == memory.metadata[x].createdAt
  {
    FirstTwo(ks);
    assert ks[0].id != ks[1].id;
    var added := WithNewKey(WithNewKey(EMPTY, ks[0]), ks[1]);
    DemoteFacts(added.metadata, added.order, ks[1].id);
    assert ks[0].id in added.metadata && added.metadata[ks[0].id].active;
  }

  /** A rotation goes on from the snapshot as it would have from the memory. */
  lemma RotatesAlike(ks: seq<NewKey>)
    requires |ks| > 1 && FreshIds(ks)
    ensures var front, key := ks[..|ks| - 1], ks[|ks| - 1];
      && Rotated(RunSaved(front), key) == RunKeys(ks) && Rotated(RunKeys(front), key) == RunKeys(ks)
      && Saved(RunSaved(front), key) == RunSaved(ks) && Saved(RunKeys(front), key) == RunSaved(ks)
  {
    hide Made, Cleaned, AllGenerated, OnlyCurrentActive, SameDomain;
    var front, key := ks[..|ks| - 1], ks[|ks| - 1];
    CachedEqualsMemory(front);
    AnyStamps(front);
    NotYetGenerated(ks, RunKeys(front));
    RunStep(ks);
    if |front| == 2 {
      StaleSnapshot(front);
      MadeAlike(RunKeys(front), RunSaved(front).metadata, key);
      MadePairs(RunKeys(front), key);
      AnyWindow(RunKeys(front), front[1]);
    }
  }

  lemma AnyWindow(k: Keys, key: NewKey)
    requires Window(k, key, 2)
    ensures |k.order| >= 2
  {
  }

  /** Memory and snapshot in every history. */
  ghost predicate Consistent(w: World, h: History) {
    && (w.initialized ==> h.keys != [] && w.memory == if h.reloaded then RunSaved(h.keys) else RunKeys(h.keys))
    && (CACHE_KEY in w.store ==> h.keys != [] && w.store[CACHE_KEY].value == RunSaved(h.keys))
  }

  lemma {:induction false} AlwaysConsistent(interval: nat, s: Store<Keys>, events: seq<Event>)
    requires CACHE_KEY !in s && FreshIds(Since(interval, s, events).keys)
    ensures Consistent(RunWorld(interval, s, events), Since(interval, s, events))
  {
    hide Rotated, Saved, FreshIds, RunKeys, RunSaved;
    if events != [] {
      var front, last := events[..|events| - 1], events[|events| - 1];
      var w, h := RunWorld(interval, s, front), Since(interval, s, front);
      UninitializedIsEmpty(interval, s, front);
      if last.Initialize? && !w.initialized {
        SnapshotLives(interval, s, front, last.now);
        if Lookup(w.store, CACHE_KEY, last.now).Some? {
          AlwaysConsistent(interval, s, front);
        } else {
          OneKey(last.key);
        }
      } else if last.Rotate? && w.initialized {
        FreshPrefix(h.keys, last.key);
        AlwaysConsistent(interval, s, front);
        RotatesAlike(h.keys + [last.key]);
        assert (h.keys + [last.key])[..|h.keys|] == h.keys;
      } else {
        AlwaysConsistent(interval, s, front);
      }
    }
  }

  lemma OneKey(key: NewKey)
    ensures RunKeys([key]) == RunSaved([key]) == WithNewKey(EMPTY, key)
  {
  }

  lemma FreshPrefix(ks: seq<NewKey>, key: NewKey)
    requires FreshIds(ks + [key])
    ensures FreshIds(ks)
  {
    var all := ks + [key];
    assert forall i | 0 <= i < |ks| :: all[i] == ks[i];
  }

  /** Whatever restarts, expiries and losses a history has, an initialized manager holds the keys that the rotations
      since the last start from nothing give, with that window, lookups and current key. Only the current key is
      active exactly unless the manager was restarted between the first rotation and the second. */
  lemma RestartsKeepTheWindow(interval: nat, s: Store<Keys>, events: seq<Event>)
    requires CACHE_KEY !in s && FreshIds(Since(interval, s, events).keys)
    requires RunWorld(interval, s, events).initialized
    ensures var memory, h := RunWorld(interval, s, events).memory, Since(interval, s, events);
      && h.keys != []
      && memory.order == RunKeys(h.keys).order && memory.pairs == RunKeys(h.keys).pairs
      && memory.current == RunKeys(h.keys).current == Some(h.keys[|h.keys| - 1].id)
      && (if |h.keys| == 1 then |memory.order| == 1 else 2 <= |memory.order| <= 3)
      && (IncreasingStamps(h.keys) ==> LastTwoStored(h.keys, memory))
      && (memory == RunKeys(h.keys) <==> !(h.reloaded && |h.keys| == 2))
      && (OnlyCurrentActive(memory) <==> !(h.reloaded && |h.keys| == 2))
  {
    hide RunKeys, RunSaved, RunWorld, Since, OnlyCurrentActive, AllGenerated, SameDomain, LastTwoStored;
    var h := Since(interval, s, events);
    AlwaysConsistent(interval, s, events);
    CachedEqualsMemory(h.keys);
    AnyStamps(h.keys);
    if |h.keys| == 2 {
      StaleSnapshot(h.keys);
    }
    if IncreasingStamps(h.keys) {
      LastTwo(h.keys);
    }
  }

  lemma OneMore(interval: nat, s: Store<Keys>, events: seq<Event>, e: Event)
    ensures RunWorld(interval, s, events + [e]) == Happen(interval, RunWorld(interval, s, events), e)
    ensures Since(interval, s, events + [e]) ==
      var h, w := Since(interval, s, events), RunWorld(interval, s, events);
      match e
      case Initialize(key, now) =>
        if w.initialized then h
        else if Lookup(w.store, CACHE_KEY, now).Some? then h.(reloaded := true)
        else History([key], false)
      case Rotate(key, _) => if w.initialized then History(h.keys + [key], false) else h
      case _ => h
  {
    hide Happen;
    assert (events + [e])[..|events|] == events;
  }

  /** It happens: a restart after the first rotation marks the replaced key as active again. */
  lemma RestartRevivesReplacedKey(interval: nat, a: NewKey, b: NewKey, c: NewKey, now: real)
    requires a.id != b.id
    ensures var events := [Initialize(a, now), Rotate(b, now), Create, Initialize(c, now)];
      var memory := RunWorld(interval, map[], events).memory;
      && Since(interval, map[], events) == History([a, b], true)
      && memory.current == Some(b.id) && a.id in memory.metadata && memory.metadata[a.id].active
  {
    hide Rotated, Saved, RunSaved;
    var first, second, third := [Initialize(a, now)], [Initialize(a, now), Rotate(b, now)],
      [Initialize(a, now), Rotate(b, now), Create];
    OneMore(interval, map[], [], Initialize(a, now));
    OneMore(interval, map[], first, Rotate(b, now));
    OneMore(interval, map[], second, Create);
    OneMore(interval, map[], third, Initialize(c, now));
    assert [] + [Initialize(a, now)] == first && first + [Rotate(b, now)] == second && second + [Create] == third;
    assert third + [Initialize(c, now)] == [Initialize(a, now), Rotate(b, now), Create, Initialize(c, now)];
    assert [a] + [b] == [a, b];
    SavedHasCurrent(RunWorld(interval, map[], first).memory, b);
    AlwaysConsistent(interval, map[], third + [Initialize(c, now)]);
    FirstTwo([a, b]);
  }
}
