/** The typed layer over the cache, and what its string keys amount to: one independent entry for every
    helper, identifier and version. */
module CacheManager {
  import opened Wrappers
  import opened TtlCache
  import opened CacheKeys

  /** A change made through the typed keys at some time. */
  datatype Change<D> =
    | Write(helper: Helper, version: string, data: D, ttl: nat, at: real)
    | Drop(helper: Helper, version: string, at: real)
    | Clear(ns: Namespace, version: string, at: real)
  {
    predicate WellFormed() {
      if Clear? then Literal(version) && ':' !in version
      else ValidVersion(version) && helper.PlainAction()
    }

    /** Whether the change concerns the entry of helper h at version w. */
    predicate Concerns(h: Helper, w: string) {
      if Clear? then h.Namespace() == ns && (version == "" || version == w)
      else helper == h && version == w
    }
  }

  function Selected(ns: Namespace, version: string): string -> bool {
    k => GlobMatch(Pattern(ns, version), k)
  }

  /** What a change does to the stored strings. */
  function Apply<D>(s: Store<D>, c: Change<D>): Store<D> {
    match c
    case Write(h, version, data, ttl, at) => Put(s, h.Key(version), data, ttl, at)
    case Drop(h, version, _) => Remove(s, {h.Key(version)})
    case Clear(ns, version, at) => Remove(s, LiveKeys(s, Selected(ns, version), at))
  }

  function Replay<D>(changes: seq<Change<D>>): Store<D> {
    if changes == [] then map[]
    else Apply(Replay(changes[..|changes| - 1]), changes[|changes| - 1])
  }

  /** The answer that the history calls for, with no keys in sight: the last change to concern the entry decides. */
  function Expected<D>(changes: seq<Change<D>>, h: Helper, w: string, now: real): Option<D> {
    if changes == [] then None
    else
      var c := changes[|changes| - 1];
      if !c.Concerns(h, w) then Expected(changes[..|changes| - 1], h, w, now)
      else if c.Write? && (c.ttl == 0 || now <= c.at + c.ttl as real) then Some(c.data)
      else None
  }

  /** A change shows at the entries that it concerns and at no other. */
  lemma ChangeIsLocal<D>(s: Store<D>, c: Change<D>, h: Helper, w: string, now: real)
    requires c.WellFormed() && ValidVersion(w) && h.PlainAction() && c.at <= now
    ensures Lookup(Apply(s, c), h.Key(w), now) ==
      if !c.Concerns(h, w) then Lookup(s, h.Key(w), now)
      else if c.Write? && (c.ttl == 0 || now <= c.at + c.ttl as real) then Some(c.data)
      else None
  {
    hide Helper.Key, GlobMatch, Pattern;
    if c.Clear? {
      PatternSelectsExactly(c.ns, c.version, h, w);
    } else {
      HelpersJointlyInjective(c.helper, c.version, h, w);
    }
  }

  /** After any run of writes, deletions and clearings, each entry answers by the last change that concerned it. */
  lemma {:induction false} LastChangeDecides<D>(changes: seq<Change<D>>, h: Helper, w: string, now: real)
    requires forall i | 0 <= i < |changes| :: changes[i].WellFormed() && changes[i].at <= now
    requires ValidVersion(w) && h.PlainAction()
    ensures Lookup(Replay(changes), h.Key(w), now) == Expected(changes, h, w, now)
  {
    hide Helper.Key, Apply;
    if changes != [] {
      var before := changes[..|changes| - 1];
      LastChangeDecides(before, h, w, now);
      ChangeIsLocal(Replay(before), changes[|changes| - 1], h, w, now);
    }
  }

  /** Clearing removes from the store exactly the live helper keys of the namespace and version. */
  lemma ClearRemovesExactly<D>(s: Store<D>, ns: Namespace, version: string, now: real, h: Helper, w: string)
    requires Literal(version) && ':' !in version && ValidVersion(w)
    ensures var after := Apply(s, Clear(ns, version, now)); var key := h.Key(w);
      && (key in after <==> key in s && !(Live(s[key], now) && h.Namespace() == ns && (version == "" || version == w)))
      && (key in after ==> after[key] == s[key])
  {
    hide Helper.Key, GlobMatch, Pattern;
    PatternSelectsExactly(ns, version, h, w);
  }

  class CacheManager<D> {
    const cache: AsyncCache<D>
    const defaultTtl: nat

    constructor (cache: AsyncCache<D>, defaultTtl: nat)
      ensures this.cache == cache && this.defaultTtl == defaultTtl
    {
      this.cache := cache;
      this.defaultTtl := defaultTtl;
    }

    /** A missing or zero time to live becomes the default. */
    function TtlOr(ttl: Option<nat>): nat {
      if ttl.Some? && ttl.value != 0 then ttl.value else defaultTtl
    }

    method GetUser(userId: string, version: string, now: real) returns (data: Option<D>)
      ensures data == Lookup(cache.store, UserProfile(userId).Key(version), now)
    {
      data := cache.Get(UserProfile(userId).Key(version), now);
    }

    method SetUser(userId: string, data: D, ttl: Option<nat>, version: string, now: real) returns (done: bool)
      modifies cache
      ensures done
      ensures cache.store == Apply(old(cache.store), Write(UserProfile(userId), version, data, TtlOr(ttl), now))
      ensures var key := UserProfile(userId).Key(version);
        && key in cache.store && cache.store[key].value == data
        && (ttl in {None, Some(0)} ==>
              cache.store[key].expires == if defaultTtl == 0 then None else Some(now + defaultTtl as real))
        && (ttl !in {None, Some(0)} ==> cache.store[key].expires == Some(now + ttl.value as real))
    {
      done := cache.Set(UserProfile(userId).Key(version), data, TtlOr(ttl), now);
    }

    method DeleteUser(userId: string, version: string, now: real) returns (deleted: bool)
      modifies cache
      ensures deleted == Lookup(old(cache.store), UserProfile(userId).Key(version), now).Some?
      ensures cache.store == Apply(old(cache.store), Drop(UserProfile(userId), version, now))
    {
      deleted := cache.Delete(UserProfile(userId).Key(version), now);
    }

    /** Drops the profile and the sessions. The entry by email address stays, whatever the name suggests. */
    method InvalidateUserCaches(userId: string, version: string, now: real) returns (done: bool)
      modifies cache
      ensures done
      ensures cache.store == Apply(Apply(old(cache.store), Drop(UserProfile(userId), version, now)),
                                   Drop(UserSessions(userId), version, now))
    {
      var _ := DeleteUser(userId, version, now);
      var _ := cache.Delete(UserSessions(userId).Key(version), now);
      done := true;
    }

    /** Exactly the users that single reads would find, each with the value a single read gives. */
    method GetManyUsers(userIds: seq<string>, version: string, now: real) returns (users: map<string, D>)
      ensures forall id :: id in users <==>
        id in userIds && Lookup(cache.store, UserProfile(id).Key(version), now).Some?
      ensures forall id :: id in users ==>
        Some(users[id]) == Lookup(cache.store, UserProfile(id).Key(version), now)
    {
      hide Helper.Key;
      var keys := seq(|userIds|, i requires 0 <= i < |userIds| => UserProfile(userIds[i]).Key(version));
      var results := cache.GetMany(keys, now);
      users := map[];
      for i := 0 to |userIds|
        invariant forall id :: id in users <==>
          id in userIds[..i] && Lookup(cache.store, UserProfile(id).Key(version), now).Some?
        invariant forall id :: id in users ==>
          Some(users[id]) == Lookup(cache.store, UserProfile(id).Key(version), now)
      {
        assert keys[i] in keys;
        assert userIds[..i + 1] == userIds[..i] + [userIds[i]];
        if keys[i] in results {
          users := users[userIds[i] := results[keys[i]]];
        }
      }
    }

    method ClearNamespace(ns: Namespace, version: string, now: real) returns (count: nat)
      modifies cache
      ensures count == |LiveKeys(old(cache.store), Selected(ns, version), now)|
      ensures cache.store == Apply(old(cache.store), Clear(ns, version, now))
    {
      count := cache.FlushPattern(Selected(ns, version), now);
    }
  }

  /** Invalidating a user reaches the profile and the sessions of that version and nothing else; in
      particular the entry stored under the user's email address goes on being served. */
  lemma InvalidationReaches<D>(s: Store<D>, id: string, version: string, at: real, h: Helper, w: string, now: real)
    requires ValidVersion(version) && ValidVersion(w) && h.PlainAction() && at <= now
    ensures var after := Apply(Apply(s, Drop(UserProfile(id), version, at)), Drop(UserSessions(id), version, at));
      Lookup(after, h.Key(w), now) ==
      if w == version && (h == UserProfile(id) || h == UserSessions(id)) then None else Lookup(s, h.Key(w), now)
  {
    hide Helper.Key, Apply;
    ChangeIsLocal(s, Drop(UserProfile(id), version, at), h, w, now);
    ChangeIsLocal(Apply(s, Drop(UserProfile(id), version, at)), Drop(UserSessions(id), version, at), h, w, now);
  }
}
