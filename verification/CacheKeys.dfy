/** The cache key helpers, and the glob patterns that flush whole namespaces. */
module CacheKeys {
  import opened Wrappers

  datatype Namespace = User | Session | RateLimit | Blacklist | Config {
    function Text(): string {
      match this
      case User => "user"
      case Session => "session"
      case RateLimit => "rate_limit"
      case Blacklist => "blacklist"
      case Config => "config"
    }
  }

  /** The parts joined by colons. */
  function Join(parts: seq<string>): string {
    if parts == [] then "" else if |parts| == 1 then parts[0] else parts[0] + ":" + Join(parts[1..])
  }

  function Present(parts: seq<Option<string>>): seq<string> {
    if parts == [] then []
    else (if parts[0].Some? then [parts[0].value] else []) + Present(parts[1..])
  }

  /** Absent parts are skipped; a missing or empty version adds no suffix. */
  function BuildKey(ns: Namespace, parts: seq<Option<string>>, version: Option<string>): string {
    var key := Join([ns.Text()] + Present(parts));
    if version.Some? && version.value != "" then key + ":v" + version.value else key
  }

  /** The typed helpers. */
  datatype Helper =
    | UserProfile(userId: string)
    | UserSessions(userId: string)
    | UserByEmail(email: string)
    | SessionToken(tokenId: string)
    | RateLimitOf(identifier: string, action: string)
    | BlacklistToken(jti: string)
    | ConfigJwtKeys
  {
    function Key(version: string): string {
      match this
      case UserProfile(id) => BuildKey(User, [Some("profile"), Some(id)], Some(version))
      case UserSessions(id) => BuildKey(User, [Some("sessions"), Some(id)], Some(version))
      case UserByEmail(email) => BuildKey(User, [Some("email"), Some(email)], Some(version))
      case SessionToken(id) => BuildKey(Session, [Some("token"), Some(id)], Some(version))
      case RateLimitOf(id, action) => BuildKey(RateLimit, [Some(action), Some(id)], Some(version))
      case BlacklistToken(jti) => BuildKey(Blacklist, [Some("token"), Some(jti)], Some(version))
      case ConfigJwtKeys => BuildKey(Config, [Some("jwt_keys")], Some(version))
    }

    function Namespace(): Namespace {
      match this
      case UserProfile(_) => User
      case UserSessions(_) => User
      case UserByEmail(_) => User
      case SessionToken(_) => Session
      case RateLimitOf(_, _) => RateLimit
      case BlacklistToken(_) => Blacklist
      case ConfigJwtKeys => Config
    }

    /** The word after the namespace. */
    function Kind(): string {
      match this
      case UserProfile(_) => "profile"
      case UserSessions(_) => "sessions"
      case UserByEmail(_) => "email"
      case SessionToken(_) => "token"
      case RateLimitOf(_, action) => action
      case BlacklistToken(_) => "token"
      case ConfigJwtKeys => "jwt_keys"
    }

    /** The identifier; the configuration key has none. */
    function Id(): string {
      match this
      case UserProfile(id) => id
      case UserSessions(id) => id
      case UserByEmail(email) => email
      case SessionToken(id) => id
      case RateLimitOf(id, _) => id
      case BlacklistToken(jti) => jti
      case ConfigJwtKeys => ""
    }

    /** The key between the namespace and the version. */
    function Body(): string {
      if ConfigJwtKeys? then Kind() else Kind() + (":" + Id())
    }

    predicate PlainAction() {
      RateLimitOf? ==> ':' !in action
    }
  }

  predicate ValidVersion(version: string) {
    version != "" && ':' !in version
  }

  lemma Assoc(a: string, b: string, c: string)
    ensures (a + b) + c == a + (b + c)
  {
  }

  /** An empty version adds no suffix. */
  lemma UnversionedShape(h: Helper)
    ensures h.Key("") == h.Namespace().Text() + (":" + h.Body())
  {
    if h.ConfigJwtKeys? {
      assert Present([Some("jwt_keys")]) == ["jwt_keys"];
      assert Join(["config", "jwt_keys"]) == "config" + ":" + Join(["jwt_keys"]);
      assert "config" + ":" + "jwt_keys" == "config" + (":" + "jwt_keys");
    } else {
      Joined(h.Namespace(), h.Kind(), h.Id());
    }
  }

  /** A key is its namespace, its body and its version, set off by colons. */
  lemma KeyShape(h: Helper, version: string)
    requires version != ""
    ensures h.Key(version) == h.Namespace().Text() + (":" + (h.Body() + (":v" + version)))
  {
    var t, tail := h.Namespace().Text(), ":v" + version;
    UnversionedShape(h);
    Assoc(t, ":" + h.Body(), tail);
    Assoc(":", h.Body(), tail);
    VersionIsSuffix(h, version);
  }

  lemma Regroup(t: string, kind: string, id: string, suffix: string)
    ensures t + (":" + ((kind + (":" + id)) + suffix)) == (t + ":" + kind + ":") + id + suffix
  {
    Assoc(t, ":" + (kind + (":" + id)), suffix);
    Assoc(t, ":", kind + (":" + id));
    Assoc(t + ":", kind, ":" + id);
    Assoc((t + ":") + kind, ":", id);
    Assoc(":", kind + (":" + id), suffix);
  }

  /** The text of every helper's key, in full. */
  lemma KeyTexts(h: Helper, version: string)
    ensures var suffix := if version == "" then "" else ":v" + version;
      h.Key(version) ==
      match h
      case UserProfile(id) => "user:profile:" + id + suffix
      case UserSessions(id) => "user:sessions:" + id + suffix
      case UserByEmail(email) => "user:email:" + email + suffix
      case SessionToken(id) => "session:token:" + id + suffix
      case RateLimitOf(id, action) => "rate_limit:" + action + ":" + id + suffix
      case BlacklistToken(jti) => "blacklist:token:" + jti + suffix
      case ConfigJwtKeys => "config:jwt_keys" + suffix
  {
    hide Helper.Key;
    var suffix := if version == "" then "" else ":v" + version;
    SuffixedShape(h, version);
    Regroup(h.Namespace().Text(), h.Kind(), h.Id(), suffix);
    Heads(h);
  }

  lemma SuffixedShape(h: Helper, version: string)
    ensures var suffix := if version == "" then "" else ":v" + version;
      h.Key(version) == h.Namespace().Text() + (":" + (h.Body() + suffix))
  {
    hide Helper.Key;
    if version == "" {
      UnversionedShape(h);
      assert h.Body() + "" == h.Body();
    } else {
      KeyShape(h, version);
    }
  }

  lemma Heads(h: Helper)
    ensures var head := h.Namespace().Text() + ":" + h.Kind() + ":";
      match h
      case UserProfile(_) => head == "user:profile:"
      case UserSessions(_) => head == "user:sessions:"
      case UserByEmail(_) => head == "user:email:"
      case SessionToken(_) => head == "session:token:"
      case RateLimitOf(_, action) => head == "rate_limit:" + action + ":"
      case BlacklistToken(_) => head == "blacklist:token:"
      case ConfigJwtKeys =>
        forall suffix: string :: "config" + (":" + ("jwt_keys" + suffix)) == "config:jwt_keys" + suffix
  {
    match h
    case RateLimitOf(_, action) => assert "rate_limit" + ":" == "rate_limit:";
    case ConfigJwtKeys =>
      forall suffix: string ensures "config" + (":" + ("jwt_keys" + suffix)) == "config:jwt_keys" + suffix {
      }
    case _ =>
  }

  /** An absent part leaves no trace in the key. */
  lemma AbsentPartsAreSkipped(ns: Namespace, a: seq<Option<string>>, b: seq<Option<string>>, version: Option<string>)
    ensures BuildKey(ns, a + [None] + b, version) == BuildKey(ns, a + b, version)
  {
    PresentSkips(a, b);
  }

  lemma {:induction false} PresentSkips(a: seq<Option<string>>, b: seq<Option<string>>)
    ensures Present(a + [None] + b) == Present(a + b)
  {
    if a == [] {
      assert a + [None] + b == [None] + b && a + b == b;
      assert ([None] + b)[1..] == b;
    } else {
      assert (a + [None] + b)[1..] == a[1..] + [None] + b && (a + b)[1..] == a[1..] + b;
      PresentSkips(a[1..], b);
    }
  }

  lemma VersionIsSuffix(h: Helper, version: string)
    requires version != ""
    ensures h.Key(version) == h.Key("") + (":v" + version)
  {
    hide Join, Present, Namespace.Text;
    forall key: string ensures key + ":v" + version == key + (":v" + version) {
      Assoc(key, ":v", version);
    }
  }

  lemma Joined(ns: Namespace, kind: string, id: string)
    ensures Join([ns.Text()] + Present([Some(kind), Some(id)])) == ns.Text() + (":" + (kind + (":" + id)))
  {
    hide Namespace.Text;
    var t := ns.Text();
    TwoPresent(kind, id);
    assert [t] + [kind, id] == [t, kind, id];
    JoinTwo(kind, id);
    assert [t, kind, id][1..] == [kind, id];
    Assoc(t, ":", Join([kind, id]));
  }

  lemma TwoPresent(kind: string, id: string)
    ensures Present([Some(kind), Some(id)]) == [kind, id]
  {
    var parts := [Some(kind), Some(id)];
    assert parts[1..] == [Some(id)] && parts[1..][1..] == [];
    assert Present([Some(id)]) == [id] + Present([]);
    assert Present(parts) == [kind] + Present([Some(id)]);
  }

  lemma JoinTwo(kind: string, id: string)
    ensures Join([kind, id]) == kind + (":" + id)
  {
    assert [kind, id][1..] == [id];
    Assoc(kind, ":", id);
  }

  lemma SplitFirst(a: string, x: string, b: string, y: string)
    requires ':' !in a && ':' !in b && a + (":" + x) == b + (":" + y)
    ensures a == b && x == y
  {
    var s := a + (":" + x);
    assert s[|a|] == ':' && s[|b|] == ':';
    assert forall i | 0 <= i < |a| :: s[i] == a[i];
    assert forall i | 0 <= i < |b| :: s[i] == b[i];
    assert |a| == |b|;
    assert a == s[..|a|] && b == s[..|b|] && x == s[|a| + 1..] && y == s[|b| + 1..];
  }

  lemma SplitLast(x: string, a: string, y: string, b: string)
    requires ':' !in a && ':' !in b && x + (":" + a) == y + (":" + b)
    ensures a == b && x == y
  {
    var s, n := x + (":" + a), |x| + 1 + |a|;
    assert s[n - |a| - 1] == ':' && s[n - |b| - 1] == ':';
    assert forall i | 0 <= i < |a| :: s[n - |a| + i] == a[i];
    assert forall i | 0 <= i < |b| :: s[n - |b| + i] == b[i];
    assert |a| == |b|;
    assert a == s[n - |a|..] && b == s[n - |b|..] && x == s[..n - |a| - 1] && y == s[..n - |b| - 1];
  }

  lemma SplitVersion(x: string, v: string, y: string, w: string)
    requires ':' !in v && ':' !in w && x + (":v" + v) == y + (":v" + w)
    ensures x == y && v == w
  {
    assert ":v" + v == ":" + ("v" + v) && ":v" + w == ":" + ("v" + w);
    SplitLast(x, "v" + v, y, "v" + w);
    assert v == ("v" + v)[1..] && w == ("v" + w)[1..];
  }

  lemma NamespaceTextsDiffer(a: Namespace, b: Namespace)
    ensures ':' !in a.Text() && (a.Text() == b.Text() ==> a == b)
  {
  }

  lemma KindsAreColonFree(h: Helper)
    requires h.PlainAction()
    ensures ':' !in h.Kind()
  {
  }

  lemma PartsDetermine(g: Helper, h: Helper)
    requires g.Namespace() == h.Namespace() && g.Kind() == h.Kind() && g.Id() == h.Id()
    ensures g == h
  {
  }

  /** The key helpers never share a key: not across helpers, not across identifiers, not across versions. */
  lemma HelpersJointlyInjective(g: Helper, v: string, h: Helper, w: string)
    requires ValidVersion(v) && ValidVersion(w) && g.PlainAction() && h.PlainAction()
    ensures g.Key(v) == h.Key(w) <==> g == h && v == w
  {
    hide Helper.Key;
    if g.Key(v) == h.Key(w) {
      ColonFreeAreApart(v, w);
      ApartVersionsInject(g, v, h, w);
    }
  }

  lemma ColonFreeAreApart(v: string, w: string)
    requires ValidVersion(v) && ValidVersion(w)
    ensures Apart(v, w)
  {
    EndingHasColon(v, w);
    EndingHasColon(w, v);
  }

  lemma EndingHasColon(s: string, version: string)
    ensures EndsWith(s, ":v" + version) ==> ':' in s
  {
    if EndsWith(s, ":v" + version) {
      assert s[|s| - |version| - 2] == (":v" + version)[0];
    }
  }

  lemma SameBody(g: Helper, h: Helper)
    requires g.PlainAction() && h.PlainAction() && g.Namespace() == h.Namespace() && g.Body() == h.Body()
    ensures g == h
  {
    hide Helper.Kind, Helper.Id;
    if !g.ConfigJwtKeys? {
      KindsAreColonFree(g);
      KindsAreColonFree(h);
      SplitFirst(g.Kind(), g.Id(), h.Kind(), h.Id());
      PartsDetermine(g, h);
    }
  }

  // ---- Exactly which versions collide ----

  predicate EndsWith(s: string, suffix: string) {
    |suffix| <= |s| && s[|s| - |suffix|..] == suffix
  }

  /** No key of version v can be one of the other version w. */
  predicate Apart(v: string, w: string) {
    v == w || (v != "" && w != "" && !EndsWith(v, ":v" + w) && !EndsWith(w, ":v" + v))
  }

  /** Equal texts whose version suffixes are apart split in the same way. */
  lemma SplitApart(x: string, v: string, y: string, w: string)
    requires Apart(v, w) && v != "" && w != "" && x + (":v" + v) == y + (":v" + w)
    ensures x == y && v == w
  {
    if |v| < |w| {
      SplitLonger(y, w, x, v);
    } else if |w| < |v| {
      SplitLonger(x, v, y, w);
    } else {
      assert v == (x + (":v" + v))[|x| + 2..] && w == (y + (":v" + w))[|x| + 2..];
      assert x == (x + (":v" + v))[..|x|] && y == (y + (":v" + w))[..|x|];
    }
  }

  /** The shorter suffix cannot begin at the letter of the longer one, so it lies within its version. */
  lemma SplitLonger(x: string, v: string, y: string, w: string)
    requires |w| < |v| && x + (":v" + v) == y + (":v" + w)
    ensures EndsWith(v, ":v" + w)
  {
    var s, tail := x + (":v" + v), ":v" + w;
    assert s[|y|..] == tail && s[|x| + 2..] == v && s[|x| + 1] == 'v' && tail[0] == ':';
    assert |y| != |x| + 1;
    assert v[|v| - |tail|..] == s[|y|..];
  }

  lemma ApartVersionsInject(g: Helper, v: string, h: Helper, w: string)
    requires Apart(v, w) && g.PlainAction() && h.PlainAction() && g.Key(v) == h.Key(w)
    ensures g == h && v == w
  {
    hide Helper.Key, Helper.Namespace, Helper.Body, Namespace.Text;
    NamespaceTextsDiffer(g.Namespace(), h.Namespace());
    NamespaceTextsDiffer(h.Namespace(), g.Namespace());
    if v == "" {
      UnversionedShape(g);
      UnversionedShape(h);
      SplitFirst(g.Namespace().Text(), g.Body(), h.Namespace().Text(), h.Body());
    } else {
      KeyShape(g, v);
      KeyShape(h, w);
      SplitFirst(g.Namespace().Text(), g.Body() + (":v" + v), h.Namespace().Text(), h.Body() + (":v" + w));
      SplitApart(g.Body(), v, h.Body(), w);
    }
    SameBody(g, h);
  }

  /** Two versions whose suffixes are not apart let two profiles collide. */
  lemma CollidingVersions(v: string, w: string) returns (g: Helper, h: Helper)
    requires v != w && (v == "" || EndsWith(w, ":v" + v))
    ensures g.Key(v) == h.Key(w) && g.PlainAction() && h.PlainAction()
  {
    if v == "" {
      g, h := UserProfile("" + (":v" + w)), UserProfile("");
      EmptyVersionCollides("", w);
    } else {
      var front := w[..|w| - |v| - 2];
      assert w == front + (":v" + v);
      g, h := UserProfile("" + (":v" + front)), UserProfile("");
      if front == "" {
        LeadingSuffixCollides(v);
      } else {
        VersionColonCollides("", front, v);
      }
    }
  }

  lemma LeadingSuffixCollides(v: string)
    requires v != ""
    ensures UserProfile("" + (":v" + "")).Key(v) == UserProfile("").Key("" + (":v" + v))
  {
    var g, h := UserProfile(":v"), UserProfile("");
    assert "" + (":v" + "") == ":v" && "" + (":v" + v) == ":v" + v;
    hide Helper.Key;
    KeyShape(g, v);
    KeyShape(h, ":v" + v);
    BodyWithSuffix("", ":v");
    assert "" + ":v" == ":v";
    Assoc(h.Body(), ":v", ":v" + v);
  }

  ghost predicate JointlyInjective(v: string, w: string) {
    forall g: Helper, h: Helper :: g.PlainAction() && h.PlainAction() && g.Key(v) == h.Key(w) ==> g == h && v == w
  }

  /** Under versions v and w the helpers are jointly injective exactly when the versions are equal, or both are
      non-empty and neither ends with the suffix of the other. */
  lemma InjectiveExactlyForApartVersions(v: string, w: string)
    ensures JointlyInjective(v, w) <==> Apart(v, w)
  {
    hide Helper.Key, EndsWith;
    if Apart(v, w) {
      forall g: Helper, h: Helper | g.PlainAction() && h.PlainAction() && g.Key(v) == h.Key(w)
        ensures g == h && v == w
      {
        ApartVersionsInject(g, v, h, w);
      }
    } else if v == "" || EndsWith(w, ":v" + v) {
      var g, h := CollidingVersions(v, w);
    } else {
      var g, h := CollidingVersions(w, v);
    }
  }

  /** Each condition is needed: a colon in an action, a colon in a version, or an empty version lets keys collide. */
  lemma ActionColonCollides(i: string, j: string, k: string, version: string)
    requires version != ""
    ensures RateLimitOf(j + (":" + k), i).Key(version) == RateLimitOf(k, i + (":" + j)).Key(version)
  {
    KeyShape(RateLimitOf(j + (":" + k), i), version);
    KeyShape(RateLimitOf(k, i + (":" + j)), version);
    Assoc(i, ":" + j, ":" + k);
    Assoc(":", j, ":" + k);
  }

  lemma VersionColonCollides(i: string, v: string, w: string)
    requires v != "" && w != ""
    ensures UserProfile(i).Key(v + (":v" + w)) == UserProfile(i + (":v" + v)).Key(w)
  {
    var g, h := UserProfile(i), UserProfile(i + (":v" + v));
    hide Helper.Key;
    KeyShape(g, v + (":v" + w));
    KeyShape(h, w);
    BodyWithSuffix(i, ":v" + v);
    Assoc(g.Body(), ":v" + v, ":v" + w);
    Assoc(":v", v, ":v" + w);
  }

  lemma BodyWithSuffix(i: string, suffix: string)
    ensures UserProfile(i + suffix).Body() == UserProfile(i).Body() + suffix
  {
    Assoc("profile", ":" + i, suffix);
    Assoc(":", i, suffix);
  }

  lemma EmptyVersionCollides(i: string, v: string)
    requires v != ""
    ensures UserProfile(i + (":v" + v)).Key("") == UserProfile(i).Key(v)
  {
    KeyShape(UserProfile(i), v);
    BodyWithSuffix(i, ":v" + v);
    Joined(User, "profile", i + (":v" + v));
  }

  // ---- Patterns ----

  /** Redis glob matching for patterns without character classes. */
  predicate GlobMatch(pattern: string, s: string)
    decreases |pattern| + |s|
  {
    if pattern == "" then s == ""
    else if pattern[0] == '*' then GlobMatch(pattern[1..], s) || (s != "" && GlobMatch(pattern, s[1..]))
    else if pattern[0] == '?' then s != "" && GlobMatch(pattern[1..], s[1..])
    else if pattern[0] == '\\' && |pattern| > 1 then
      s != "" && s[0] == pattern[1] && GlobMatch(pattern[2..], s[1..])
    else s != "" && s[0] == pattern[0] && GlobMatch(pattern[1..], s[1..])
  }

  predicate Literal(s: string) {
    '*' !in s && '?' !in s && '[' !in s && '\\' !in s
  }

  /** The pattern of clear_namespace. */
  function Pattern(ns: Namespace, version: string): string {
    if version != "" then ns.Text() + ":*:v" + version else ns.Text() + ":*"
  }

  lemma {:induction false} LiteralPrefix(lit: string, rest: string, s: string)
    requires Literal(lit)
    ensures GlobMatch(lit + rest, s) <==> lit <= s && GlobMatch(rest, s[|lit|..])
    decreases |lit|
  {
    if lit == "" {
      assert lit + rest == rest && s[0..] == s;
    } else {
      assert (lit + rest)[1..] == lit[1..] + rest;
      if s != "" && s[0] == lit[0] {
        LiteralPrefix(lit[1..], rest, s[1..]);
        assert lit <= s <==> lit[1..] <= s[1..];
        if lit <= s {
          assert s[1..][|lit| - 1..] == s[|lit|..];
        }
      }
    }
  }

  lemma {:induction false} LiteralWhole(lit: string, s: string)
    requires Literal(lit)
    ensures GlobMatch(lit, s) <==> s == lit
  {
    assert lit + "" == lit;
    LiteralPrefix(lit, "", s);
    if lit <= s {
      assert s == lit + s[|lit|..];
    }
  }

  lemma {:induction false} StarSuffix(lit: string, s: string)
    requires Literal(lit)
    ensures GlobMatch("*" + lit, s) <==> EndsWith(s, lit)
    decreases |s|
  {
    assert ("*" + lit)[1..] == lit;
    LiteralWhole(lit, s);
    if s != "" {
      StarSuffix(lit, s[1..]);
      assert |lit| <= |s[1..]| ==> s[1..][|s[1..]| - |lit|..] == s[|s| - |lit|..];
    }
  }

  lemma NamespacePattern(ns: Namespace, version: string, rest: string)
    requires Literal(version)
    ensures GlobMatch(Pattern(ns, version), ns.Text() + (":" + rest)) <==>
      version == "" || EndsWith(rest, ":v" + version)
  {
    hide GlobMatch;
    var prefix, suffix := ns.Text() + ":", if version == "" then "" else ":v" + version;
    var s := ns.Text() + (":" + rest);
    Assoc(ns.Text(), ":", rest);
    assert s[..|prefix|] == prefix && s[|prefix|..] == rest;
    PatternParts(ns, version);
    LiteralPrefix(prefix, "*" + suffix, s);
    StarSuffix(suffix, rest);
  }

  lemma PatternParts(ns: Namespace, version: string)
    requires Literal(version)
    ensures var suffix := if version == "" then "" else ":v" + version;
      Pattern(ns, version) == (ns.Text() + ":") + ("*" + suffix) && Literal(suffix) && Literal(ns.Text() + ":")
  {
    hide Namespace.Text;
    LiteralText(ns);
    PatternText(ns.Text(), version);
  }

  lemma LiteralText(ns: Namespace)
    ensures Literal(ns.Text() + ":")
  {
  }

  lemma PatternText(t: string, version: string)
    ensures t + ":*:v" + version == (t + ":") + ("*" + (":v" + version))
    ensures t + ":*" == (t + ":") + ("*" + "")
  {
  }

  lemma OtherNamespacePattern(ns: Namespace, other: Namespace, version: string, rest: string)
    requires ns != other && Literal(version)
    ensures !GlobMatch(Pattern(ns, version), other.Text() + (":" + rest))
  {
    hide GlobMatch;
    var prefix, suffix := ns.Text() + ":", if version == "" then "" else ":v" + version;
    var s := other.Text() + (":" + rest);
    PatternParts(ns, version);
    LiteralPrefix(prefix, "*" + suffix, s);
    PrefixIsOwn(ns, other, rest);
  }

  lemma PrefixIsOwn(ns: Namespace, other: Namespace, rest: string)
    requires ns != other
    ensures !(ns.Text() + ":" <= other.Text() + (":" + rest))
  {
    NamespaceTextsDiffer(ns, other);
    NamespaceTextsDiffer(other, ns);
    ColonFreePrefix(ns.Text(), other.Text(), rest);
  }

  lemma ColonFreePrefix(a: string, b: string, rest: string)
    requires ':' !in a && ':' !in b
    ensures a + ":" <= b + (":" + rest) ==> a == b
  {
    var s := b + (":" + rest);
    if a + ":" <= s {
      var x := s[|a| + 1..];
      assert s == (a + ":") + x;
      Assoc(a, ":", x);
      SplitFirst(a, x, b, rest);
    }
  }

  /** The pattern of a namespace and version selects exactly that namespace's helper keys of that version;
      without a version, those of every version. */
  lemma PatternSelectsExactly(ns: Namespace, version: string, h: Helper, w: string)
    requires Literal(version) && ':' !in version && ValidVersion(w)
    ensures GlobMatch(Pattern(ns, version), h.Key(w)) <==> h.Namespace() == ns && (version == "" || version == w)
  {
    hide Helper.Key, Namespace.Text, Helper.Body, Helper.Namespace, GlobMatch, Pattern, EndsWith, Literal;
    KeyShape(h, w);
    var rest := h.Body() + (":v" + w);
    if h.Namespace() == ns {
      NamespacePattern(ns, version, rest);
      SuffixIsVersion(h.Body(), w, version);
    } else {
      OtherNamespacePattern(ns, h.Namespace(), version, rest);
    }
  }

  lemma SuffixIsVersion(body: string, w: string, version: string)
    requires ':' !in w && ':' !in version
    ensures EndsWith(body + (":v" + w), ":v" + version) <==> version == w
  {
    var s, suffix := body + (":v" + w), ":v" + version;
    if EndsWith(s, suffix) {
      var x := s[..|s| - |suffix|];
      assert s == x + suffix;
      SplitVersion(x, version, body, w);
    }
  }

  /** The rate limiter's own keys are not built by the helpers: clearing the rate limit namespace reaches one
      only if its identifier happens to end like a version. */
  lemma LimiterKeysSurvive(action: string, identifier: string, version: string)
    requires Literal(version) && version != ""
    ensures GlobMatch(Pattern(RateLimit, version), "rate_limit" + (":" + (action + (":" + identifier)))) <==>
      EndsWith(action + (":" + identifier), ":v" + version)
  {
    NamespacePattern(RateLimit, version, action + (":" + identifier));
  }
}
