/**
 Access control lists (crates/streamhouse-api/src/acl.rs): wildcard patterns, entries, and a checker whose
 decision cache must not be noticeable.
 */
module Acl {
  import opened Ordering

  datatype AclResource = Topic(name: string) | ConsumerGroup(name: string) | Organization(name: string) | Schema(name: string) | Cluster | All

  datatype AclAction = Read | Write | Create | Delete | Alter | Describe | Admin | AnyAction

  datatype AclPermission = Allow | Deny

  datatype AclEntry = AclEntry(id: string, principal: string, resource: AclResource, action: AclAction, permission: AclPermission)

  datatype Reason = AllowedByEntry | DeniedByEntry | DefaultDeny | CachedAllow | CachedDeny

  datatype AclCheckResult = AclCheckResult(allowed: bool, matchedEntry: Option<AclEntry>, reason: Reason)

  // ---------- patterns ----------

  function Stars(pattern: string): nat {
    if pattern == [] then 0 else (if pattern[0] == '*' then 1 else 0) + Stars(pattern[1..])
  }

  /** Where the first star stands. */
  function StarAt(pattern: string): (k: nat)
    requires Stars(pattern) > 0
    ensures k < |pattern| && pattern[k] == '*' && '*' !in pattern[..k]
    ensures Stars(pattern[k + 1..]) == Stars(pattern) - 1
  {
    if pattern[0] == '*' then 0
    else
      var j := StarAt(pattern[1..]);
      assert pattern[..j + 1] == [pattern[0]] + pattern[1..][..j];
      assert pattern[1..][j + 1..] == pattern[j + 2..];
      j + 1
  }

  predicate EndsWith(value: string, suffix: string) {
    |suffix| <= |value| && value[|value| - |suffix|..] == suffix
  }

  /** pattern_matches. */
  predicate PatternMatches(pattern: string, value: string) {
    if pattern == "*" then true
    else if pattern != [] && pattern[|pattern| - 1] == '*' then pattern[..|pattern| - 1] <= value
    else if pattern != [] && pattern[0] == '*' then EndsWith(value, pattern[1..])
    else if Stars(pattern) == 1 then pattern[..StarAt(pattern)] <= value && EndsWith(value, pattern[StarAt(pattern) + 1..])
    else pattern == value
  }

  /** The usual meaning: a star stands for any text. */
  ghost predicate Glob(pattern: string, value: string)
    decreases |pattern| + |value|
  {
    if pattern == [] then value == []
    else if pattern[0] == '*' then Glob(pattern[1..], value) || (value != [] && Glob(pattern, value[1..]))
    else value != [] && pattern[0] == value[0] && Glob(pattern[1..], value[1..])
  }

  lemma {:induction false} GlobLiteral(pattern: string, value: string)
    requires Stars(pattern) == 0
    ensures Glob(pattern, value) <==> pattern == value
  {
    if pattern != [] && value != [] {
      GlobLiteral(pattern[1..], value[1..]);
      assert pattern == [pattern[0]] + pattern[1..] && value == [value[0]] + value[1..];
    }
  }

  lemma {:induction false} GlobSuffix(pattern: string, value: string)
    requires pattern != [] && pattern[0] == '*' && Stars(pattern) == 1
    ensures Glob(pattern, value) <==> EndsWith(value, pattern[1..])
    decreases |value|
  {
    var suffix := pattern[1..];
    GlobLiteral(suffix, value);
    if value != [] {
      GlobSuffix(pattern, value[1..]);
      if |suffix| < |value| {
        assert value[|value| - |suffix|..] == value[1..][|value[1..]| - |suffix|..];
      } else if |suffix| == |value| {
        assert value[0..] == value;
      }
    }
  }

  /** Dropping the same first character from both sides leaves the two end tests as they were. */
  lemma {:induction false} EndsTail(pattern: string, value: string, k: nat)
    requires 0 < k < |pattern| && value != [] && pattern[0] == value[0]
    ensures pattern[..k] <= value <==> pattern[1..][..k - 1] <= value[1..]
    ensures |pattern| - 1 <= |value| ==>
              (EndsWith(value, pattern[k + 1..]) <==> EndsWith(value[1..], pattern[1..][k..]))
    ensures EndsWith(value[1..], pattern[1..][k..]) ==> EndsWith(value, pattern[k + 1..])
  {
    var p', v' := pattern[1..], value[1..];
    assert pattern == [pattern[0]] + p' && value == [value[0]] + v';
    assert pattern[..k] == [pattern[0]] + p'[..k - 1];
    var suffix := pattern[k + 1..];
    assert suffix == p'[k..];
    if |suffix| <= |v'| {
      assert value[|value| - |suffix|..] == v'[|v'| - |suffix|..];
    }
  }

  /** A pattern with one star means: this prefix, that suffix, and room for both. */
  lemma {:induction false} GlobOneStar(pattern: string, value: string)
    requires Stars(pattern) == 1
    ensures var k := StarAt(pattern);
            Glob(pattern, value) <==> pattern[..k] <= value && EndsWith(value, pattern[k + 1..]) && |pattern| - 1 <= |value|
  {
    var k := StarAt(pattern);
    if pattern[0] == '*' {
      assert k == 0;
      GlobSuffix(pattern, value);
    } else if value != [] && pattern[0] == value[0] {
      GlobOneStar(pattern[1..], value[1..]);
      EndsTail(pattern, value, k);
    } else if value != [] {
      assert pattern[..k][0] == pattern[0];
    }
  }

  lemma {:induction false} OneStarOnly(pattern: string, i: nat)
    requires Stars(pattern) == 1 && i < |pattern| && pattern[i] == '*'
    ensures StarAt(pattern) == i
  {
    if i == 0 {
    } else if pattern[0] == '*' {
      StarsPositive(pattern[1..], i - 1);
    } else {
      OneStarOnly(pattern[1..], i - 1);
    }
  }

  lemma {:induction false} StarsPositive(pattern: string, i: nat)
    requires i < |pattern| && pattern[i] == '*'
    ensures Stars(pattern) > 0
  {
    if 0 < i {
      StarsPositive(pattern[1..], i - 1);
    }
  }

  /** The star stands inside, and the value carries both ends of the pattern but is too short to hold them apart. */
  ghost predicate Overlapping(pattern: string, value: string) {
    && Stars(pattern) == 1 && 0 < StarAt(pattern) < |pattern| - 1 && |value| < |pattern| - 1
    && pattern[..StarAt(pattern)] <= value && EndsWith(value, pattern[StarAt(pattern) + 1..])
  }

  /** With at most one star, matching is wildcard matching but for the overlaps. */
  lemma {:induction false} OneStarMeaning(pattern: string, value: string)
    requires Stars(pattern) <= 1
    ensures PatternMatches(pattern, value) <==> Glob(pattern, value) || Overlapping(pattern, value)
    ensures Overlapping(pattern, value) ==> !Glob(pattern, value)
  {
    if Stars(pattern) == 0 {
      GlobLiteral(pattern, value);
      if pattern != [] && pattern[|pattern| - 1] == '*' { StarsPositive(pattern, |pattern| - 1); }
    } else {
      GlobOneStar(pattern, value);
      var k := StarAt(pattern);
      if pattern[|pattern| - 1] == '*' {
        OneStarOnly(pattern, |pattern| - 1);
        assert pattern[k + 1..] == [];
        assert value[|value|..] == [];
      }
    }
  }

  /** Text matches itself, stars included. */
  lemma {:induction false} GlobSame(text: string, pattern: string, value: string)
    requires Glob(pattern, value)
    ensures Glob(text + pattern, text + value)
  {
    if text == [] {
      assert text + pattern == pattern && text + value == value;
    } else {
      GlobSame(text[1..], pattern, value);
      var p, v := text + pattern, text + value;
      assert p[1..] == text[1..] + pattern && v[1..] == text[1..] + value;
      if text[0] == '*' { assert Glob(p, v[1..]); }
    }
  }

  /** A leading star passes over any text. */
  lemma {:induction false} GlobSkip(text: string, pattern: string, value: string)
    requires pattern != [] && pattern[0] == '*' && Glob(pattern[1..], value)
    ensures Glob(pattern, text + value)
  {
    if text == [] {
      assert text + value == value;
    } else {
      GlobSkip(text[1..], pattern, value);
      assert (text + value)[1..] == text[1..] + value;
    }
  }

  lemma GlobTail(text: string, rest: string)
    ensures Glob(text + "*", text + rest)
  {
    assert Glob([], []);
    GlobSkip(rest, "*", []);
    assert rest + [] == rest;
    GlobSame(text, "*", rest);
  }

  lemma GlobSelf(text: string)
    ensures Glob(text, text)
  {
    assert Glob([], []);
    GlobSame(text, [], []);
    assert text + [] == text;
  }

  /** With two stars or more a match is a wildcard match: the stars compared as characters match themselves. */
  lemma MatchIsWildcard(pattern: string, value: string)
    requires PatternMatches(pattern, value) && 2 <= Stars(pattern)
    ensures Glob(pattern, value)
  {
    var n := |pattern| - 1;
    if pattern[n] == '*' {
      GlobTail(pattern[..n], value[n..]);
      assert pattern == pattern[..n] + "*" && value == pattern[..n] + value[n..];
    } else if pattern[0] == '*' {
      GlobSelf(pattern[1..]);
      GlobSkip(value[..|value| - n], pattern, pattern[1..]);
      assert value == value[..|value| - n] + pattern[1..];
    } else {
      GlobSelf(pattern);
    }
  }

  /** For every pattern: a match is a wildcard match or an overlap, and up to one star every wildcard match is found. */
  lemma PatternMeaning(pattern: string, value: string)
    ensures PatternMatches(pattern, value) ==> Glob(pattern, value) || Overlapping(pattern, value)
    ensures Overlapping(pattern, value) ==> PatternMatches(pattern, value) && !Glob(pattern, value)
    ensures Glob(pattern, value) && Stars(pattern) <= 1 ==> PatternMatches(pattern, value)
  {
    if Stars(pattern) <= 1 {
      OneStarMeaning(pattern, value);
    } else if PatternMatches(pattern, value) {
      MatchIsWildcard(pattern, value);
    }
  }

  /** The pattern with its stars taken out: the shortest text it stands for. */
  function Strip(pattern: string): (r: string)
    ensures '*' !in r
  {
    if pattern == [] then [] else (if pattern[0] == '*' then [] else [pattern[0]]) + Strip(pattern[1..])
  }

  lemma {:induction false} GlobStrip(pattern: string)
    ensures Glob(pattern, Strip(pattern))
  {
    if pattern != [] {
      GlobStrip(pattern[1..]);
      if pattern[0] == '*' {
        assert Strip(pattern) == Strip(pattern[1..]);
      } else {
        assert Strip(pattern)[1..] == Strip(pattern[1..]);
      }
    }
  }

  lemma StarStands(pattern: string)
    requires Stars(pattern) > 0
    ensures '*' in pattern
  {
    var k := StarAt(pattern);
    assert pattern[k] == '*';
  }

  lemma {:induction false} StarsSplit(a: string, b: string)
    ensures Stars(a + b) == Stars(a) + Stars(b)
  {
    if a == [] {
      assert a + b == b;
    } else {
      StarsSplit(a[1..], b);
      assert (a + b)[1..] == a[1..] + b;
    }
  }

  /** With two stars or more, one is compared as a character, so the text without stars is missed. */
  lemma SecondStarMisses(pattern: string)
    requires 2 <= Stars(pattern)
    ensures Glob(pattern, Strip(pattern)) && !PatternMatches(pattern, Strip(pattern))
  {
    GlobStrip(pattern);
    var n, v := |pattern| - 1, Strip(pattern);
    StarStands(pattern);
    var front, back := pattern[..n], pattern[1..];
    assert pattern == front + [pattern[n]] && pattern == [pattern[0]] + back;
    StarsSplit(front, [pattern[n]]);
    StarsSplit([pattern[0]], back);
    StarStands(front);
    StarStands(back);
    assert !(front <= v) && !EndsWith(v, back) && pattern != v;
  }

  ghost predicate StartsThen(value: string, prefix: string) { exists text :: value == prefix + text }

  ghost predicate ThenEnds(value: string, suffix: string) { exists text :: value == text + suffix }

  lemma PrefixIff(value: string, prefix: string)
    ensures prefix <= value <==> StartsThen(value, prefix)
  {
    if prefix <= value { assert value == prefix + value[|prefix|..]; }
  }

  lemma SuffixIff(value: string, suffix: string)
    ensures EndsWith(value, suffix) <==> ThenEnds(value, suffix)
  {
    if EndsWith(value, suffix) { assert value == value[..|value| - |suffix|] + suffix; }
    if text :| value == text + suffix { assert value[|value| - |suffix|..] == suffix; }
  }

  /** Exactly what such a pattern accepts: one star at an end, the last before the first, stands for any text, and every other star for itself. */
  lemma ManyStars(pattern: string, value: string)
    requires 2 <= Stars(pattern)
    ensures PatternMatches(pattern, value) <==>
            if pattern[|pattern| - 1] == '*' then StartsThen(value, pattern[..|pattern| - 1])
            else if pattern[0] == '*' then ThenEnds(value, pattern[1..])
            else value == pattern
  {
    PrefixIff(value, pattern[..|pattern| - 1]);
    SuffixIff(value, pattern[1..]);
  }

  /** Some text both ends `prefix` and begins `suffix`. */
  ghost predicate EndsMeet(prefix: string, suffix: string) {
    exists n :: 0 < n <= |prefix| && n <= |suffix| && prefix[|prefix| - n..] == suffix[..n]
  }

  lemma OverlapNeedsMeeting(pattern: string, value: string)
    requires Overlapping(pattern, value)
    ensures EndsMeet(pattern[..StarAt(pattern)], pattern[StarAt(pattern) + 1..])
  {
    var prefix, suffix := pattern[..StarAt(pattern)], pattern[StarAt(pattern) + 1..];
    var n := |prefix| + |suffix| - |value|;
    var at := |value| - |suffix|;
    assert value[..|prefix|] == prefix && value[at..] == suffix;
    assert prefix[at..] == value[at..|prefix|] == suffix[..n];
  }

  lemma Joins(prefix: string, suffix: string, n: nat)
    requires n <= |prefix| && n <= |suffix| && prefix[|prefix| - n..] == suffix[..n]
    ensures EndsWith(prefix + suffix[n..], suffix)
  {
    var value := prefix + suffix[n..];
    assert value[|value| - |suffix|..] == prefix[|prefix| - n..] + suffix[n..];
    assert suffix == suffix[..n] + suffix[n..];
  }

  lemma MeetingOverlaps(pattern: string) returns (value: string)
    requires Stars(pattern) == 1 && 0 < StarAt(pattern) < |pattern| - 1
    requires EndsMeet(pattern[..StarAt(pattern)], pattern[StarAt(pattern) + 1..])
    ensures Overlapping(pattern, value)
  {
    var prefix, suffix := pattern[..StarAt(pattern)], pattern[StarAt(pattern) + 1..];
    var n :| 0 < n <= |prefix| && n <= |suffix| && prefix[|prefix| - n..] == suffix[..n];
    value := prefix + suffix[n..];
    Joins(prefix, suffix, n);
  }

  /** The pattern accepts exactly what its wildcards stand for. */
  ghost predicate MeansWildcard(pattern: string) {
    forall value :: PatternMatches(pattern, value) <==> Glob(pattern, value)
  }

  /**
   Exactly which patterns mean what they say: those without a star, those with one star at an end, and
   those with one star inside whose two ends cannot overlap.
   */
  lemma MeansWildcardIff(pattern: string)
    ensures MeansWildcard(pattern) <==>
            || Stars(pattern) == 0
            || (Stars(pattern) == 1 &&
                var k := StarAt(pattern);
                k == 0 || k == |pattern| - 1 || !EndsMeet(pattern[..k], pattern[k + 1..]))
  {
    if 2 <= Stars(pattern) {
      SecondStarMisses(pattern);
    } else if Stars(pattern) == 1 && 0 < StarAt(pattern) < |pattern| - 1 {
      MiddleStarIff(pattern);
    } else {
      forall value ensures PatternMatches(pattern, value) <==> Glob(pattern, value) {
        PatternMeaning(pattern, value);
      }
    }
  }

  lemma MiddleStarIff(pattern: string)
    requires Stars(pattern) == 1 && 0 < StarAt(pattern) < |pattern| - 1
    ensures MeansWildcard(pattern) <==> !EndsMeet(pattern[..StarAt(pattern)], pattern[StarAt(pattern) + 1..])
  {
    if EndsMeet(pattern[..StarAt(pattern)], pattern[StarAt(pattern) + 1..]) {
      var value := MeetingOverlaps(pattern);
      PatternMeaning(pattern, value);
    } else {
      forall value ensures PatternMatches(pattern, value) <==> Glob(pattern, value) {
        PatternMeaning(pattern, value);
        if Overlapping(pattern, value) { OverlapNeedsMeeting(pattern, value); }
      }
    }
  }

  /** One pattern that accepts too much and one that accepts too little. */
  lemma PatternSurprises()
    ensures PatternMatches("ab*ba", "aba") && !Glob("ab*ba", "aba")
    ensures !PatternMatches("*a*", "a") && Glob("*a*", "a")
  {
    assert Stars("ab*ba") == 1 && StarAt("ab*ba") == 2;
    PatternMeaning("ab*ba", "aba");
    assert "aba"[1..] == "ba";
    assert Stars("*a*") == 2 && Strip("*a*") == "a";
    SecondStarMisses("*a*");
  }

  // ---------- entries ----------

  predicate ResourceMatches(pattern: AclResource, resource: AclResource) {
    match (pattern, resource)
    case (All, _) => true
    case (Cluster, Cluster) => true
    case (Topic(p), Topic(n)) => PatternMatches(p, n)
    case (ConsumerGroup(p), ConsumerGroup(n)) => PatternMatches(p, n)
    case (Organization(p), Organization(n)) => PatternMatches(p, n)
    case (Schema(p), Schema(n)) => PatternMatches(p, n)
    case (_, _) => false
  }

  predicate ActionMatches(pattern: AclAction, action: AclAction) {
    pattern.AnyAction? || pattern == action
  }

  datatype Request = Request(principal: string, resource: AclResource, action: AclAction)

  predicate Matches(e: AclEntry, q: Request) {
    PatternMatches(e.principal, q.principal) && ResourceMatches(e.resource, q.resource) && ActionMatches(e.action, q.action)
  }

  /** The first entry with this permission that matches. */
  ghost predicate FirstMatch(entries: seq<AclEntry>, permission: AclPermission, q: Request, i: int) {
    && 0 <= i < |entries| && entries[i].permission == permission && Matches(entries[i], q)
    && forall j :: 0 <= j < i ==> !(entries[j].permission == permission && Matches(entries[j], q))
  }

  ghost predicate AnyMatch(entries: seq<AclEntry>, permission: AclPermission, q: Request) {
    exists e :: e in entries && e.permission == permission && Matches(e, q)
  }

  /** The rule: some entry allows it and none denies it. */
  ghost predicate Permitted(entries: seq<AclEntry>, q: Request) {
    AnyMatch(entries, Allow, q) && !AnyMatch(entries, Deny, q)
  }

  /** The entry the decision rests on: the first that denies, else the first that allows, else none. */
  ghost predicate RestsOn(entries: seq<AclEntry>, q: Request, matched: Option<AclEntry>) {
    match matched
    case Some(e) =>
      if e.permission.Deny? then exists i :: FirstMatch(entries, Deny, q, i) && entries[i] == e
      else !AnyMatch(entries, Deny, q) && exists i :: FirstMatch(entries, Allow, q, i) && entries[i] == e
    case None => !AnyMatch(entries, Deny, q) && !AnyMatch(entries, Allow, q)
  }

  // ---------- cache keys ----------

  function ResourceType(r: AclResource): string {
    match r
    case Topic(_) => "topic"
    case ConsumerGroup(_) => "consumer_group"
    case Organization(_) => "organization"
    case Schema(_) => "schema"
    case Cluster => "cluster"
    case All => "all"
  }

  function ResourceName(r: AclResource): string {
    match r
    case Cluster => "*"
    case All => "*"
    case _ => r.name
  }

  function ShowResource(r: AclResource): string {
    ResourceType(r) + ":" + ResourceName(r)
  }

  function ShowAction(a: AclAction): string {
    match a
    case Read => "read"
    case Write => "write"
    case Create => "create"
    case Delete => "delete"
    case Alter => "alter"
    case Describe => "describe"
    case Admin => "admin"
    case AnyAction => "all"
  }

  type Key = (string, string, string)

  function KeyOf(q: Request): Key {
    (q.principal, ShowResource(q.resource), ShowAction(q.action))
  }

  lemma FirstColon(a: string, b: string)
    requires ':' !in a
    ensures (a + ":" + b)[|a|] == ':' && forall i :: 0 <= i < |a| ==> (a + ":" + b)[i] != ':'
  {
    forall i | 0 <= i < |a| ensures (a + ":" + b)[i] != ':' {
      assert (a + ":" + b)[i] == a[i];
    }
  }

  /** Text before the first colon and text after it can be told apart. */
  lemma ColonSplit(a: string, b: string, x: string, y: string)
    requires ':' !in a && ':' !in x && a + ":" + b == x + ":" + y
    ensures a == x && b == y
  {
    var s, t := a + ":" + b, x + ":" + y;
    FirstColon(a, b);
    FirstColon(x, y);
    assert |a| == |x|;
    assert a == s[..|a|] && x == t[..|x|];
    assert b == s[|a| + 1..] && y == t[|x| + 1..];
  }

  lemma TypeHasNoColon(r: AclResource)
    ensures ':' !in ResourceType(r)
  {
  }

  lemma TypeDecides(r: AclResource, s: AclResource)
    requires ResourceType(r) == ResourceType(s)
    ensures r.Topic? == s.Topic? && r.ConsumerGroup? == s.ConsumerGroup? && r.Organization? == s.Organization?
    ensures r.Schema? == s.Schema? && r.Cluster? == s.Cluster? && r.All? == s.All?
  {
    assert ResourceType(r)[0] == ResourceType(s)[0] && |ResourceType(r)| == |ResourceType(s)|;
  }

  lemma ActionDecides(a: AclAction, b: AclAction)
    requires ShowAction(a) == ShowAction(b)
    ensures a == b
  {
    var s, t := ShowAction(a), ShowAction(b);
    assert |s| == |t| && s[0] == t[0] && s[2] == t[2];
  }

  /** Different requests print different cache keys. */
  lemma KeyInjective(q: Request, r: Request)
    requires KeyOf(q) == KeyOf(r)
    ensures q == r
  {
    TypeHasNoColon(q.resource);
    TypeHasNoColon(r.resource);
    ColonSplit(ResourceType(q.resource), ResourceName(q.resource), ResourceType(r.resource), ResourceName(r.resource));
    TypeDecides(q.resource, r.resource);
    ActionDecides(q.action, r.action);
  }

  // ---------- what an entry covers ----------

  /** A resource pattern covers everything, or resources of its own kind: the cluster, or those whose names it matches. */
  lemma ResourceMatchesIff(p: AclResource, r: AclResource)
    ensures ResourceMatches(p, r) <==>
            p.All? || (ResourceType(p) == ResourceType(r) && (p.Cluster? || PatternMatches(ResourceName(p), ResourceName(r))))
  {
    if ResourceType(p) == ResourceType(r) { TypeDecides(p, r); }
  }

  /** An action pattern covers every action, or its own. */
  lemma ActionMatchesIff(p: AclAction, a: AclAction)
    ensures ActionMatches(p, a) <==> ShowAction(p) == "all" || ShowAction(p) == ShowAction(a)
  {
    if ShowAction(p) == "all" { ActionDecides(p, AnyAction); }
    if ShowAction(p) == ShowAction(a) { ActionDecides(p, a); }
  }

  /** For patterns that mean their wildcards: who, what and which action an entry speaks of. */
  lemma EntryMeaning(e: AclEntry, q: Request)
    requires MeansWildcard(e.principal) && MeansWildcard(ResourceName(e.resource))
    ensures Matches(e, q) <==>
            && Glob(e.principal, q.principal)
            && (e.resource.All? || (ResourceType(e.resource) == ResourceType(q.resource) &&
                                    (e.resource.Cluster? || Glob(ResourceName(e.resource), ResourceName(q.resource)))))
            && (e.action.AnyAction? || e.action == q.action)
  {
    ResourceMatchesIff(e.resource, q.resource);
    assert PatternMatches(e.principal, q.principal) <==> Glob(e.principal, q.principal);
    assert PatternMatches(ResourceName(e.resource), ResourceName(q.resource)) <==> Glob(ResourceName(e.resource), ResourceName(q.resource));
  }

  /** The entry is about another kind of resource, or another action. */
  predicate Beside(e: AclEntry, q: Request) {
    || (!e.resource.All? && ResourceType(e.resource) != ResourceType(q.resource))
    || (!e.action.AnyAction? && e.action != q.action)
  }

  lemma BesideNeverMatches(e: AclEntry, q: Request)
    requires Beside(e, q)
    ensures !Matches(e, q)
  {
    ResourceMatchesIff(e.resource, q.resource);
  }

  /** The longer list is the shorter one with `e` put in at place `k`. */
  ghost predicate Inserted(short: seq<AclEntry>, long: seq<AclEntry>, k: nat, e: AclEntry) {
    && |long| == |short| + 1 && k <= |short| && long[k] == e
    && forall j :: 0 <= j < |short| ==> long[Shifted(k, j)] == short[j]
  }

  /** Where an entry of the shorter list stands in the longer one. */
  function Shifted(k: nat, i: int): int { if i < k then i else i + 1 }

  lemma FirstMatchShifts(short: seq<AclEntry>, long: seq<AclEntry>, k: nat, e: AclEntry, permission: AclPermission, q: Request, i: int)
    requires Inserted(short, long, k, e) && !Matches(e, q) && FirstMatch(short, permission, q, i)
    ensures FirstMatch(long, permission, q, Shifted(k, i)) && long[Shifted(k, i)] == short[i]
  {
    forall j | 0 <= j < Shifted(k, i) ensures !(long[j].permission == permission && Matches(long[j], q)) {
      if j != k {
        var j' := if j < k then j else j - 1;
        assert long[Shifted(k, j')] == short[j'];
      }
    }
  }

  lemma FirstMatchShiftsBack(short: seq<AclEntry>, long: seq<AclEntry>, k: nat, e: AclEntry, permission: AclPermission, q: Request, i: int)
    returns (i': int)
    requires Inserted(short, long, k, e) && !Matches(e, q) && FirstMatch(long, permission, q, i)
    ensures FirstMatch(short, permission, q, i') && short[i'] == long[i]
  {
    i' := if i < k then i else i - 1;
    assert long[Shifted(k, i')] == short[i'];
    forall j | 0 <= j < i' ensures !(short[j].permission == permission && Matches(short[j], q)) {
      assert long[Shifted(k, j)] == short[j];
    }
  }

  lemma AnyMatchShifts(short: seq<AclEntry>, long: seq<AclEntry>, k: nat, e: AclEntry, permission: AclPermission, q: Request)
    requires Inserted(short, long, k, e) && !Matches(e, q)
    ensures AnyMatch(short, permission, q) <==> AnyMatch(long, permission, q)
  {
    if x :| x in short && x.permission == permission && Matches(x, q) {
      var j :| 0 <= j < |short| && short[j] == x;
      assert long[Shifted(k, j)] == x;
      assert x in long;
    }
    if x :| x in long && x.permission == permission && Matches(x, q) {
      var j :| 0 <= j < |long| && long[j] == x;
      var j' := if j < k then j else j - 1;
      assert long[Shifted(k, j')] == short[j'];
      assert x in short;
    }
  }

  ghost predicate FirstIs(entries: seq<AclEntry>, permission: AclPermission, q: Request, x: AclEntry) {
    exists i :: FirstMatch(entries, permission, q, i) && entries[i] == x
  }

  lemma FirstMatchesAgree(short: seq<AclEntry>, long: seq<AclEntry>, k: nat, e: AclEntry, permission: AclPermission, q: Request, x: AclEntry)
    requires Inserted(short, long, k, e) && !Matches(e, q)
    ensures FirstIs(short, permission, q, x) <==> FirstIs(long, permission, q, x)
  {
    if i :| FirstMatch(short, permission, q, i) && short[i] == x {
      FirstMatchShifts(short, long, k, e, permission, q, i);
    }
    if i :| FirstMatch(long, permission, q, i) && long[i] == x {
      var i' := FirstMatchShiftsBack(short, long, k, e, permission, q, i);
    }
  }

  /** The answer that an evaluation of the entries gives. */
  ghost predicate Decides(entries: seq<AclEntry>, q: Request, r: AclCheckResult) {
    (r.allowed <==> Permitted(entries, q)) && RestsOn(entries, q, r.matchedEntry)
  }

  /** Entries about other kinds of resource or other actions, wherever they stand, never change an answer. */
  lemma BesideIgnored(short: seq<AclEntry>, long: seq<AclEntry>, k: nat, e: AclEntry, q: Request, r: AclCheckResult)
    requires Inserted(short, long, k, e) && Beside(e, q)
    ensures Decides(long, q, r) <==> Decides(short, q, r)
  {
    BesideNeverMatches(e, q);
    AnyMatchShifts(short, long, k, e, Allow, q);
    AnyMatchShifts(short, long, k, e, Deny, q);
    if r.matchedEntry.Some? {
      FirstMatchesAgree(short, long, k, e, Allow, q, r.matchedEntry.value);
      FirstMatchesAgree(short, long, k, e, Deny, q, r.matchedEntry.value);
    }
  }

  // ---------- the checker ----------

  function Retain(entries: seq<AclEntry>, id: string): seq<AclEntry> {
    if entries == [] then []
    else
      var init := Retain(entries[..|entries| - 1], id);
      if entries[|entries| - 1].id != id then init + [entries[|entries| - 1]] else init
  }

  lemma {:induction false} RetainSame(entries: seq<AclEntry>, id: string)
    ensures |Retain(entries, id)| <= |entries|
    ensures |Retain(entries, id)| == |entries| ==> Retain(entries, id) == entries
  {
    if entries != [] {
      RetainSame(entries[..|entries| - 1], id);
    }
  }

  lemma {:induction false} RetainSplits(a: seq<AclEntry>, b: seq<AclEntry>, id: string)
    ensures Retain(a + b, id) == Retain(a, id) + Retain(b, id)
  {
    if b == [] {
      assert a + b == a;
    } else {
      RetainSplits(a, b[..|b| - 1], id);
      assert (a + b)[..|a + b| - 1] == a + b[..|b| - 1];
    }
  }

  /** Removal takes every entry with the id, wherever it stands, and keeps every other in its place. */
  lemma RetainTakes(a: seq<AclEntry>, e: AclEntry, b: seq<AclEntry>, id: string)
    ensures Retain(a + [e] + b, id) == if e.id == id then Retain(a, id) + Retain(b, id) else Retain(a, id) + [e] + Retain(b, id)
    ensures Retain([], id) == []
  {
    RetainSplits(a + [e], b, id);
    RetainSplits(a, [e], id);
    assert [e][..0] == [];
  }

  /** A cached answer is always a refusal, and of a request that no entry mentions. */
  ghost predicate CacheOk(entries: seq<AclEntry>, cache: map<Key, bool>) {
    forall q :: KeyOf(q) in cache ==> !cache[KeyOf(q)] && !AnyMatch(entries, Deny, q) && !AnyMatch(entries, Allow, q)
  }

  method FindMatch(entries: seq<AclEntry>, permission: AclPermission, q: Request) returns (found: Option<AclEntry>)
    ensures match found
            case Some(e) => exists i :: FirstMatch(entries, permission, q, i) && entries[i] == e
            case None => !AnyMatch(entries, permission, q)
  {
    for i := 0 to |entries|
      invariant forall j :: 0 <= j < i ==> !(entries[j].permission == permission && Matches(entries[j], q))
    {
      if entries[i].permission == permission && Matches(entries[i], q) {
        assert FirstMatch(entries, permission, q, i);
        return Some(entries[i]);
      }
    }
    found := None;
  }

  lemma FirstMatchAny(entries: seq<AclEntry>, permission: AclPermission, q: Request, i: int)
    requires FirstMatch(entries, permission, q, i)
    ensures AnyMatch(entries, permission, q) && entries[i].permission == permission
  {
    assert entries[i] in entries;
  }

  lemma CacheInsert(entries: seq<AclEntry>, cache: map<Key, bool>, q: Request)
    requires CacheOk(entries, cache) && !AnyMatch(entries, Deny, q) && !AnyMatch(entries, Allow, q)
    ensures CacheOk(entries, cache[KeyOf(q) := false])
  {
    forall r | KeyOf(r) in cache[KeyOf(q) := false]
      ensures !cache[KeyOf(q) := false][KeyOf(r)] && !AnyMatch(entries, Deny, r) && !AnyMatch(entries, Allow, r)
    {
      if KeyOf(r) == KeyOf(q) { KeyInjective(r, q); }
    }
  }

  class AclChecker {
    var entries: seq<AclEntry>
    var cache: map<Key, bool>

    ghost predicate Valid()
      reads this
    {
      CacheOk(entries, cache)
    }

    constructor (entries: seq<AclEntry>)
      ensures Valid() && this.entries == entries
    {
      this.entries, cache := entries, map[];
    }

    method AddEntry(entry: AclEntry)
      modifies this
      ensures Valid() && entries == old(entries) + [entry]
    {
      entries := entries + [entry];
      cache := map[];
    }

    /** remove_entry clears the cache only when something was removed; otherwise the entries are what they were. */
    method RemoveEntry(id: string) returns (removed: bool)
      requires Valid()
      modifies this
      ensures Valid() && entries == Retain(old(entries), id) && (removed <==> entries != old(entries))
    {
      var before := |entries|;
      RetainSame(entries, id);
      entries := Retain(entries, id);
      removed := |entries| < before;
      if removed {
        cache := map[];
      }
    }

    method Clear()
      modifies this
      ensures Valid() && entries == []
    {
      entries, cache := [], map[];
    }

    /**
     check: the decision is that of the current entries, deny before allow, and rests on the same entry that an
     uncached evaluation would name, whether or not it came from the cache.
     */
    method Check(q: Request) returns (r: AclCheckResult)
      requires Valid()
      modifies this`cache
      ensures Valid()
      ensures r.allowed <==> Permitted(entries, q)
      ensures RestsOn(entries, q, r.matchedEntry)
      ensures Decides(entries, q, r)
      ensures r.reason == match r.matchedEntry
                          case Some(e) => if e.permission.Deny? then DeniedByEntry else AllowedByEntry
                          case None => if KeyOf(q) in old(cache) then CachedDeny else DefaultDeny
    {
      if KeyOf(q) in cache {
        var allowed := cache[KeyOf(q)];
        r := AclCheckResult(allowed, None, if allowed then CachedAllow else CachedDeny);
        return;
      }
      var denied := FindMatch(entries, Deny, q);
      if denied.Some? {
        ghost var i :| FirstMatch(entries, Deny, q, i) && entries[i] == denied.value;
        FirstMatchAny(entries, Deny, q, i);
        return AclCheckResult(false, denied, DeniedByEntry);
      }
      var allowed := FindMatch(entries, Allow, q);
      if allowed.Some? {
        ghost var i :| FirstMatch(entries, Allow, q, i) && entries[i] == allowed.value;
        FirstMatchAny(entries, Allow, q, i);
        return AclCheckResult(true, allowed, AllowedByEntry);
      }
      CacheInsert(entries, cache, q);
      cache := cache[KeyOf(q) := false];
      r := AclCheckResult(false, None, DefaultDeny);
    }
  }

  // ---------- whole runs ----------

  datatype Command = Add(entry: AclEntry) | Remove(id: string) | ClearAll | Ask(request: Request)

  /** The entries that a program of commands leaves. */
  ghost function EntriesAfter(entries: seq<AclEntry>, commands: seq<Command>): seq<AclEntry> {
    if commands == [] then entries
    else
      var before := EntriesAfter(entries, commands[..|commands| - 1]);
      match commands[|commands| - 1]
      case Add(e) => before + [e]
      case Remove(id) => Retain(before, id)
      case ClearAll => []
      case Ask(_) => before
  }

  lemma FirstMatchUnique(entries: seq<AclEntry>, permission: AclPermission, q: Request, i: int, j: int)
    requires FirstMatch(entries, permission, q, i) && FirstMatch(entries, permission, q, j)
    ensures i == j
  {
  }

  /** There is only one answer: the decision and the entry it rests on are fixed by the entries. */
  lemma DecisionUnique(entries: seq<AclEntry>, q: Request, r: AclCheckResult, r': AclCheckResult)
    requires Decides(entries, q, r) && Decides(entries, q, r')
    ensures r.allowed == r'.allowed && r.matchedEntry == r'.matchedEntry
  {
    RestsOnOne(entries, q, r.matchedEntry, r'.matchedEntry);
  }

  lemma RestsOnOne(entries: seq<AclEntry>, q: Request, a: Option<AclEntry>, b: Option<AclEntry>)
    requires RestsOn(entries, q, a) && RestsOn(entries, q, b)
    ensures a == b
  {
    forall i, permission | FirstMatch(entries, permission, q, i) ensures AnyMatch(entries, permission, q) {
      FirstMatchAny(entries, permission, q, i);
    }
    forall i, j, permission | FirstMatch(entries, permission, q, i) && FirstMatch(entries, permission, q, j) ensures i == j {
      FirstMatchUnique(entries, permission, q, i, j);
    }
  }

  /** The answers to the questions among the commands, each by the entries of its time. */
  ghost predicate Answered(entries: seq<AclEntry>, commands: seq<Command>, results: seq<AclCheckResult>) {
    if commands == [] then results == []
    else
      var k := |commands| - 1;
      match commands[k]
      case Ask(q) =>
        && results != [] && Answered(entries, commands[..k], results[..|results| - 1])
        && Decides(EntriesAfter(entries, commands[..k]), q, results[|results| - 1])
      case _ => Answered(entries, commands[..k], results)
  }

  lemma AnsweredStep(entries: seq<AclEntry>, commands: seq<Command>, i: nat, before: seq<AclCheckResult>, after: seq<AclCheckResult>)
    requires i < |commands| && Answered(entries, commands[..i], before)
    requires match commands[i]
             case Ask(q) => after != [] && after[..|after| - 1] == before && Decides(EntriesAfter(entries, commands[..i]), q, after[|after| - 1])
             case _ => after == before
    ensures Answered(entries, commands[..i + 1], after)
  {
    assert commands[..i + 1][..i] == commands[..i];
  }

  lemma EntriesStep(entries: seq<AclEntry>, commands: seq<Command>, i: nat)
    requires i < |commands|
    ensures EntriesAfter(entries, commands[..i + 1]) ==
            var before := EntriesAfter(entries, commands[..i]);
            match commands[i]
            case Add(e) => before + [e]
            case Remove(id) => Retain(before, id)
            case ClearAll => []
            case Ask(_) => before
  {
    assert commands[..i + 1][..i] == commands[..i];
  }

  /** The cache cannot be noticed: over any run of commands every answer is that of the entries of its time. */
  method RunCommands(initial: seq<AclEntry>, commands: seq<Command>) returns (checker: AclChecker, results: seq<AclCheckResult>)
    ensures checker.Valid() && checker.entries == EntriesAfter(initial, commands)
    ensures Answered(initial, commands, results)
  {
    checker := new AclChecker(initial);
    results := [];
    for i := 0 to |commands|
      invariant fresh(checker) && checker.Valid() && checker.entries == EntriesAfter(initial, commands[..i])
      invariant Answered(initial, commands[..i], results)
    {
      ghost var before := results;
      EntriesStep(initial, commands, i);
      match commands[i] {
        case Add(entry) => checker.AddEntry(entry);
        case Remove(id) => var _ := checker.RemoveEntry(id);
        case ClearAll => checker.Clear();
        case Ask(q) =>
          var r := checker.Check(q);
          results := results + [r];
      }
      AnsweredStep(initial, commands, i, before, results);
    }
    assert commands[..|commands|] == commands;
  }

  /** Two runs of the same commands, whatever either has cached, give the same answers. */
  lemma {:induction false} AnswersUnique(entries: seq<AclEntry>, commands: seq<Command>, a: seq<AclCheckResult>, b: seq<AclCheckResult>)
    requires Answered(entries, commands, a) && Answered(entries, commands, b)
    ensures |a| == |b| && forall i :: 0 <= i < |a| ==> a[i].allowed == b[i].allowed && a[i].matchedEntry == b[i].matchedEntry
  {
    if commands != [] {
      var k := |commands| - 1;
      if commands[k].Ask? {
        AnswersUnique(entries, commands[..k], a[..|a| - 1], b[..|b| - 1]);
        DecisionUnique(EntriesAfter(entries, commands[..k]), commands[k].request, a[|a| - 1], b[|b| - 1]);
      } else {
        AnswersUnique(entries, commands[..k], a, b);
      }
    }
  }
}
