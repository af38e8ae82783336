/**
 The audit trail of crates/streamhouse-api/src/audit_store.rs as data: hash-chained records, what chain
 verification accepts, and what a query selects. SHA-256 is an arbitrary function.
 */
module AuditChain {
  import opened Ordering

  datatype Entry = Entry(
    requestId: nat,
    verb: string,
    path: string,
    query: Option<string>,
    apiKeyId: Option<string>,
    organizationId: Option<string>,
    statusCode: nat,
    durationMs: nat,
    operation: string,
    clientIp: Option<string>,
    userAgent: Option<string>,
    success: bool,
    error: Option<string>,
    timestamp: int)

  /** `number` is the record's `seq`. */
  datatype Record = Record(number: nat, storedAt: int, entry: Entry, prevHash: string, hash: string)

  type HashFn = (nat, Entry, string) -> string

  function NewRecord(h: HashFn, number: nat, now: int, entry: Entry, prevHash: string): (r: Record)
    ensures Verifies(h, r)
  {
    Record(number, now, entry, prevHash, h(number, entry, prevHash))
  }

  predicate Verifies(h: HashFn, r: Record) {
    r.hash == h(r.number, r.entry, r.prevHash)
  }

  // ---------- chains ----------

  /** The hash that record `n` must name; the first record names the empty string. */
  ghost function HashBefore(log: seq<Record>, n: nat): string
    requires n <= |log|
  {
    if n == 0 then "" else log[n - 1].hash
  }

  ghost predicate Linked(log: seq<Record>, i: nat, h: HashFn)
    requires i < |log|
  {
    log[i].prevHash == HashBefore(log, i) && Verifies(h, log[i])
  }

  ghost predicate Chain(log: seq<Record>, h: HashFn) {
    forall i :: 0 <= i < |log| ==> Linked(log, i, h)
  }

  lemma ChainStep(log: seq<Record>, r: Record, h: HashFn)
    ensures Chain(log + [r], h) <==> Chain(log, h) && r.prevHash == HashBefore(log, |log|) && Verifies(h, r)
  {
    var s := log + [r];
    if Chain(s, h) {
      assert Linked(s, |log|, h);
      forall i | 0 <= i < |log| ensures Linked(log, i, h) {
        assert Linked(s, i, h);
      }
    }
    if Chain(log, h) && r.prevHash == HashBefore(log, |log|) && Verifies(h, r) {
      forall i | 0 <= i < |s| ensures Linked(s, i, h) {
        if i < |log| { assert Linked(log, i, h); }
      }
    }
  }

  /** Cutting records off the end leaves a chain: verification alone cannot tell that they are gone. */
  lemma ChainPrefix(log: seq<Record>, h: HashFn, n: nat)
    requires Chain(log, h) && n <= |log|
    ensures Chain(log[..n], h)
  {
    forall i | 0 <= i < n ensures Linked(log[..n], i, h) {
      assert Linked(log, i, h);
    }
  }

  /** Equal in everything that the chain covers; the storage time is not hashed. */
  ghost predicate SameRecord(r: Record, s: Record) {
    r.number == s.number && r.entry == s.entry && r.prevHash == s.prevHash && r.hash == s.hash
  }

  ghost predicate SameLog(a: seq<Record>, b: seq<Record>) {
    |a| == |b| && forall i :: 0 <= i < |a| ==> SameRecord(a[i], b[i])
  }

  /** Two different inputs of the hash, from the two logs, with one hash; or an input whose hash is the empty string. */
  ghost predicate HashBroken(a: seq<Record>, b: seq<Record>) {
    || (exists r, s :: r in a && s in b && r.hash == s.hash && !SameRecord(r, s))
    || (exists r :: r in a + b && r.hash == "")
  }

  /**
   Hash-chain binding: two logs that verify and end in the same hash are the same log, or they exhibit a
   broken hash. So editing, inserting, dropping or reordering anything before a known last hash is caught.
   */
  lemma {:induction false} ChainBinds(a: seq<Record>, b: seq<Record>, h: HashFn)
    requires Chain(a, h) && Chain(b, h) && a != [] && b != []
    requires a[|a| - 1].hash == b[|b| - 1].hash
    ensures SameLog(a, b) || HashBroken(a, b)
  {
    var m, n := |a| - 1, |b| - 1;
    assert Linked(a, m, h) && Linked(b, n, h);
    if !SameRecord(a[m], b[n]) {
      Collides(a, b, m, n);
    } else if m == 0 || n == 0 {
      FirstAgainstLater(a, b);
    } else {
      ChainPrefix(a, h, m);
      ChainPrefix(b, h, n);
      ChainBinds(a[..m], b[..n], h);
      BoundSoFar(a, b);
    }
  }

  lemma Collides(a: seq<Record>, b: seq<Record>, i: nat, j: nat)
    requires i < |a| && j < |b| && a[i].hash == b[j].hash && !SameRecord(a[i], b[j])
    ensures HashBroken(a, b)
  {
    assert a[i] in a && b[j] in b;
  }

  /** Logs that end in the same record are the same, or broken, if they are up to it. */
  lemma BoundSoFar(a: seq<Record>, b: seq<Record>)
    requires a != [] && b != [] && SameRecord(a[|a| - 1], b[|b| - 1])
    requires SameLog(a[..|a| - 1], b[..|b| - 1]) || HashBroken(a[..|a| - 1], b[..|b| - 1])
    ensures SameLog(a, b) || HashBroken(a, b)
  {
    if HashBroken(a[..|a| - 1], b[..|b| - 1]) {
      BrokenInPart(a, b, |a| - 1, |b| - 1);
    }
  }

  /** A first record names the empty string; if a later one does too, its predecessor's hash is empty. */
  lemma FirstAgainstLater(a: seq<Record>, b: seq<Record>)
    requires a != [] && b != [] && (|a| == 1 || |b| == 1) && SameRecord(a[|a| - 1], b[|b| - 1])
    requires a[|a| - 1].prevHash == HashBefore(a, |a| - 1) && b[|b| - 1].prevHash == HashBefore(b, |b| - 1)
    ensures SameLog(a, b) || HashBroken(a, b)
  {
    if 1 < |b| { assert b[|b| - 2] in a + b; }
    if 1 < |a| { assert a[|a| - 2] in a + b; }
  }

  lemma BrokenInPart(a: seq<Record>, b: seq<Record>, m: nat, n: nat)
    requires m <= |a| && n <= |b| && HashBroken(a[..m], b[..n])
    ensures HashBroken(a, b)
  {
    if r, s :| r in a[..m] && s in b[..n] && r.hash == s.hash && !SameRecord(r, s) {
      assert r in a && s in b;
    } else {
      var r :| r in a[..m] + b[..n] && r.hash == "";
      assert r in a + b;
    }
  }

  /** With a hash that is injective and never empty there is nothing to break. */
  ghost predicate GoodHash(h: HashFn) {
    && (forall n, e, p, n', e', p' :: h(n, e, p) == h(n', e', p') ==> n == n' && e == e' && p == p')
    && (forall n, e, p :: h(n, e, p) != "")
  }

  lemma GoodHashBinds(a: seq<Record>, b: seq<Record>, h: HashFn)
    requires GoodHash(h) && Chain(a, h) && Chain(b, h) && a != [] && b != []
    requires a[|a| - 1].hash == b[|b| - 1].hash
    ensures SameLog(a, b)
  {
    ChainBinds(a, b, h);
    ChainElements(a, h);
    ChainElements(b, h);
  }

  lemma ChainElements(a: seq<Record>, h: HashFn)
    requires Chain(a, h)
    ensures forall r :: r in a ==> Verifies(h, r)
  {
    forall r | r in a ensures Verifies(h, r) {
      var i :| 0 <= i < |a| && a[i] == r;
      assert Linked(a, i, h);
    }
  }

  // ---------- log files ----------

  /** A line of a log file: blank, not a record, or a record. */
  datatype Line = Blank | Malformed | Stored(record: Record)

  ghost function Records(lines: seq<Line>): seq<Record> {
    if lines == [] then []
    else
      var init := Records(lines[..|lines| - 1]);
      if lines[|lines| - 1].Stored? then init + [lines[|lines| - 1].record] else init
  }

  lemma {:induction false} RecordsConcat(a: seq<Line>, b: seq<Line>)
    ensures Records(a + b) == Records(a) + Records(b)
  {
    if b == [] {
      assert a + b == a;
    } else {
      RecordsConcat(a, b[..|b| - 1]);
      assert (a + b)[..|a + b| - 1] == a + b[..|b| - 1];
    }
  }

  ghost predicate Readable(lines: seq<Line>) {
    Malformed !in lines
  }

  ghost function Joined(files: map<nat, seq<Line>>, names: seq<nat>): seq<Line>
    requires forall n :: n in names ==> n in files
  {
    if names == [] then [] else
      Joined(files, names[..|names| - 1]) + files[names[|names| - 1]]
  }

  /** All lines of the directory, file by file in name order. Names are times, so their order is that of creation. */
  ghost function AllLines(files: map<nat, seq<Line>>): seq<Line> {
    NatOrder();
    ListedFiles(files);
    Joined(files, SortedListing(files.Keys, NatLe))
  }

  lemma ListedFiles(files: map<nat, seq<Line>>)
    ensures TotalOrder(NatLe) && forall n :: n in SortedListing(files.Keys, NatLe) <==> n in files
  {
    NatOrder();
    var names := SortedListing(files.Keys, NatLe);
    assert forall n :: n in names <==> n in Elements(names);
  }

  ghost function Log(files: map<nat, seq<Line>>): seq<Record> {
    Records(AllLines(files))
  }

  lemma {:induction false} JoinedAgree(files: map<nat, seq<Line>>, files': map<nat, seq<Line>>, names: seq<nat>)
    requires forall n :: n in names ==> n in files && n in files' && files[n] == files'[n]
    ensures Joined(files, names) == Joined(files', names)
  {
    if names != [] {
      JoinedAgree(files, files', names[..|names| - 1]);
    }
  }

  ghost predicate Newest(files: map<nat, seq<Line>>, f: nat) {
    forall n :: n in files ==> n <= f
  }

  lemma NewestIsLast(files: map<nat, seq<Line>>, f: nat)
    requires Newest(files, f) && f in files
    ensures TotalOrder(NatLe)
    ensures var names := SortedListing(files.Keys, NatLe); names != [] && names[|names| - 1] == f && f !in names[..|names| - 1]
  {
    ListedFiles(files);
    var names := SortedListing(files.Keys, NatLe);
    assert f in names;
    var i :| 0 <= i < |names| && names[i] == f;
    var k := |names| - 1;
    assert names[k] in files;
    forall j | 0 <= j < k ensures names[..k][j] != f {
      assert names[j] != names[k];
    }
  }

  lemma NewFileIsLast(files: map<nat, seq<Line>>, f: nat, line: Line)
    requires Newest(files, f) && f !in files
    ensures TotalOrder(NatLe)
    ensures SortedListing(files[f := [line]].Keys, NatLe) == SortedListing(files.Keys, NatLe) + [f]
  {
    ListedFiles(files);
    var files' := files[f := [line]];
    var names := SortedListing(files.Keys, NatLe);
    forall j | 0 <= j < |names| ensures NatLe(names[j], f) && names[j] != f {
      assert names[j] in files;
    }
    assert Elements(names + [f]) == Elements(names) + {f} == files'.Keys;
    assert Lists(names + [f], files'.Keys, NatLe);
    ListsUnique(names + [f], SortedListing(files'.Keys, NatLe), files'.Keys, NatLe);
  }

  lemma WriteToNewest(files: map<nat, seq<Line>>, f: nat, line: Line)
    requires Newest(files, f) && f in files
    ensures AllLines(files[f := files[f] + [line]]) == AllLines(files) + [line]
  {
    ListedFiles(files);
    var names := SortedListing(files.Keys, NatLe);
    var files' := files[f := files[f] + [line]];
    assert files'.Keys == files.Keys;
    NewestIsLast(files, f);
    var init := names[..|names| - 1];
    JoinedAgree(files, files', init);
    assert Joined(files, init) + (files[f] + [line]) == Joined(files, init) + files[f] + [line];
  }

  lemma WriteNewFile(files: map<nat, seq<Line>>, f: nat, line: Line)
    requires Newest(files, f) && f !in files
    ensures AllLines(files[f := [line]]) == AllLines(files) + [line]
  {
    ListedFiles(files);
    var names := SortedListing(files.Keys, NatLe);
    var files' := files[f := [line]];
    NewFileIsLast(files, f, line);
    JoinedAgree(files, files', names);
    assert (names + [f])[..|names|] == names;
  }

  /** OpenOptions create + append. */
  function Written(files: map<nat, seq<Line>>, f: nat, line: Line): map<nat, seq<Line>> {
    if f in files then files[f := files[f] + [line]] else files[f := [line]]
  }

  /** A line is written to the end of its own file, and no other file changes. */
  lemma WrittenIs(files: map<nat, seq<Line>>, f: nat, line: Line)
    ensures var after := Written(files, f, line);
            && after.Keys == files.Keys + {f}
            && after[f] == (if f in files then files[f] else []) + [line]
            && forall g :: g in files && g != f ==> after[g] == files[g]
  {
  }

  /** A line written to the newest file, new or not, goes to the end of everything. */
  lemma WriteGoesLast(files: map<nat, seq<Line>>, f: nat, line: Line)
    requires Newest(files, f)
    ensures AllLines(Written(files, f, line)) == AllLines(files) + [line]
    ensures Newest(Written(files, f, line), f)
  {
    if f in files { WriteToNewest(files, f, line); } else { WriteNewFile(files, f, line); }
  }

  // ---------- queries ----------

  datatype AuditQuery = AuditQuery(
    since: Option<int>,
    until: Option<int>,
    operation: Option<string>,
    apiKeyId: Option<string>,
    organizationId: Option<string>,
    pathPattern: Option<string>,
    success: Option<bool>,
    limit: Option<nat>,
    offset: Option<nat>)

  const USIZE_MAX: nat := 0xffff_ffff_ffff_ffff

  function LimitOf(q: AuditQuery): nat { if q.limit.Some? then q.limit.value else USIZE_MAX }

  function OffsetOf(q: AuditQuery): nat { if q.offset.Some? then q.offset.value else 0 }

  /** str::contains. */
  predicate Contains(s: string, part: string) {
    part <= s || (s != [] && Contains(s[1..], part))
  }

  predicate Matches(q: AuditQuery, r: Record) {
    && (q.since.Some? ==> r.entry.timestamp >= q.since.value)
    && (q.until.Some? ==> r.entry.timestamp < q.until.value)
    && (q.operation.Some? ==> r.entry.operation == q.operation.value)
    && (q.apiKeyId.Some? ==> r.entry.apiKeyId == q.apiKeyId)
    && (q.organizationId.Some? ==> r.entry.organizationId == q.organizationId)
    && (q.pathPattern.Some? ==> Contains(r.entry.path, q.pathPattern.value))
    && (q.success.Some? ==> r.entry.success == q.success.value)
  }

  ghost predicate StandsAt(s: string, part: string, i: int) {
    0 <= i && i + |part| <= |s| && s[i..i + |part|] == part
  }

  /** Containing is standing somewhere. */
  lemma {:induction false} ContainsIff(s: string, part: string)
    ensures Contains(s, part) <==> exists i :: StandsAt(s, part, i)
  {
    if part <= s {
      assert StandsAt(s, part, 0);
    } else if s == [] {
      assert !StandsAt(s, part, 0);
    } else {
      ContainsIff(s[1..], part);
      if i :| StandsAt(s[1..], part, i) {
        assert s[i + 1..i + 1 + |part|] == s[1..][i..i + |part|];
        assert StandsAt(s, part, i + 1);
      }
      if i :| StandsAt(s, part, i) {
        assert i != 0;
        assert s[i..i + |part|] == s[1..][i - 1..i - 1 + |part|];
        assert StandsAt(s[1..], part, i - 1);
      }
    }
  }

  const ANYTHING := AuditQuery(None, None, None, None, None, None, None, None, None)

  /** The time filters bound the entry's time, from below including and from above excluding the bound; the limits select nothing. */
  lemma TimeFilters(q: AuditQuery, r: Record)
    ensures Matches(q, r) <==>
            && Matches(q.(since := None, until := None), r)
            && (q.since.Some? ==> q.since.value <= r.entry.timestamp) && (q.until.Some? ==> r.entry.timestamp < q.until.value)
    ensures Matches(q, r) <==> Matches(q.(limit := None, offset := None), r)
    ensures Matches(ANYTHING, r)
  {
  }

  /** Each other filter asks for one field of the entry, whatever the rest ask. */
  lemma FieldFilters(q: AuditQuery, r: Record)
    ensures q.operation.Some? ==> (Matches(q, r) <==> Matches(q.(operation := None), r) && r.entry.operation == q.operation.value)
    ensures q.apiKeyId.Some? ==> (Matches(q, r) <==> Matches(q.(apiKeyId := None), r) && r.entry.apiKeyId == Some(q.apiKeyId.value))
    ensures q.organizationId.Some? ==>
              (Matches(q, r) <==> Matches(q.(organizationId := None), r) && r.entry.organizationId == Some(q.organizationId.value))
    ensures q.success.Some? ==> (Matches(q, r) <==> Matches(q.(success := None), r) && r.entry.success == q.success.value)
    ensures q.pathPattern.Some? ==>
              (Matches(q, r) <==> Matches(q.(pathPattern := None), r) && exists i :: StandsAt(r.entry.path, q.pathPattern.value, i))
  {
    if q.pathPattern.Some? { ContainsIff(r.entry.path, q.pathPattern.value); }
  }

  ghost predicate Increasing(at: seq<nat>) {
    forall j, k :: 0 <= j < k < |at| ==> at[j] < at[k]
  }

  /** The positions of the matching records. */
  ghost predicate MatchingAt(log: seq<Record>, q: AuditQuery, at: seq<nat>) {
    forall i: nat :: i in at <==> i < |log| && Matches(q, log[i])
  }

  ghost predicate StandAt(records: seq<Record>, log: seq<Record>, at: seq<nat>) {
    |records| == |at| && forall k :: 0 <= k < |at| ==> at[k] < |log| && records[k] == log[at[k]]
  }

  /** One more record, and its position if it matches. */
  ghost function WithLast(at: seq<nat>, log: seq<Record>, q: AuditQuery): seq<nat>
    requires log != []
  {
    if Matches(q, log[|log| - 1]) then at + [|log| - 1] else at
  }

  lemma MatchingStep(log: seq<Record>, q: AuditQuery, at: seq<nat>)
    requires log != [] && Increasing(at) && MatchingAt(log[..|log| - 1], q, at)
    ensures Increasing(WithLast(at, log, q)) && MatchingAt(log, q, WithLast(at, log, q))
  {
    assert forall k :: 0 <= k < |at| ==> at[k] in at;
  }

  lemma StandStep(log: seq<Record>, q: AuditQuery, at: seq<nat>)
    requires log != [] && StandAt(Filter(log[..|log| - 1], q), log[..|log| - 1], at)
    ensures StandAt(Filter(log, q), log, WithLast(at, log, q))
  {
  }

  /** The records that a filter lets through are the matching ones, in the order of the log; `at` is where they stand. */
  lemma {:induction false} FilterExact(log: seq<Record>, q: AuditQuery) returns (at: seq<nat>)
    ensures Increasing(at) && MatchingAt(log, q, at) && StandAt(Filter(log, q), log, at)
  {
    at := [];
    if log != [] {
      var init := FilterExact(log[..|log| - 1], q);
      MatchingStep(log, q, init);
      StandStep(log, q, init);
      at := WithLast(init, log, q);
    }
  }

  /** A page starts at the offset and holds what there is, up to the limit. */
  lemma PageIs<T>(s: seq<T>, offset: nat, limit: nat)
    ensures |Page(s, offset, limit)| == if |s| <= offset then 0 else Min(limit, |s| - offset)
    ensures forall k :: 0 <= k < |Page(s, offset, limit)| ==> Page(s, offset, limit)[k] == s[offset + k]
  {
  }

  function Filter(log: seq<Record>, q: AuditQuery): seq<Record> {
    if log == [] then []
    else
      var init := Filter(log[..|log| - 1], q);
      if Matches(q, log[|log| - 1]) then init + [log[|log| - 1]] else init
  }

  lemma {:induction false} FilterConcat(a: seq<Record>, b: seq<Record>, q: AuditQuery)
    ensures Filter(a + b, q) == Filter(a, q) + Filter(b, q)
  {
    if b == [] {
      assert a + b == a;
    } else {
      FilterConcat(a, b[..|b| - 1], q);
      assert (a + b)[..|a + b| - 1] == a + b[..|b| - 1];
    }
  }

  /** skip, then take. */
  function Page<T>(s: seq<T>, offset: nat, limit: nat): seq<T> {
    var from := Min(offset, |s|);
    s[from..from + Min(limit, |s| - from)]
  }

  /** query_memory: filter, skip, take. */
  function QueryMemory(log: seq<Record>, q: AuditQuery): seq<Record> {
    Page(Filter(log, q), OffsetOf(q), LimitOf(q))
  }

  /** Without a limit a query returns everything that matches from the offset on, and with one the first so many of it. */
  lemma QueryReturns(log: seq<Record>, q: AuditQuery)
    requires |log| < 0x1_0000_0000_0000_0000
    ensures var m, skip := |Filter(log, q)|, if q.offset.Some? then q.offset.value else 0;
            var rest := if m <= skip then 0 else m - skip;
            && |QueryMemory(log, q)| == (if q.limit.Some? then Min(q.limit.value, rest) else rest)
            && forall k :: 0 <= k < |QueryMemory(log, q)| ==> QueryMemory(log, q)[k] == Filter(log, q)[skip + k]
  {
    FilterShrinks(log, q);
    PageIs(Filter(log, q), OffsetOf(q), LimitOf(q));
  }

  lemma {:induction false} FilterShrinks(log: seq<Record>, q: AuditQuery)
    ensures |Filter(log, q)| <= |log|
  {
    if log != [] { FilterShrinks(log[..|log| - 1], q); }
  }

  /** The file query tests its limit only after adding a record, so it never stops short of one. */
  function FileLimit(q: AuditQuery): nat {
    if LimitOf(q) == 0 then 1 else LimitOf(q)
  }

  function QueryAllFiles(log: seq<Record>, q: AuditQuery): seq<Record> {
    Page(Filter(log, q), OffsetOf(q), FileLimit(q))
  }

  /** The two agree exactly when the limit is positive or nothing matches beyond the offset. */
  lemma QueriesAgree(log: seq<Record>, q: AuditQuery)
    ensures QueryAllFiles(log, q) == QueryMemory(log, q) <==> 0 < LimitOf(q) || |Filter(log, q)| <= OffsetOf(q)
  {
    if LimitOf(q) == 0 {
      assert |QueryMemory(log, q)| == 0;
      assert |QueryAllFiles(log, q)| == if |Filter(log, q)| <= OffsetOf(q) then 0 else 1;
    }
  }

  /** Once a page is full, more records do not change it. */
  lemma FullPage<T>(s: seq<T>, more: seq<T>, offset: nat, limit: nat)
    requires |Page(s, offset, limit)| == limit
    ensures Page(s + more, offset, limit) == Page(s, offset, limit)
  {
  }
}
