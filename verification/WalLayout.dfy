/**
 The write-ahead log of crates/streamhouse-api/src/pitr.rs as data: hash-chained entries, segments
 filed in key order, expiry of old segments, and verification of segments in any condition.
 */
module WalLayout {
  import opened Ordering
  import opened OrderedMap
  import opened SystemState

  type HashFn = (nat, int, WalOperation, string) -> string

  datatype WalSegment = WalSegment(startLsn: nat, endLsn: nat, entries: seq<WalEntry>, createdAt: int, closedAt: Option<int>)

  datatype VerificationError = HashMismatch(lsn: nat) | ChainBroken(lsn: nat)

  datatype VerificationResult = VerificationResult(verifiedEntries: nat, errors: seq<VerificationError>, isValid: bool)

  // ---------- entries and their chain ----------

  function NewEntry(h: HashFn, lsn: nat, now: int, op: WalOperation, prevHash: string): (e: WalEntry)
    ensures Verifies(h, e)
  {
    WalEntry(lsn, now, op, prevHash, h(lsn, now, op, prevHash))
  }

  predicate Verifies(h: HashFn, e: WalEntry) {
    e.hash == h(e.lsn, e.timestamp, e.operation, e.prevHash)
  }

  ghost function HashAt(log: seq<WalEntry>, n: nat, genesis: string): string
    requires n <= |log|
  {
    if n == 0 then genesis else log[n - 1].hash
  }

  /** Numbered 1, 2, 3, ..., each entry carrying its own hash and its predecessor's. */
  ghost predicate Chained(log: seq<WalEntry>, h: HashFn, genesis: string) {
    forall i :: 0 <= i < |log| ==> Linked(log, i, h, genesis)
  }

  ghost predicate Linked(log: seq<WalEntry>, i: nat, h: HashFn, genesis: string)
    requires i < |log|
  {
    log[i].lsn == i + 1 && Verifies(h, log[i]) && log[i].prevHash == HashAt(log, i, genesis)
  }

  lemma ChainedAppend(log: seq<WalEntry>, e: WalEntry, h: HashFn, genesis: string)
    requires Chained(log, h, genesis)
    requires e.lsn == |log| + 1 && Verifies(h, e) && e.prevHash == HashAt(log, |log|, genesis)
    ensures Chained(log + [e], h, genesis)
  {
    forall i | 0 <= i <= |log| ensures Linked(log + [e], i, h, genesis) {
      if i < |log| { assert Linked(log, i, h, genesis); }
    }
  }

  /** Two entries that differ in something the hash covers, and have one hash. */
  ghost predicate Collide(d: WalEntry, e: WalEntry) {
    d.hash == e.hash && (d.lsn != e.lsn || d.timestamp != e.timestamp || d.operation != e.operation || d.prevHash != e.prevHash)
  }

  /** The collision is one of the hash function, not of the log. */
  lemma CollisionIsReal(h: HashFn, d: WalEntry, e: WalEntry)
    requires Verifies(h, d) && Verifies(h, e) && Collide(d, e)
    ensures h(d.lsn, d.timestamp, d.operation, d.prevHash) == h(e.lsn, e.timestamp, e.operation, e.prevHash)
    ensures (d.lsn, d.timestamp, d.operation, d.prevHash) != (e.lsn, e.timestamp, e.operation, e.prevHash)
  {
  }

  ghost predicate SomeCollide(a: seq<WalEntry>, b: seq<WalEntry>) {
    exists d, e :: d in a && e in b && Collide(d, e)
  }

  /** Two chained logs that end in the same hash are the same log, or contain a collision. */
  lemma {:induction false} WalBinds(a: seq<WalEntry>, b: seq<WalEntry>, h: HashFn, genesis: string)
    requires Chained(a, h, genesis) && Chained(b, h, genesis) && a != [] && b != []
    requires a[|a| - 1].hash == b[|b| - 1].hash
    ensures a == b || SomeCollide(a, b)
  {
    var m, n := |a| - 1, |b| - 1;
    assert Linked(a, m, h, genesis) && Linked(b, n, h, genesis);
    assert a[m] in a && b[n] in b;
    if !Collide(a[m], b[n]) {
      assert a[m] == b[n] && m == n;
      if 0 < m {
        ChainedPrefix(a, h, genesis, m);
        ChainedPrefix(b, h, genesis, n);
        WalBinds(a[..m], b[..n], h, genesis);
        BoundSoFar(a, b);
      }
    }
  }

  lemma ChainedPrefix(log: seq<WalEntry>, h: HashFn, genesis: string, n: nat)
    requires Chained(log, h, genesis) && n <= |log|
    ensures Chained(log[..n], h, genesis)
  {
    forall i | 0 <= i < n ensures Linked(log[..n], i, h, genesis) {
      assert Linked(log, i, h, genesis);
    }
  }

  lemma BoundSoFar(a: seq<WalEntry>, b: seq<WalEntry>)
    requires a != [] && |a| == |b| && a[|a| - 1] == b[|b| - 1]
    requires a[..|a| - 1] == b[..|b| - 1] || SomeCollide(a[..|a| - 1], b[..|b| - 1])
    ensures a == b || SomeCollide(a, b)
  {
    var k := |a| - 1;
    assert a == a[..k] + [a[k]] && b == b[..k] + [b[k]];
    if SomeCollide(a[..k], b[..k]) {
      var d, e :| d in a[..k] && e in b[..k] && Collide(d, e);
      assert d in a && e in b;
    }
  }

  /** Stamps do not go back, nor past the clock. */
  ghost predicate Timed(log: seq<WalEntry>, clock: int) {
    && (forall i, j :: 0 <= i < j < |log| ==> StampsAgree(log, i, j))
    && (forall i :: 0 <= i < |log| ==> StampedBy(log, i, clock))
  }

  ghost predicate StampsAgree(log: seq<WalEntry>, i: nat, j: nat)
    requires i < j < |log|
  {
    log[i].timestamp <= log[j].timestamp
  }

  ghost predicate StampedBy(log: seq<WalEntry>, i: nat, clock: int)
    requires i < |log|
  {
    log[i].timestamp <= clock
  }

  lemma TimedLater(log: seq<WalEntry>, clock: int, now: int)
    requires Timed(log, clock) && clock <= now
    ensures Timed(log, now)
  {
    forall i | 0 <= i < |log| ensures StampedBy(log, i, now) {
      assert StampedBy(log, i, clock);
    }
  }

  lemma TimedAppend(log: seq<WalEntry>, clock: int, e: WalEntry)
    requires Timed(log, clock) && clock <= e.timestamp
    ensures Timed(log + [e], e.timestamp)
  {
    var r := log + [e];
    forall i | 0 <= i < |r| ensures StampedBy(r, i, e.timestamp) {
      if i < |log| { assert StampedBy(log, i, clock); }
    }
    forall i, j | 0 <= i < j < |r| ensures StampsAgree(r, i, j) {
      if j < |log| { assert StampsAgree(log, i, j); } else { assert StampedBy(r, i, e.timestamp); }
    }
  }

  // ---------- segments ----------

  /** How many entries precede the segment. */
  ghost function Before(s: WalSegment): int {
    s.endLsn - |s.entries|
  }

  /** A closed segment holds its stretch of the history and is filed under its first LSN (0 for the very first). */
  ghost predicate Holds(segs: seq<(nat, WalSegment)>, i: nat, history: seq<WalEntry>)
    requires i < |segs|
  {
    var s := segs[i].1;
    && 0 <= Before(s) < s.endLsn <= |history|
    && s.entries == history[Before(s)..s.endLsn]
    && segs[i].0 == s.startLsn
    && (s.startLsn == Before(s) + 1 || (s.startLsn == 0 && Before(s) == 0))
    && s.closedAt.Some?
  }

  /** The archived segments, in key order, hold history[lo..hi] with no gap and no overlap. */
  ghost predicate Contiguous(segs: seq<(nat, WalSegment)>, lo: nat, hi: nat, history: seq<WalEntry>) {
    && lo <= hi <= |history|
    && (forall i :: 0 <= i < |segs| ==> Holds(segs, i, history))
    && (forall i :: 0 <= i < |segs| ==> Follows(segs, i, lo))
    && hi == EndOf(segs, |segs|, lo)
  }

  /** Segment `i` starts where the one before it ends. */
  ghost predicate Follows(segs: seq<(nat, WalSegment)>, i: nat, lo: nat)
    requires i < |segs|
  {
    Before(segs[i].1) == EndOf(segs, i, lo)
  }

  /** Where the first `n` segments end. */
  ghost function EndOf(segs: seq<(nat, WalSegment)>, n: nat, lo: nat): nat
    requires n <= |segs|
  {
    if n == 0 then lo else segs[n - 1].1.endLsn
  }

  /** Segments were closed in archive order, none after the clock. */
  ghost predicate ClosedInOrder(segs: seq<(nat, WalSegment)>, clock: int) {
    && (forall i :: 0 <= i < |segs| ==> ClosedBy(segs, i, clock))
    && (forall i, j :: 0 <= i < j < |segs| ==> ClosedBefore(segs, i, j))
  }

  ghost predicate ClosedBy(segs: seq<(nat, WalSegment)>, i: nat, clock: int)
    requires i < |segs|
  {
    segs[i].1.closedAt.Some? && segs[i].1.closedAt.value <= clock
  }

  ghost predicate ClosedBefore(segs: seq<(nat, WalSegment)>, i: nat, j: nat)
    requires i < j < |segs|
  {
    segs[j].1.closedAt.Some? && ClosedBy(segs, i, segs[j].1.closedAt.value)
  }

  lemma ClosedLater(segs: seq<(nat, WalSegment)>, clock: int, now: int)
    requires ClosedInOrder(segs, clock) && clock <= now
    ensures ClosedInOrder(segs, now)
  {
    forall i | 0 <= i < |segs| ensures ClosedBy(segs, i, now) {
      assert ClosedBy(segs, i, clock);
    }
  }

  lemma ClosedAppend(segs: seq<(nat, WalSegment)>, clock: int, k: nat, s: WalSegment)
    requires ClosedInOrder(segs, clock) && s.closedAt.Some? && clock <= s.closedAt.value
    ensures ClosedInOrder(segs + [(k, s)], s.closedAt.value)
  {
    var r := segs + [(k, s)];
    forall i | 0 <= i < |r| ensures ClosedBy(r, i, s.closedAt.value) {
      if i < |segs| { assert ClosedBy(segs, i, clock); }
    }
    forall i, j | 0 <= i < j < |r| ensures ClosedBefore(r, i, j) {
      if j < |segs| { assert ClosedBefore(segs, i, j); } else { assert ClosedBy(r, i, s.closedAt.value); }
    }
  }

  lemma ClosedDrop(segs: seq<(nat, WalSegment)>, clock: int, n: nat)
    requires ClosedInOrder(segs, clock) && n <= |segs|
    ensures ClosedInOrder(segs[n..], clock)
  {
    forall i | 0 <= i < |segs| - n ensures ClosedBy(segs[n..], i, clock) {
      assert ClosedBy(segs, n + i, clock);
    }
    forall i, j | 0 <= i < j < |segs| - n ensures ClosedBefore(segs[n..], i, j) {
      assert ClosedBefore(segs, n + i, n + j);
    }
  }

  lemma {:induction false} EndsIncrease(segs: seq<(nat, WalSegment)>, lo: nat, hi: nat, history: seq<WalEntry>, i: nat, j: nat)
    requires Contiguous(segs, lo, hi, history) && i < j < |segs|
    ensures segs[i].1.endLsn <= Before(segs[j].1)
    ensures segs[i].0 < segs[j].0
    decreases j - i
  {
    assert Follows(segs, j, lo) && Holds(segs, i, history) && Holds(segs, j, history);
    if i + 1 < j {
      EndsIncrease(segs, lo, hi, history, i, j - 1);
      assert Holds(segs, j - 1, history);
    }
  }

  lemma SegmentBounds(segs: seq<(nat, WalSegment)>, lo: nat, hi: nat, history: seq<WalEntry>)
    requires Contiguous(segs, lo, hi, history)
    ensures Ordered(segs)
    ensures forall i :: 0 <= i < |segs| ==> lo <= Before(segs[i].1) < segs[i].1.endLsn <= hi && segs[i].0 <= hi
  {
    forall i, j | 0 <= i < j < |segs| ensures segs[i].0 < segs[j].0 {
      EndsIncrease(segs, lo, hi, history, i, j);
    }
    forall i | 0 <= i < |segs| ensures lo <= Before(segs[i].1) < segs[i].1.endLsn <= hi && segs[i].0 <= hi {
      assert Follows(segs, 0, lo) && Holds(segs, i, history) && Holds(segs, |segs| - 1, history);
      if 0 < i { EndsIncrease(segs, lo, hi, history, 0, i); }
      if i < |segs| - 1 { EndsIncrease(segs, lo, hi, history, i, |segs| - 1); }
    }
  }

  lemma ContiguousInit(segs: seq<(nat, WalSegment)>, lo: nat, hi: nat, history: seq<WalEntry>)
    requires Contiguous(segs, lo, hi, history) && segs != []
    ensures lo <= Before(segs[|segs| - 1].1)
    ensures Contiguous(segs[..|segs| - 1], lo, Before(segs[|segs| - 1].1), history)
  {
    SegmentBounds(segs, lo, hi, history);
    var init := segs[..|segs| - 1];
    assert Follows(segs, |init|, lo);
    forall i | 0 <= i < |init| ensures Follows(init, i, lo) && Holds(init, i, history) {
      assert Follows(segs, i, lo) && Holds(segs, i, history);
    }
  }

  /** The archive in key order, then the active segment, hold exactly history[dropped..]. */
  ghost predicate StoresSuffix(history: seq<WalEntry>, dropped: nat, clock: int,
                               archived: seq<(nat, WalSegment)>, active: WalSegment)
  {
    && active.closedAt.None? && active.endLsn == |history|
    && dropped <= Before(active)
    && Contiguous(archived, dropped, Before(active), history)
    && active.entries == history[Before(active)..]
    && (active.startLsn == Before(active) + 1 || (active.startLsn == 0 && Before(active) == 0 && archived == []))
    && ClosedInOrder(archived, clock)
  }

  lemma StoresAppended(history: seq<WalEntry>, dropped: nat, clock: int, archived: seq<(nat, WalSegment)>,
                       active: WalSegment, e: WalEntry, now: int)
    requires StoresSuffix(history, dropped, clock, archived, active) && clock <= now
    ensures StoresSuffix(history + [e], dropped, now, archived,
                         active.(entries := active.entries + [e], endLsn := |history| + 1))
  {
    ContiguousGrows(archived, dropped, Before(active), history, e);
    ClosedLater(archived, clock, now);
    assert (history + [e])[Before(active)..] == history[Before(active)..] + [e];
  }

  lemma ContiguousAppend(segs: seq<(nat, WalSegment)>, lo: nat, history: seq<WalEntry>, s: WalSegment)
    requires 0 <= Before(s) && Contiguous(segs, lo, Before(s), history) && Holds([(s.startLsn, s)], 0, history)
    ensures Contiguous(segs + [(s.startLsn, s)], lo, s.endLsn, history)
  {
    var segs' := segs + [(s.startLsn, s)];
    forall i | 0 <= i < |segs'| ensures Follows(segs', i, lo) && Holds(segs', i, history) {
      if i < |segs| { assert Follows(segs, i, lo) && Holds(segs, i, history); }
    }
  }

  /** Filing the active segment under its first LSN puts it at the end of the archive. */
  lemma StoresRotated(history: seq<WalEntry>, dropped: nat, clock: int, archived: seq<(nat, WalSegment)>,
                      active: WalSegment, now: int)
    requires StoresSuffix(history, dropped, clock, archived, active) && clock <= now
    ensures var fresh' := WalSegment(active.endLsn + 1, active.endLsn, [], now, None);
            if active.entries == [] then StoresSuffix(history, dropped, now, archived, fresh')
            else
              var closed := active.(closedAt := Some(now));
              && OrderedMap.Insert(archived, active.startLsn, closed) == archived + [(active.startLsn, closed)]
              && StoresSuffix(history, dropped, now, archived + [(active.startLsn, closed)], fresh')
  {
    if active.entries != [] {
      var closed := active.(closedAt := Some(now));
      SegmentBounds(archived, dropped, Before(active), history);
      InsertLast(archived, active.startLsn, closed);
      assert history[Before(active)..] == history[Before(active)..|history|];
      ContiguousAppend(archived, dropped, history, closed);
      ClosedAppend(archived, clock, active.startLsn, closed);
    } else {
      ClosedLater(archived, clock, now);
    }
  }

  ghost function Flatten(segs: seq<(nat, WalSegment)>): seq<WalEntry> {
    if segs == [] then [] else Flatten(segs[..|segs| - 1]) + segs[|segs| - 1].1.entries
  }

  lemma {:induction false} FlattenHistory(segs: seq<(nat, WalSegment)>, lo: nat, hi: nat, history: seq<WalEntry>)
    requires Contiguous(segs, lo, hi, history)
    ensures Flatten(segs) == history[lo..hi]
  {
    if segs != [] {
      var last := segs[|segs| - 1].1;
      ContiguousInit(segs, lo, hi, history);
      assert Holds(segs, |segs| - 1, history);
      FlattenHistory(segs[..|segs| - 1], lo, Before(last), history);
      assert history[lo..Before(last)] + history[Before(last)..hi] == history[lo..hi];
    }
  }

  /** More history does not disturb what the segments hold. */
  lemma ContiguousGrows(segs: seq<(nat, WalSegment)>, lo: nat, hi: nat, history: seq<WalEntry>, e: WalEntry)
    requires Contiguous(segs, lo, hi, history)
    ensures Contiguous(segs, lo, hi, history + [e])
  {
    forall i | 0 <= i < |segs| ensures Holds(segs, i, history + [e]) {
      var s := segs[i].1;
      assert Holds(segs, i, history);
      assert (history + [e])[Before(s)..s.endLsn] == history[Before(s)..s.endLsn];
    }
  }

  /** Dropping the first `n` segments leaves a contiguous rest. */
  lemma ContiguousDrop(segs: seq<(nat, WalSegment)>, lo: nat, hi: nat, history: seq<WalEntry>, n: nat)
    requires Contiguous(segs, lo, hi, history) && n <= |segs|
    ensures var lo' := EndOf(segs, n, lo);
            lo <= lo' && Contiguous(segs[n..], lo', hi, history)
  {
    SegmentBounds(segs, lo, hi, history);
    var lo' := EndOf(segs, n, lo);
    forall i | 0 <= i < |segs| - n ensures Follows(segs[n..], i, lo') && Holds(segs[n..], i, history) {
      assert Follows(segs, n + i, lo) && Holds(segs, n + i, history);
    }
  }

  // ---------- expiry ----------

  predicate Keeps(s: WalSegment, oldestBackup: nat, cutoff: int) {
    s.closedAt.None? || s.endLsn >= oldestBackup || s.closedAt.value > cutoff
  }

  /** `retain` on the archive. */
  function Retained(segs: seq<(nat, WalSegment)>, oldestBackup: nat, cutoff: int): seq<(nat, WalSegment)> {
    if segs == [] then []
    else
      var init := Retained(segs[..|segs| - 1], oldestBackup, cutoff);
      if Keeps(segs[|segs| - 1].1, oldestBackup, cutoff) then init + [segs[|segs| - 1]] else init
  }

  /** Where keeping is upward closed, `retain` keeps a suffix. */
  lemma {:induction false} RetainedSuffix(segs: seq<(nat, WalSegment)>, oldestBackup: nat, cutoff: int) returns (n: nat)
    requires forall i, j :: 0 <= i < j < |segs| && Keeps(segs[i].1, oldestBackup, cutoff) ==> Keeps(segs[j].1, oldestBackup, cutoff)
    ensures n <= |segs| && Retained(segs, oldestBackup, cutoff) == segs[n..]
    ensures forall i :: 0 <= i < |segs| ==> (n <= i <==> Keeps(segs[i].1, oldestBackup, cutoff))
  {
    if segs == [] {
      n := 0;
    } else {
      var k := |segs| - 1;
      var init := segs[..k];
      n := RetainedSuffix(init, oldestBackup, cutoff);
      assert forall i :: 0 <= i < k ==> init[i] == segs[i];
      if Keeps(segs[k].1, oldestBackup, cutoff) {
        assert segs[n..] == init[n..] + [segs[k]];
      } else {
        assert n == k;
        n := |segs|;
      }
    }
  }

  /** Expiry removes a prefix of the archive, and every segment it removes ends before the oldest backup. */
  lemma RetainedIsSuffix(segs: seq<(nat, WalSegment)>, lo: nat, hi: nat, history: seq<WalEntry>,
                         clock: int, oldestBackup: nat, cutoff: int) returns (n: nat)
    requires Contiguous(segs, lo, hi, history) && ClosedInOrder(segs, clock)
    ensures n <= |segs| && Retained(segs, oldestBackup, cutoff) == segs[n..]
    ensures forall i :: 0 <= i < |segs| ==> (n <= i <==> Keeps(segs[i].1, oldestBackup, cutoff))
  {
    forall i, j | 0 <= i < j < |segs| && Keeps(segs[i].1, oldestBackup, cutoff) ensures Keeps(segs[j].1, oldestBackup, cutoff) {
      EndsIncrease(segs, lo, hi, history, i, j);
      assert ClosedBefore(segs, i, j) && Holds(segs, j, history);
    }
    n := RetainedSuffix(segs, oldestBackup, cutoff);
  }

  // ---------- verification of arbitrary, possibly damaged, entries ----------

  function From(log: seq<WalEntry>, lsn: nat): seq<WalEntry> {
    if log == [] then []
    else
      var init := From(log[..|log| - 1], lsn);
      if log[|log| - 1].lsn >= lsn then init + [log[|log| - 1]] else init
  }

  lemma {:induction false} FromConcat(a: seq<WalEntry>, b: seq<WalEntry>, lsn: nat)
    ensures From(a + b, lsn) == From(a, lsn) + From(b, lsn)
  {
    if b == [] {
      assert a + b == a;
    } else {
      FromConcat(a, b[..|b| - 1], lsn);
      assert (a + b)[..|a + b| - 1] == a + b[..|b| - 1];
    }
  }

  /** Every entry carries its own hash, and every entry but the first names its predecessor's. */
  ghost predicate Intact(log: seq<WalEntry>, h: HashFn) {
    forall i :: 0 <= i < |log| ==> IntactAt(log, i, h)
  }

  ghost predicate IntactAt(log: seq<WalEntry>, i: nat, h: HashFn)
    requires i < |log|
  {
    Verifies(h, log[i]) && (0 < i ==> log[i].prevHash == log[i - 1].hash)
  }

  /** The complaints that a log deserves, in order: at each entry, a wrong hash, then a wrong predecessor. */
  ghost function ErrorsIn(log: seq<WalEntry>, h: HashFn): seq<VerificationError> {
    if log == [] then []
    else
      var k := |log| - 1;
      ErrorsIn(log[..k], h)
      + (if !Verifies(h, log[k]) then [HashMismatch(log[k].lsn)] else [])
      + (if 0 < k && log[k].prevHash != log[k - 1].hash then [ChainBroken(log[k].lsn)] else [])
  }

  ghost predicate MismatchAt(log: seq<WalEntry>, h: HashFn, i: int, lsn: nat) {
    0 <= i < |log| && log[i].lsn == lsn && log[i].hash != h(log[i].lsn, log[i].timestamp, log[i].operation, log[i].prevHash)
  }

  ghost predicate BreakAt(log: seq<WalEntry>, i: int, lsn: nat) {
    0 < i < |log| && log[i].lsn == lsn && log[i].prevHash != log[i - 1].hash
  }

  ghost predicate Mismatched(log: seq<WalEntry>, h: HashFn, lsn: nat) {
    exists i :: MismatchAt(log, h, i, lsn)
  }

  ghost predicate Broken(log: seq<WalEntry>, lsn: nat) {
    exists i :: BreakAt(log, i, lsn)
  }

  /** Exactly the wrong entries are complained of, each under its LSN and for what is wrong with it. */
  lemma {:induction false} ErrorsExact(log: seq<WalEntry>, h: HashFn, lsn: nat)
    ensures HashMismatch(lsn) in ErrorsIn(log, h) <==> Mismatched(log, h, lsn)
    ensures ChainBroken(lsn) in ErrorsIn(log, h) <==> Broken(log, lsn)
  {
    if log != [] {
      ErrorsExact(log[..|log| - 1], h, lsn);
      MismatchStep(log, h, lsn);
      BreakStep(log, lsn);
    }
  }

  lemma MismatchStep(log: seq<WalEntry>, h: HashFn, lsn: nat)
    requires log != []
    ensures Mismatched(log, h, lsn) <==> Mismatched(log[..|log| - 1], h, lsn) || MismatchAt(log, h, |log| - 1, lsn)
  {
    var init := log[..|log| - 1];
    forall i | 0 <= i < |init| ensures MismatchAt(log, h, i, lsn) <==> MismatchAt(init, h, i, lsn) {
      assert init[i] == log[i];
    }
    if i :| MismatchAt(init, h, i, lsn) { assert MismatchAt(log, h, i, lsn); }
    if i :| MismatchAt(log, h, i, lsn) { assert i < |init| ==> MismatchAt(init, h, i, lsn); }
  }

  lemma BreakStep(log: seq<WalEntry>, lsn: nat)
    requires log != []
    ensures Broken(log, lsn) <==> Broken(log[..|log| - 1], lsn) || BreakAt(log, |log| - 1, lsn)
  {
    var init := log[..|log| - 1];
    forall i | 0 < i < |init| ensures BreakAt(log, i, lsn) <==> BreakAt(init, i, lsn) {
      assert init[i] == log[i] && init[i - 1] == log[i - 1];
    }
    if i :| BreakAt(init, i, lsn) { assert BreakAt(log, i, lsn); }
    if i :| BreakAt(log, i, lsn) { assert i < |init| ==> BreakAt(init, i, lsn); }
  }

  /** There is nothing to complain of exactly when the log is intact. */
  lemma {:induction false} NoErrorsIff(log: seq<WalEntry>, h: HashFn)
    ensures ErrorsIn(log, h) == [] <==> Intact(log, h)
  {
    if log != [] {
      var k := |log| - 1;
      NoErrorsIff(log[..k], h);
      assert log == log[..k] + [log[k]];
      IntactStep(log[..k], log[k], h);
    }
  }

  ghost function LastHash(log: seq<WalEntry>): Option<string> {
    if log == [] then None else Some(log[|log| - 1].hash)
  }

  /** The two tests of one entry. */
  method CheckEntry(h: HashFn, e: WalEntry, errors: seq<VerificationError>, prev: Option<string>, ghost seen: seq<WalEntry>)
    returns (errors': seq<VerificationError>)
    requires prev == LastHash(seen) && errors == ErrorsIn(seen, h)
    ensures errors' == ErrorsIn(seen + [e], h)
  {
    assert (seen + [e])[..|seen|] == seen;
    errors' := errors;
    if !Verifies(h, e) {
      errors' := errors' + [HashMismatch(e.lsn)];
    }
    if prev.Some? && e.prevHash != prev.value {
      errors' := errors' + [ChainBroken(e.lsn)];
    }
  }

  lemma SeenStep(seen: seq<WalEntry>, entries: seq<WalEntry>, i: nat, lsn: nat)
    requires i < |entries|
    ensures var before := seen + From(entries[..i], lsn);
            seen + From(entries[..i + 1], lsn) == if entries[i].lsn >= lsn then before + [entries[i]] else before
  {
    assert entries[..i + 1][..i] == entries[..i];
  }

  /** The body shared by the two loops of verify_wal_integrity. */
  method VerifyEntries(h: HashFn, entries: seq<WalEntry>, fromLsn: nat, ghost seen: seq<WalEntry>,
                       count: nat, errors: seq<VerificationError>, prev: Option<string>)
    returns (count': nat, errors': seq<VerificationError>, prev': Option<string>)
    requires count == |seen| && prev == LastHash(seen) && errors == ErrorsIn(seen, h)
    ensures var all := seen + From(entries, fromLsn);
            count' == |all| && prev' == LastHash(all) && errors' == ErrorsIn(all, h)
  {
    count', errors', prev' := count, errors, prev;
    ghost var all := seen;
    assert entries[..0] == [] && all == seen + From([], fromLsn);
    for i := 0 to |entries|
      invariant all == seen + From(entries[..i], fromLsn)
      invariant count' == |all| && prev' == LastHash(all) && errors' == ErrorsIn(all, h)
    {
      var e := entries[i];
      SeenStep(seen, entries, i, fromLsn);
      if e.lsn >= fromLsn {
        errors' := CheckEntry(h, e, errors', prev', all);
        prev' := Some(e.hash);
        count' := count' + 1;
        all := all + [e];
      }
    }
    assert entries[..|entries|] == entries;
  }

  lemma IntactStep(log: seq<WalEntry>, e: WalEntry, h: HashFn)
    ensures Intact(log + [e], h) <==> Intact(log, h) && Verifies(h, e) && (log != [] ==> e.prevHash == log[|log| - 1].hash)
  {
    var r := log + [e];
    assert r[|log|] == e;
    assert IntactAt(r, |log|, h) <==> Verifies(h, e) && (log != [] ==> e.prevHash == log[|log| - 1].hash);
    forall i | 0 <= i < |log| ensures IntactAt(r, i, h) <==> IntactAt(log, i, h) {
      assert r[i] == log[i] && (0 < i ==> r[i - 1] == log[i - 1]);
    }
  }

  /** verify_wal_integrity, on any segments: valid exactly when the entries from `fromLsn` on form an intact chain. */
  method VerifySegments(h: HashFn, archived: seq<(nat, WalSegment)>, active: WalSegment, fromLsn: nat)
    returns (r: VerificationResult)
    ensures var all := From(Flatten(archived) + active.entries, fromLsn);
            r.verifiedEntries == |all| && r.errors == ErrorsIn(all, h) && (r.isValid <==> Intact(all, h))
  {
    var count, errors, prev := 0, [], None;
    assert archived[..0] == [];
    for i := 0 to |archived|
      invariant var all := From(Flatten(archived[..i]), fromLsn);
                count == |all| && prev == LastHash(all) && errors == ErrorsIn(all, h)
    {
      assert archived[..i + 1][..i] == archived[..i];
      FromConcat(Flatten(archived[..i]), archived[i].1.entries, fromLsn);
      count, errors, prev := VerifyEntries(h, archived[i].1.entries, fromLsn, From(Flatten(archived[..i]), fromLsn), count, errors, prev);
    }
    assert archived[..|archived|] == archived;
    FromConcat(Flatten(archived), active.entries, fromLsn);
    count, errors, prev := VerifyEntries(h, active.entries, fromLsn, From(Flatten(archived), fromLsn), count, errors, prev);
    r := VerificationResult(count, errors, errors == []);
    NoErrorsIff(From(Flatten(archived) + active.entries, fromLsn), h);
  }

  ghost function Clamp(x: int, lo: nat, hi: nat): nat
    requires lo <= hi
  {
    if x < lo then lo else if hi < x then hi else x
  }

  lemma StretchIntact(history: seq<WalEntry>, h: HashFn, genesis: string, lo: nat, hi: nat)
    requires Chained(history, h, genesis) && lo <= hi <= |history|
    ensures Intact(history[lo..hi], h)
  {
    var s := history[lo..hi];
    forall i | 0 <= i < |s| ensures IntactAt(s, i, h) {
      assert s[i] == history[lo + i] && (0 < i ==> s[i - 1] == history[lo + i - 1]);
      assert Linked(history, lo + i, h, genesis);
    }
  }

  lemma SliceSnoc<T>(s: seq<T>, a: nat, b: nat)
    requires a < b <= |s|
    ensures s[a..b] == s[a..b - 1] + [s[b - 1]]
  {
  }

  /** On a gap-free stretch of the history, filtering by LSN takes a suffix. */
  lemma {:induction false} FromHistory(history: seq<WalEntry>, h: HashFn, genesis: string, lo: nat, hi: nat, lsn: nat)
    requires Chained(history, h, genesis) && lo <= hi <= |history|
    ensures From(history[lo..hi], lsn) == history[Clamp(lsn - 1, lo, hi)..hi]
    decreases hi - lo
  {
    if lo < hi {
      FromHistory(history, h, genesis, lo, hi - 1, lsn);
      assert Linked(history, hi - 1, h, genesis);
      var s := history[lo..hi];
      assert s[..|s| - 1] == history[lo..hi - 1];
      assert s[|s| - 1] == history[hi - 1];
      var k := Clamp(lsn - 1, lo, hi - 1);
      if lsn <= hi {
        SliceSnoc(history, k, hi);
      }
    }
  }
}
