/**
 Point-in-time recovery (crates/streamhouse-api/src/pitr.rs): a hash-chained write-ahead log in
 segments, base backups, two retention policies, and recovery by backup and replay.

 SHA-256 and the JSON size of an entry are arbitrary functions given at construction; the clock is
 an argument of every call that reads it and does not go back. `history` remembers every entry ever
 logged; the object invariant says how the segments still store a suffix of it.
 */
module Pitr {
  import opened Ordering
  import opened OrderedMap
  import opened SystemState
  import opened WalLayout

  datatype PitrConfig = PitrConfig(
    baseBackupInterval: nat,
    walRetention: nat,
    walSegmentSize: nat,
    verifyWal: bool,
    compressBackups: bool,
    backupRetentionCount: nat)
  {
    predicate Validate() {
      baseBackupInterval != 0 && baseBackupInterval <= walRetention && backupRetentionCount != 0
    }
  }

  /** The longest retention, in milliseconds, that the time library can hold as a duration. */
  const MAX_RETENTION := 0x7fff_ffff_ffff_ffff

  /** What the libraries contribute: JSON sizes, the checksum of a snapshot, and the earliest time that can be represented. */
  datatype Library = Library(
    entrySize: WalEntry -> nat,
    snapshotSize: SystemSnapshot -> nat,
    checksum: SystemSnapshot -> string,
    earliest: int)

  datatype BackupMetadata = BackupMetadata(topicCount: nat, consumerGroupCount: nat, aclCount: nat, userCount: nat, schemaCount: nat)

  datatype BackupStatus = InProgress | Completed | Failed(error: string) | Deleted

  datatype BaseBackup = BaseBackup(
    id: string,
    createdAt: int,
    startLsn: nat,
    endLsn: nat,
    sizeBytes: nat,
    checksum: string,
    compressed: bool,
    status: BackupStatus,
    metadata: BackupMetadata)

  datatype RecoveryTarget = Timestamp(time: int) | Lsn(lsn: nat) | Latest | Backup(id: string)

  datatype PitrError = Config | TimeOverflow | Wal(lsn: nat) | InvalidTimestamp | NoBackupAvailable | BackupNotFound | SnapshotNotFound

  datatype Result<+T> = Ok(value: T) | Err(error: PitrError) {
    /** `?` followed by a value. */
    function Then<U>(next: U): Result<U> {
      match this
      case Ok(_) => Ok(next)
      case Err(e) => Err(e)
    }
  }

  datatype RecoveryResult = RecoveryResult(snapshot: SystemSnapshot, baseBackupId: string, walEntriesReplayed: nat)

  function TotalSize(entries: seq<WalEntry>, size: WalEntry -> nat): nat {
    if entries == [] then 0 else TotalSize(entries[..|entries| - 1], size) + size(entries[|entries| - 1])
  }

  /** The size of a segment is the sum over its entries, in whatever pieces it is taken. */
  lemma {:induction false} TotalSizeSums(a: seq<WalEntry>, b: seq<WalEntry>, size: WalEntry -> nat)
    ensures TotalSize(a + b, size) == TotalSize(a, size) + TotalSize(b, size)
    ensures |b| == 1 ==> TotalSize(b, size) == size(b[0])
  {
    if b == [] {
      assert a + b == a;
    } else {
      TotalSizeSums(a, b[..|b| - 1], size);
      assert (a + b)[..|a + b| - 1] == a + b[..|b| - 1];
      if |b| == 1 { assert TotalSize(b[..0], size) == 0; }
    }
  }

  /** How many entries of a log are stamped at or before `t`, when stamps do not go back. */
  ghost function UpTo(log: seq<WalEntry>, t: int): (n: nat)
    ensures n <= |log|
    ensures forall i :: n <= i < |log| ==> t < log[i].timestamp
    ensures 0 < n ==> log[n - 1].timestamp <= t
  {
    if log == [] then 0
    else if log[|log| - 1].timestamp <= t then |log|
    else UpTo(log[..|log| - 1], t)
  }

  lemma UpToIsPrefix(log: seq<WalEntry>, clock: int, t: int)
    requires Timed(log, clock)
    ensures forall i :: 0 <= i < |log| ==> (log[i].timestamp <= t <==> i < UpTo(log, t))
  {
    var n := UpTo(log, t);
    forall i | 0 <= i < n ensures log[i].timestamp <= t {
      if i < n - 1 { assert StampsAgree(log, i, n - 1); }
    }
  }

  /** Every entry from position `n` on is stamped after `t`. */
  ghost predicate AllAfter(log: seq<WalEntry>, n: nat, t: int) {
    forall i :: n <= i < |log| ==> t < log[i].timestamp
  }

  lemma UpToAtMost(log: seq<WalEntry>, t: int, n: nat)
    requires AllAfter(log, n, t)
    ensures UpTo(log, t) <= n
  {
  }

  lemma UpToUnique(log: seq<WalEntry>, t: int, n: nat)
    requires n <= |log| && AllAfter(log, n, t)
    requires 0 < n ==> log[n - 1].timestamp <= t
    ensures UpTo(log, t) == n
  {
  }

  /** The segment is the stretch of the history from `before` on, numbered accordingly. */
  ghost predicate Numbered(segment: seq<WalEntry>, history: seq<WalEntry>, before: nat) {
    && before + |segment| <= |history| && segment == history[before..before + |segment|]
    && forall i :: 0 <= i < |segment| ==> segment[i].lsn == before + i + 1
  }

  lemma NumberedFrom(history: seq<WalEntry>, h: HashFn, genesis: string, before: nat, segment: seq<WalEntry>)
    requires Chained(history, h, genesis)
    requires before + |segment| <= |history| && segment == history[before..before + |segment|]
    ensures Numbered(segment, history, before)
  {
    forall i | 0 <= i < |segment| ensures segment[i].lsn == before + i + 1 {
      assert Linked(history, before + i, h, genesis);
    }
  }

  /** The entries numbered above `lo` and up to `hi`, among the first `n`. */
  ghost function Window(log: seq<WalEntry>, lo: nat, hi: nat, n: nat): seq<WalEntry>
    requires n <= |log|
  {
    if Min(hi, n) <= lo then [] else log[lo..Min(hi, n)]
  }

  lemma WindowStep(log: seq<WalEntry>, lo: nat, hi: nat, n: nat)
    requires n < |log|
    ensures Window(log, lo, hi, n + 1) == if lo < n + 1 <= hi then Window(log, lo, hi, n) + [log[n]] else Window(log, lo, hi, n)
  {
    if lo < n + 1 <= hi {
      assert log[lo..n + 1] == log[lo..n] + [log[n]];
    }
  }

  ghost predicate FaithfulTo(memory: Option<SystemSnapshot>, backups: seq<(nat, BaseBackup)>, history: seq<WalEntry>) {
    backups != [] ==>
      var n := backups[|backups| - 1].0;
      n <= |history| && memory == Some(Replay(EMPTY, history[..n]))
  }

  /** Entries logged after a backup do not disturb the state at it. */
  lemma FaithfulGrows(memory: Option<SystemSnapshot>, backups: seq<(nat, BaseBackup)>, history: seq<WalEntry>, e: WalEntry)
    ensures FaithfulTo(memory, backups, history) ==> FaithfulTo(memory, backups, history + [e])
  {
    if backups != [] && backups[|backups| - 1].0 <= |history| {
      var n := backups[|backups| - 1].0;
      assert (history + [e])[..n] == history[..n];
    }
  }

  /** The newest `keep` of a list kept oldest first. */
  function KeepNewest<T>(s: seq<T>, keep: nat): seq<T> {
    if |s| <= keep then s else s[|s| - keep..]
  }

  /** No backup has lost log: whatever expiry removed precedes every backup that is still kept. */
  ghost predicate BackupsKept(backups: seq<(nat, BaseBackup)>, keep: nat, currentLsn: nat, dropped: nat,
                              memory: Option<SystemSnapshot>)
  {
    && Ordered(backups) && |backups| <= keep && (dropped == 0 || dropped < currentLsn)
    && EachKept(backups, currentLsn, dropped)
    && (memory.Some? <==> backups != [])
  }

  ghost predicate EachKept(backups: seq<(nat, BaseBackup)>, currentLsn: nat, dropped: nat) {
    forall i :: 0 <= i < |backups| ==>
      && backups[i].0 == backups[i].1.startLsn
      && backups[i].0 < currentLsn
      && (dropped == 0 || dropped < backups[i].0)
  }

  lemma EachKeptAppend(backups: seq<(nat, BaseBackup)>, currentLsn: nat, dropped: nat, b: BaseBackup)
    requires Ordered(backups) && EachKept(backups, currentLsn, dropped)
    requires b.startLsn == currentLsn && (dropped == 0 || dropped < currentLsn)
    ensures Ordered(backups + [(currentLsn, b)]) && EachKept(backups + [(currentLsn, b)], currentLsn + 1, dropped)
  {
  }

  lemma EachKeptDrop(backups: seq<(nat, BaseBackup)>, currentLsn: nat, dropped: nat, n: nat)
    requires EachKept(backups, currentLsn, dropped) && n <= |backups|
    ensures EachKept(backups[n..], currentLsn, dropped)
  {
  }

  lemma NewestLast<T>(s: seq<T>, x: T, keep: nat) returns (n: nat)
    requires 0 < keep
    ensures n <= |s| && KeepNewest(s + [x], keep) == (s + [x])[n..] && |(s + [x])[n..]| <= keep
    ensures (s + [x])[n..][|s| - n] == x
  {
    n := if |s| < keep then 0 else |s| + 1 - keep;
  }

  lemma BackupFiled(backups: seq<(nat, BaseBackup)>, keep: nat, currentLsn: nat, dropped: nat,
                    memory: Option<SystemSnapshot>, b: BaseBackup, snapshot: SystemSnapshot, kept: seq<(nat, BaseBackup)>)
    requires BackupsKept(backups, keep, currentLsn, dropped, memory) && 0 < keep
    requires b.startLsn == currentLsn
    requires kept == KeepNewest(backups + [(currentLsn, b)], keep)
    ensures BackupsKept(kept, keep, currentLsn + 1, dropped, Some(snapshot))
    ensures kept[|kept| - 1] == (currentLsn, b)
  {
    var n := NewestLast(backups, (currentLsn, b), keep);
    EachKeptAppend(backups, currentLsn, dropped, b);
    OrderedDrop(backups + [(currentLsn, b)], n);
    EachKeptDrop(backups + [(currentLsn, b)], currentLsn + 1, dropped, n);
  }

  /** What CreateBaseBackup leaves is faithful exactly when the snapshot was the state the log described. */
  lemma BackupFaithful(backups: seq<(nat, BaseBackup)>, keep: nat, lsn: nat, b: BaseBackup, snapshot: SystemSnapshot,
                       history: seq<WalEntry>, e: WalEntry)
    requires 0 < keep && lsn == |history|
    ensures FaithfulTo(Some(snapshot), KeepNewest(backups + [(lsn, b)], keep), history + [e]) <==>
            snapshot == Replay(EMPTY, history)
  {
    assert (history + [e])[..lsn] == history;
  }

  /** `retain`, as the loop it is. */
  method RetainSegments(segs: seq<(nat, WalSegment)>, oldestBackup: nat, cutoff: int) returns (kept: seq<(nat, WalSegment)>)
    ensures kept == Retained(segs, oldestBackup, cutoff)
  {
    kept := [];
    for i := 0 to |segs|
      invariant kept == Retained(segs[..i], oldestBackup, cutoff)
    {
      assert segs[..i + 1][..i] == segs[..i];
      if Keeps(segs[i].1, oldestBackup, cutoff) {
        kept := kept + [segs[i]];
      }
    }
    assert segs[..|segs|] == segs;
  }

  function OldestBackup(backups: seq<(nat, BaseBackup)>): nat {
    if backups == [] then 0 else backups[0].0
  }

  /** Closed by the cutoff, and ending before every backup. */
  ghost predicate Expired(s: WalSegment, backups: seq<(nat, BaseBackup)>, cutoff: int) {
    backups != [] && s.endLsn < backups[0].0 && s.closedAt.Some? && s.closedAt.value <= cutoff
  }

  /** Retention safety: expiry drops the first `n` segments, and no backup needs any of them. */
  lemma ExpiryIsSafe(history: seq<WalEntry>, dropped: nat, clock: int, archived: seq<(nat, WalSegment)>, active: WalSegment,
                     backups: seq<(nat, BaseBackup)>, keep: nat, memory: Option<SystemSnapshot>, now: int, cutoff: int)
    returns (n: nat)
    requires StoresSuffix(history, dropped, clock, archived, active) && clock <= now
    requires BackupsKept(backups, keep, |history|, dropped, memory)
    ensures n <= |archived| && Retained(archived, OldestBackup(backups), cutoff) == archived[n..]
    ensures forall i :: 0 <= i < |archived| ==>
              (i < n <==> Expired(archived[i].1, backups, cutoff))
    ensures backups == [] ==> n == 0
    ensures dropped <= EndOf(archived, n, dropped)
    ensures StoresSuffix(history, EndOf(archived, n, dropped), now, archived[n..], active)
    ensures BackupsKept(backups, keep, |history|, EndOf(archived, n, dropped), memory)
  {
    n := RetainedIsSuffix(archived, dropped, Before(active), history, clock, OldestBackup(backups), cutoff);
    ContiguousDrop(archived, dropped, Before(active), history, n);
    ClosedDrop(archived, clock, n);
    ClosedLater(archived[n..], clock, now);
    forall i | 0 <= i < |archived| ensures i < n <==> Expired(archived[i].1, backups, cutoff) {
      assert ClosedBy(archived, i, clock);
    }
    if 0 < n {
      assert !Keeps(archived[n - 1].1, OldestBackup(backups), cutoff);
      assert forall i :: 0 < i < |backups| ==> backups[0].0 < backups[i].0;
    }
  }

  ghost predicate FirstNamed(backups: seq<(nat, BaseBackup)>, id: string, i: int) {
    0 <= i < |backups| && backups[i].1.id == id && forall j :: 0 <= j < i ==> backups[j].1.id != id
  }

  ghost function BaseFor(target: Option<nat>, backups: seq<(nat, BaseBackup)>, memory: Option<SystemSnapshot>)
    : Result<(BaseBackup, SystemSnapshot)>
    requires Ordered(backups) && (memory.Some? <==> backups != [])
  {
    match target
    case None => Err(InvalidTimestamp)
    case Some(n) =>
      match LastAtMost(backups, n)
      case None => Err(NoBackupAvailable)
      case Some(entry) => Ok((entry.1, memory.value))
  }

  /** Replaying what follows the newest backup onto its snapshot is replaying everything from the start. */
  lemma RecoveryIsReplay(memory: Option<SystemSnapshot>, backups: seq<(nat, BaseBackup)>, history: seq<WalEntry>, n: nat)
    requires Ordered(backups) && backups != [] && FaithfulTo(memory, backups, history)
    requires backups[|backups| - 1].0 <= n
    ensures LastAtMost(backups, n) == Some(backups[|backups| - 1])
    ensures memory.Some? &&
            Replay(memory.value, Window(history, backups[|backups| - 1].0, n, |history|)) ==
            Replay(EMPTY, history[..Min(n, |history|)])
  {
    var b := backups[|backups| - 1].0;
    var m := Min(n, |history|);
    ReplaySplit(EMPTY, history, b, m);
    assert Window(history, b, n, |history|) == history[b..m];
  }

  // ---------- targets that the one snapshot cannot serve ----------

  lemma {:induction false} ReplayLsn(log: seq<WalEntry>, h: HashFn, genesis: string, n: nat)
    requires Chained(log, h, genesis) && n <= |log|
    ensures Replay(EMPTY, log[..n]).lsn == n
  {
    if 0 < n {
      assert Linked(log, n - 1, h, genesis);
      assert log[..n][n - 1] == log[n - 1];
    }
  }

  /** Recovery to a backup by id returns the state of that backup exactly when it is the newest one. */
  lemma BackupTargetExact(log: seq<WalEntry>, h: HashFn, genesis: string, memory: Option<SystemSnapshot>,
                          backups: seq<(nat, BaseBackup)>, i: nat)
    requires Chained(log, h, genesis) && Ordered(backups) && i < |backups|
    requires backups[|backups| - 1].0 <= |log| && FaithfulTo(memory, backups, log)
    ensures i < |backups| - 1 ==> backups[i].0 < backups[|backups| - 1].0
    ensures memory == Some(Replay(EMPTY, log[..backups[i].0])) <==> i == |backups| - 1
  {
    ReplayLsn(log, h, genesis, backups[i].0);
    ReplayLsn(log, h, genesis, backups[|backups| - 1].0);
  }

  lemma {:induction false} UserStays(s: SystemSnapshot, log: seq<WalEntry>, id: string)
    requires id in s.users && forall i :: 0 <= i < |log| ==> !DeletesUser(log[i], id)
    ensures id in Replay(s, log).users
  {
    if log != [] {
      var init := log[..|log| - 1];
      UserStays(s, init, id);
      UserEffect(Replay(s, init), log[|log| - 1], id);
    }
  }

  /**
   The state recovered for a target `n` before the newest backup `m`, from the last backup `b` at or before
   it, is wrong when `b` is the target itself, and when the log between target and newest backup created a
   user that was unknown at the target and that the replay does not delete.
   */
  lemma TargetBeforeNewestUnsafe(log: seq<WalEntry>, h: HashFn, genesis: string, b: nat, n: nat, m: nat, id: string)
    requires Chained(log, h, genesis) && b <= n < m <= |log|
    requires b < n ==>
               && id in Replay(EMPTY, log[..m]).users && id !in Replay(EMPTY, log[..n]).users
               && forall i :: b <= i < n ==> !DeletesUser(log[i], id)
    ensures Replay(Replay(EMPTY, log[..m]), log[b..n]) != Replay(EMPTY, log[..n])
  {
    if b == n {
      ReplayLsn(log, h, genesis, n);
      ReplayLsn(log, h, genesis, m);
    } else {
      UserStays(Replay(EMPTY, log[..m]), log[b..n], id);
    }
  }

  /** The entry at position k creates a user whose id has k letters. */
  ghost predicate CreatesUser(log: seq<WalEntry>, k: nat) {
    k < |log| && log[k].operation == UserCreated(UserNamed(k), "")
  }

  function UserNamed(k: nat): string { seq(k, _ => 'u') }

  /** Users are created throughout, but for the checkpoints at `b` and `m`. */
  ghost predicate UsersBut(log: seq<WalEntry>, b: nat, m: nat) {
    forall k :: 0 <= k < |log| ==> CreatesUser(log, k) || ((k == b || k == m) && log[k].operation.Checkpoint?)
  }

  lemma LastUserIsNew(log: seq<WalEntry>, b: nat, n: nat, m: nat)
    requires UsersBut(log, b, m) && b < n < m < |log|
    ensures UserNamed(m - 1) in Replay(EMPTY, log[..m]).users && UserNamed(m - 1) !in Replay(EMPTY, log[..n]).users
    ensures forall i :: b <= i < n ==> !DeletesUser(log[i], UserNamed(m - 1))
  {
    var id := UserNamed(m - 1);
    UsersAfter(log[..m], id);
    UsersAfter(log[..n], id);
    assert CreatesUser(log, m - 1);
    assert LatestUser(log[..m], id, m - 1);
    forall i ensures !LatestUser(log[..n], id, i) {
      if 0 <= i < n {
        assert log[..n][i] == log[i];
        assert CreatesUser(log, i) ==> |log[i].operation.userId| == i;
      }
    }
    forall i | b <= i < n ensures !DeletesUser(log[i], id) {
      assert CreatesUser(log, i) || log[i].operation.Checkpoint?;
    }
  }

  predicate LsnLe(a: WalEntry, b: WalEntry) { a.lsn <= b.lsn }

  class PitrManager {
    const config: PitrConfig
    const hash: HashFn
    const genesis: string
    const lib: Library

    var currentLsn: nat
    var active: WalSegment
    var archived: seq<(nat, WalSegment)>
    var backups: seq<(nat, BaseBackup)>
    var lastHash: string
    var memoryState: Option<SystemSnapshot>

    /** Every entry ever logged, how many of them expiry has removed, and the latest clock reading. */
    ghost var history: seq<WalEntry>
    ghost var dropped: nat
    ghost var clock: int

    ghost predicate Valid()
      reads this
    {
      && config.Validate()
      && |history| == currentLsn
      && Chained(history, hash, genesis) && Timed(history, clock)
      && lastHash == HashAt(history, currentLsn, genesis)
      && StoresSuffix(history, dropped, clock, archived, active)
      && BackupsKept(backups, config.backupRetentionCount, currentLsn, dropped, memoryState)
    }

    /** The LSN of the newest backup. */
    ghost function NewestBackup(): nat
      requires backups != []
      reads this
    {
      backups[|backups| - 1].0
    }

    /** The snapshot kept in memory is the state that the log described when the newest backup began. */
    ghost predicate Faithful()
      reads this
    {
      FaithfulTo(memoryState, backups, history)
    }

    /** The LSN that a target stands for. */
    ghost function TargetLsn(target: RecoveryTarget): Option<nat>
      reads this
    {
      match target
      case Timestamp(t) => if dropped < UpTo(history, t) then Some(UpTo(history, t)) else None
      case Lsn(n) => Some(n)
      case Latest => Some(currentLsn)
      case Backup(_) => None
    }

    constructor (config: PitrConfig, hash: HashFn, genesis: string, lib: Library, now: int)
      requires config.Validate()
      ensures Valid() && history == [] && dropped == 0 && clock == now && backups == [] && currentLsn == 0
      ensures this.config == config && this.hash == hash && this.genesis == genesis && this.lib == lib
    {
      this.config, this.hash, this.genesis, this.lib := config, hash, genesis, lib;
      currentLsn := 0;
      active := WalSegment(0, 0, [], now, None);
      archived, backups, lastHash, memoryState := [], [], genesis, None;
      history, dropped, clock := [], 0, now;
    }

    /** PitrManager::new refuses a configuration that does not validate. */
    static method Create(config: PitrConfig, hash: HashFn, genesis: string, lib: Library, now: int)
      returns (manager: PitrManager?)
      ensures manager != null <==>
                config.baseBackupInterval != 0 && config.baseBackupInterval <= config.walRetention && config.backupRetentionCount != 0
      ensures manager != null ==> fresh(manager) && manager.Valid() && manager.history == [] && manager.clock == now
    {
      manager := null;
      if config.Validate() {
        manager := new PitrManager(config, hash, genesis, lib, now);
      }
    }

    /** log_change: one more entry at the end of the history, wherever the segments put it. */
    method LogChange(op: WalOperation, now: int) returns (lsn: nat)
      requires Valid() && clock <= now
      modifies this`currentLsn, this`lastHash, this`active, this`archived, this`history, this`clock
      ensures Valid() && clock == now
      ensures lsn == currentLsn == old(currentLsn) + 1
      ensures history == old(history) + [NewEntry(hash, old(currentLsn) + 1, now, op, old(lastHash))]
      ensures history[old(currentLsn)].lsn == lsn && history[old(currentLsn)].timestamp == now && history[old(currentLsn)].operation == op
      ensures active.entries == [] <==>
              config.walSegmentSize <= TotalSize(old(active.entries) + [NewEntry(hash, old(currentLsn) + 1, now, op, old(lastHash))], lib.entrySize)
    {
      var entry := AppendEntry(op, now);
      lsn := currentLsn;
      var size := TotalSize(active.entries, lib.entrySize);
      if size >= config.walSegmentSize {
        RotateSegment(now);
      }
    }

    method AppendEntry(op: WalOperation, now: int) returns (entry: WalEntry)
      requires Valid() && clock <= now
      modifies this`currentLsn, this`lastHash, this`active, this`history, this`clock
      ensures Valid() && clock == now
      ensures currentLsn == old(currentLsn) + 1
      ensures entry == NewEntry(hash, old(currentLsn) + 1, now, op, old(lastHash))
      ensures history == old(history) + [entry]
      ensures active.entries == old(active.entries) + [entry]
      ensures active.startLsn == old(active.startLsn)
    {
      currentLsn := currentLsn + 1;
      entry := NewEntry(hash, currentLsn, now, op, lastHash);
      // With verifyWal set the source checks the entry it has just built; a deterministic hash cannot fail that.
      assert Verifies(hash, entry);
      ChainedAppend(history, entry, hash, genesis);
      TimedAppend(history, clock, entry);
      StoresAppended(history, dropped, clock, archived, active, entry, now);
      lastHash := entry.hash;
      active := active.(entries := active.entries + [entry], endLsn := currentLsn);
      history := history + [entry];
      clock := now;
    }

    /** rotate_segment: the active segment moves to the archive under its first LSN. */
    method RotateSegment(now: int)
      requires Valid() && clock <= now
      modifies this`active, this`archived, this`clock
      ensures Valid() && clock == now
      ensures active == WalSegment(currentLsn + 1, currentLsn, [], now, None)
      ensures archived == if old(active.entries) == [] then old(archived)
                          else old(archived) + [(old(active.startLsn), old(active).(closedAt := Some(now)))]
    {
      StoresRotated(history, dropped, clock, archived, active, now);
      TimedLater(history, clock, now);
      var closed := active.(closedAt := Some(now));
      active := WalSegment(closed.endLsn + 1, closed.endLsn, [], now, None);
      if closed.entries != [] {
        archived := OrderedMap.Insert(archived, closed.startLsn, closed);
      }
      clock := now;
    }

    /**
     create_base_backup: a checkpoint is logged, the backup is filed under the LSN before it, and the
     oldest backups beyond the retention count are evicted; the newest never is.
     */
    method CreateBaseBackup(snapshot: SystemSnapshot, id: string, now: int) returns (backup: BaseBackup)
      requires Valid() && clock <= now
      modifies this
      ensures Valid() && clock == now
      ensures backup == BaseBackup(id, now, old(currentLsn), old(currentLsn), lib.snapshotSize(snapshot), lib.checksum(snapshot),
                                   config.compressBackups, Completed, backup.metadata)
      ensures backup.metadata.topicCount == |snapshot.topics| && backup.metadata.consumerGroupCount == |snapshot.consumerGroups|
      ensures backup.metadata.aclCount == |snapshot.acls| && backup.metadata.userCount == |snapshot.users|
      ensures backup.metadata.schemaCount == |snapshot.schemas|
      ensures history == old(history) + [NewEntry(hash, old(currentLsn) + 1, now, Checkpoint(id), old(lastHash))]
      ensures dropped == old(dropped) && memoryState == Some(snapshot)
      ensures backups == KeepNewest(old(backups) + [(old(currentLsn), backup)], config.backupRetentionCount)
    {
      var startLsn := currentLsn;
      backup := BaseBackup(id, now, startLsn, startLsn, lib.snapshotSize(snapshot), lib.checksum(snapshot),
                           config.compressBackups, Completed,
                           BackupMetadata(|snapshot.topics|, |snapshot.consumerGroups|, |snapshot.acls|, |snapshot.users|, |snapshot.schemas|));
      LogCheckpoint(id, now);
      assert backups == old(backups) && dropped == old(dropped);
      assert forall i :: 0 <= i < |backups| ==> backups[i].0 < startLsn;
      StoreBackup(backup, snapshot);
    }

    method LogCheckpoint(id: string, now: int)
      requires Valid() && clock <= now
      modifies this`currentLsn, this`lastHash, this`active, this`archived, this`history, this`clock
      ensures Valid() && clock == now && currentLsn == old(currentLsn) + 1
      ensures history == old(history) + [NewEntry(hash, old(currentLsn) + 1, now, Checkpoint(id), old(lastHash))]
    {
      var _ := LogChange(Checkpoint(id), now);
    }

    /** Files a backup begun just before the last entry, keeps its snapshot, and evicts what exceeds the count. */
    method StoreBackup(backup: BaseBackup, snapshot: SystemSnapshot)
      requires Valid() && backup.startLsn + 1 == currentLsn
      requires forall i :: 0 <= i < |backups| ==> backups[i].0 < backup.startLsn
      requires dropped == 0 || dropped < backup.startLsn
      modifies this`backups, this`memoryState
      ensures Valid() && memoryState == Some(snapshot)
      ensures backups == KeepNewest(old(backups) + [(backup.startLsn, backup)], config.backupRetentionCount)
    {
      InsertLast(backups, backup.startLsn, backup);
      backups := EvictOldBackups(OrderedMap.Insert(backups, backup.startLsn, backup), config.backupRetentionCount);
      memoryState := Some(snapshot);
      BackupFiled(old(backups), config.backupRetentionCount, backup.startLsn, dropped, old(memoryState), backup, snapshot, backups);
    }

    /** cleanup_old_backups. */
    static method EvictOldBackups(backups: seq<(nat, BaseBackup)>, keep: nat) returns (kept: seq<(nat, BaseBackup)>)
      ensures kept == KeepNewest(backups, keep)
    {
      kept := backups;
      while |kept| > keep
        invariant |kept| <= |backups| && kept == backups[|backups| - |kept|..]
        invariant |kept| >= Min(|backups|, keep)
      {
        kept := kept[1..];
      }
    }

    /** cleanup_expired_wal: a prefix of the archive goes, all of it older than every backup and past retention. */
    method CleanupExpiredWal(now: int) returns (r: Result<nat>)
      requires Valid() && clock <= now
      modifies this`archived, this`dropped, this`clock
      ensures Valid() && clock == now
      ensures r.Err? <==> MAX_RETENTION < config.walRetention || now - config.walRetention < lib.earliest
      ensures r.Err? ==> r.error == (if MAX_RETENTION < config.walRetention then Config else TimeOverflow) && archived == old(archived)
      ensures r.Ok? ==>
                && r.value <= |old(archived)| && archived == old(archived)[r.value..]
                && (backups == [] ==> r.value == 0)
                && (forall i :: 0 <= i < |old(archived)| ==>
                      (i < r.value <==> Expired(old(archived)[i].1, backups, now - config.walRetention)))
    {
      TimedLater(history, clock, now);
      if config.walRetention > MAX_RETENTION {
        ClosedLater(archived, clock, now);
        r := Err(Config);
      } else if now - config.walRetention < lib.earliest {
        // The subtraction panics here, before anything has been touched.
        ClosedLater(archived, clock, now);
        r := Err(TimeOverflow);
      } else {
        var cutoff := now - config.walRetention;
        var kept := RetainSegments(archived, OldestBackup(backups), cutoff);
        ghost var n := ExpiryIsSafe(history, dropped, clock, archived, active, backups, config.backupRetentionCount, memoryState, now, cutoff);
        assert kept == archived[n..];
        dropped := EndOf(archived, n, dropped);
        r := Ok(|archived| - |kept|);
        archived := kept;
      }
      clock := now;
      assert StoresSuffix(history, dropped, clock, archived, active);
      assert BackupsKept(backups, config.backupRetentionCount, currentLsn, dropped, memoryState);
    }

    /** verify_wal_integrity: always valid, and counting exactly the stored entries at or above `fromLsn`. */
    method VerifyWalIntegrity(fromLsn: nat) returns (r: VerificationResult)
      requires Valid()
      ensures r.isValid && r.errors == []
      ensures r.verifiedEntries == currentLsn - Clamp(fromLsn - 1, dropped, currentLsn)
    {
      StoredFrom(fromLsn);
      r := VerifySegments(hash, archived, active, fromLsn);
    }

    lemma StoredFrom(fromLsn: nat)
      requires Valid()
      ensures dropped <= currentLsn
      ensures var all := From(Flatten(archived) + active.entries, fromLsn);
              |all| == currentLsn - Clamp(fromLsn - 1, dropped, currentLsn) && Intact(all, hash) && ErrorsIn(all, hash) == []
    {
      StoredEntries();
      FromHistory(history, hash, genesis, dropped, currentLsn, fromLsn);
      StretchIntact(history, hash, genesis, Clamp(fromLsn - 1, dropped, currentLsn), currentLsn);
      NoErrorsIff(From(Flatten(archived) + active.entries, fromLsn), hash);
    }

    lemma StoredEntries()
      requires Valid()
      ensures dropped <= currentLsn
      ensures Flatten(archived) + active.entries == history[dropped..currentLsn]
    {
      FlattenHistory(archived, dropped, Before(active), history);
      assert history[dropped..Before(active)] + history[Before(active)..] == history[dropped..currentLsn];
    }

    /** find_lsn_for_timestamp: backwards through the active segment, then through the archive. */
    method FindLsnForTimestamp(t: int) returns (r: Result<nat>)
      requires Valid()
      ensures r == if dropped < UpTo(history, t) then Ok(UpTo(history, t)) else Err(InvalidTimestamp)
    {
      NumberedFrom(history, hash, genesis, Before(active), active.entries);
      var found := SearchSegment(active.entries, t, history, Before(active));
      if found.Some? { return Ok(found.value); }
      var k := |archived|;
      while k > 0
        invariant 0 <= k <= |archived| && AllAfter(history, EndOf(archived, k, dropped), t)
      {
        k := k - 1;
        assert Follows(archived, k, dropped) && Holds(archived, k, history);
        SegmentBounds(archived, dropped, Before(active), history);
        NumberedFrom(history, hash, genesis, EndOf(archived, k, dropped), archived[k].1.entries);
        found := SearchSegment(archived[k].1.entries, t, history, EndOf(archived, k, dropped));
        if found.Some? { return Ok(found.value); }
      }
      UpToAtMost(history, t, dropped);
      r := Err(InvalidTimestamp);
    }

    /** One of the two backward loops; the segment holds the history from `before` on. */
    static method SearchSegment(segment: seq<WalEntry>, t: int, ghost history: seq<WalEntry>, ghost before: nat)
      returns (r: Option<nat>)
      requires Numbered(segment, history, before) && AllAfter(history, before + |segment|, t)
      ensures r.Some? ==> r.value == UpTo(history, t) && before < r.value
      ensures r.None? ==> AllAfter(history, before, t)
    {
      var i := |segment|;
      while i > 0
        invariant 0 <= i <= |segment| && AllAfter(history, before + i, t)
      {
        i := i - 1;
        assert segment[i] == history[before + i];
        if segment[i].timestamp <= t {
          UpToUnique(history, t, before + i + 1);
          return Some(segment[i].lsn);
        }
      }
      r := None;
    }

    /** The collection loops of collect_wal_entries: exactly the entries numbered above `fromLsn` and up to `toLsn`, in order. */
    method CollectEntries(fromLsn: nat, toLsn: nat) returns (entries: seq<WalEntry>)
      requires Valid() && dropped <= fromLsn
      ensures entries == Window(history, fromLsn, toLsn, currentLsn)
    {
      entries := CollectArchived(archived, fromLsn, toLsn, history, hash, genesis, dropped, Before(active));
      NumberedFrom(history, hash, genesis, Before(active), active.entries);
      entries := CollectSegment(active.entries, fromLsn, toLsn, entries, history, Before(active));
    }

    static method CollectArchived(archived: seq<(nat, WalSegment)>, fromLsn: nat, toLsn: nat,
                                  ghost history: seq<WalEntry>, ghost hash: HashFn, ghost genesis: string, ghost lo: nat, ghost hi: nat)
      returns (entries: seq<WalEntry>)
      requires Contiguous(archived, lo, hi, history) && Chained(history, hash, genesis) && lo <= fromLsn
      ensures entries == Window(history, fromLsn, toLsn, hi)
    {
      entries := [];
      for k := 0 to |archived|
        invariant EndOf(archived, k, lo) <= |history|
        invariant entries == Window(history, fromLsn, toLsn, EndOf(archived, k, lo))
      {
        assert Follows(archived, k, lo) && Holds(archived, k, history);
        NumberedFrom(history, hash, genesis, EndOf(archived, k, lo), archived[k].1.entries);
        entries := CollectSegment(archived[k].1.entries, fromLsn, toLsn, entries, history, EndOf(archived, k, lo));
      }
    }

    /** One of the two inner loops; the segment holds the history from `before` on. */
    static method CollectSegment(segment: seq<WalEntry>, fromLsn: nat, toLsn: nat, acc: seq<WalEntry>,
                                 ghost history: seq<WalEntry>, ghost before: nat)
      returns (entries: seq<WalEntry>)
      requires Numbered(segment, history, before)
      requires acc == Window(history, fromLsn, toLsn, before)
      ensures entries == Window(history, fromLsn, toLsn, before + |segment|)
    {
      entries := acc;
      for i := 0 to |segment|
        invariant entries == Window(history, fromLsn, toLsn, before + i)
      {
        assert segment[i] == history[before + i];
        WindowStep(history, fromLsn, toLsn, before + i);
        if segment[i].lsn > fromLsn && segment[i].lsn <= toLsn {
          entries := entries + [segment[i]];
        }
      }
    }

    /** verify_wal_chain. */
    static method VerifyWalChain(h: HashFn, entries: seq<WalEntry>) returns (r: Result<()>)
      ensures r.Ok? <==> forall i :: 0 <= i < |entries| ==> Verifies(h, entries[i])
    {
      for i := 0 to |entries|
        invariant forall j :: 0 <= j < i ==> Verifies(h, entries[j])
      {
        if !Verifies(h, entries[i]) {
          return Err(Wal(entries[i].lsn));
        }
      }
      r := Ok(());
    }

    /** collect_wal_entries: the sort finds the entries already in order, and the chain check cannot fail. */
    method CollectWalEntries(fromLsn: nat, target: RecoveryTarget) returns (r: Result<seq<WalEntry>>)
      requires Valid() && dropped <= fromLsn
      ensures target.Backup? ==> r == Ok([])
      ensures !target.Backup? ==>
                r == match TargetLsn(target)
                     case None => Err(InvalidTimestamp)
                     case Some(n) => Ok(Window(history, fromLsn, n, currentLsn))
    {
      if target.Backup? {
        return Ok([]);
      }
      var toLsn := LsnOf(target);
      if toLsn.Err? { return Err(toLsn.error); }
      var entries := CollectEntries(fromLsn, toLsn.value);
      WindowSorted(fromLsn, toLsn.value);
      var sorted := Sort(entries, LsnLe);
      var checked := VerifyWalChain(hash, sorted);
      r := checked.Then(sorted);
    }

    /** The match on the target that find_base_backup and collect_wal_entries both begin with. */
    method LsnOf(target: RecoveryTarget) returns (r: Result<nat>)
      requires Valid() && !target.Backup?
      ensures r == match TargetLsn(target) case None => Err(InvalidTimestamp) case Some(n) => Ok(n)
    {
      match target {
        case Timestamp(t) => r := FindLsnForTimestamp(t);
        case Lsn(n) => r := Ok(n);
        case Latest => r := Ok(currentLsn);
      }
    }

    lemma WindowSorted(lo: nat, hi: nat)
      requires Valid()
      ensures var w := Window(history, lo, hi, currentLsn);
              Sort(w, LsnLe) == w && forall i :: 0 <= i < |w| ==> Verifies(hash, w[i])
    {
      var w := Window(history, lo, hi, currentLsn);
      forall i | 0 <= i < |w| ensures w[i].lsn == lo + i + 1 && Verifies(hash, w[i]) {
        assert Linked(history, lo + i, hash, genesis);
      }
      SortIdentity(w, LsnLe);
    }

    /** find_base_backup: the named backup, or the last one at or before the target; either way with the only snapshot there is. */
    method FindBaseBackup(target: RecoveryTarget) returns (r: Result<(BaseBackup, SystemSnapshot)>)
      requires Valid()
      ensures target.Backup? ==>
                if i :| FirstNamed(backups, target.id, i) then r == Ok((backups[i].1, memoryState.value))
                else r == Err(BackupNotFound)
      ensures !target.Backup? ==> r == BaseFor(TargetLsn(target), backups, memoryState)
    {
      if target.Backup? {
        r := FindNamed(target.id);
        return;
      }
      var toLsn := LsnOf(target);
      if toLsn.Err? { return Err(toLsn.error); }
      r := match LastAtMost(backups, toLsn.value)
           case None => Err(NoBackupAvailable)
           case Some(entry) =>
             match memoryState
             case None => Err(SnapshotNotFound)
             case Some(snapshot) => Ok((entry.1, snapshot));
    }

    method FindNamed(id: string) returns (r: Result<(BaseBackup, SystemSnapshot)>)
      requires Valid()
      ensures if i :| FirstNamed(backups, id, i) then r == Ok((backups[i].1, memoryState.value)) else r == Err(BackupNotFound)
    {
      for i := 0 to |backups|
        invariant forall j :: 0 <= j < i ==> backups[j].1.id != id
      {
        if backups[i].1.id == id {
          assert FirstNamed(backups, id, i);
          return Ok((backups[i].1, memoryState.value));
        }
      }
      r := Err(BackupNotFound);
    }

    /** The time is not before the last entry that the newest backup covers, or, if it covers none, not before them all. */
    ghost predicate Reached(t: int)
      requires Valid() && backups != []
      reads this
    {
      if NewestBackup() == 0 then exists i :: 0 <= i < |history| && history[i].timestamp <= t
      else history[NewestBackup() - 1].timestamp <= t
    }

    /** The first `n` entries are those stamped at or before the time. */
    ghost predicate StampedUpTo(n: nat, t: int)
      reads this
    {
      n <= |history| && forall i :: 0 <= i < |history| ==> (history[i].timestamp <= t <==> i < n)
    }

    /**
     Any time not before the newest backup's last entry resolves, however much log has expired, to the
     LSN of the last entry stamped at or before it; the entries up to that LSN are exactly those so stamped.
     */
    lemma TimestampCovered(t: int)
      requires Valid() && backups != []
      requires Reached(t)
      ensures TargetLsn(Timestamp(t)).Some? && NewestBackup() <= TargetLsn(Timestamp(t)).value
      ensures forall i :: 0 <= i < |history| ==> (history[i].timestamp <= t <==> i < TargetLsn(Timestamp(t)).value)
    {
      UpToIsPrefix(history, clock, t);
      if 0 < NewestBackup() {
        assert NewestBackup() - 1 < UpTo(history, t);
      }
    }

    /** The replay loop of recover. */
    static method ReplayEntries(snapshot: SystemSnapshot, entries: seq<WalEntry>) returns (state: SystemSnapshot)
      ensures state == Replay(snapshot, entries)
    {
      state := snapshot;
      for i := 0 to |entries|
        invariant state == Replay(snapshot, entries[..i])
      {
        assert entries[..i + 1][..i] == entries[..i];
        state := Apply(state, entries[i]);
      }
      assert entries[..|entries|] == entries;
    }

    /** What recover answers: the named backup with the kept snapshot; or the last backup at or before the target, replayed up to it. */
    ghost predicate Answers(target: RecoveryTarget, r: Result<RecoveryResult>)
      requires Valid()
      reads this
    {
      if target.Backup? then
        (if i :| FirstNamed(backups, target.id, i)
         then r == Ok(RecoveryResult(memoryState.value, target.id, 0))
         else r == Err(BackupNotFound))
      else
        && (r.Ok? <==> BaseFor(TargetLsn(target), backups, memoryState).Ok?)
        && (r.Err? ==> r.error == if TargetLsn(target).None? then InvalidTimestamp else NoBackupAvailable)
        && (r.Ok? ==>
              var n, base := TargetLsn(target).value, LastAtMost(backups, TargetLsn(target).value).value;
              var replayed := Window(history, base.0, n, currentLsn);
              r.value == RecoveryResult(Replay(memoryState.value, replayed), base.1.id, |replayed|))
    }

    /**
     recover. For every target it answers as described. The other clauses are the theorem: when the newest
     backup was taken of the state the log described, recovery to any LSN, or time, from that backup on, or to
     the latest, yields exactly the fold of the whole history up to there, whatever rotation, backup eviction
     and expiry have done to the segments since.
     */
    method Recover(target: RecoveryTarget) returns (r: Result<RecoveryResult>)
      requires Valid()
      ensures Answers(target, r)
      ensures target.Latest? && Faithful() && backups != [] ==> r.Ok? && r.value.snapshot == Replay(EMPTY, history)
      ensures target.Lsn? && Faithful() && backups != [] && NewestBackup() <= target.lsn ==>
                r.Ok? && r.value.snapshot == Replay(EMPTY, history[..Min(target.lsn, currentLsn)])
      ensures target.Timestamp? && Faithful() && backups != [] && Reached(target.time) ==>
                r.Ok? && exists n: nat :: StampedUpTo(n, target.time) && r.value.snapshot == Replay(EMPTY, history[..n])
    {
      r := RecoverToLsn(target);
      assert history[..currentLsn] == history;
      if target.Timestamp? && backups != [] && Reached(target.time) {
        TimestampCovered(target.time);
        assert StampedUpTo(TargetLsn(target).value, target.time);
      }
    }

    method RecoverToLsn(target: RecoveryTarget) returns (r: Result<RecoveryResult>)
      requires Valid()
      ensures Answers(target, r)
      ensures !target.Backup? && Faithful() && backups != [] && TargetLsn(target).Some? && NewestBackup() <= TargetLsn(target).value ==>
                r.Ok? && r.value.snapshot == Replay(EMPTY, history[..Min(TargetLsn(target).value, currentLsn)])
    {
      r := BackupAndReplay(target);
      if !target.Backup? && Faithful() && backups != [] && TargetLsn(target).Some? && NewestBackup() <= TargetLsn(target).value {
        RecoveryIsReplay(memoryState, backups, history, TargetLsn(target).value);
      }
    }

    /** The steps of recover: choose a backup, collect, replay. */
    method BackupAndReplay(target: RecoveryTarget) returns (r: Result<RecoveryResult>)
      requires Valid()
      ensures Answers(target, r)
    {
      var base := FindBaseBackup(target);
      if base.Err? { return Err(base.error); }
      var (backup, snapshot) := base.value;
      var entries := CollectWalEntries(backup.startLsn, target);
      match entries {
        case Err(e) =>
          r := Err(e);
        case Ok(replayed) =>
          var state := ReplayEntries(snapshot, replayed);
          r := Ok(RecoveryResult(state, backup.id, |replayed|));
      }
    }
  }

  // ---------- whole runs ----------

  datatype Command = Log(operation: WalOperation) | TakeBackup(id: string) | Expire

  /** What a program logs: its changes, and a checkpoint for each backup. */
  function Logged(commands: seq<Command>): seq<WalOperation> {
    if commands == [] then []
    else
      var init := Logged(commands[..|commands| - 1]);
      match commands[|commands| - 1]
      case Log(op) => init + [op]
      case TakeBackup(id) => init + [Checkpoint(id)]
      case Expire => init
  }

  ghost predicate Operations(history: seq<WalEntry>, ops: seq<WalOperation>) {
    |history| == |ops| && forall i :: 0 <= i < |ops| ==> history[i].operation == ops[i]
  }

  /**
   Any program of changes, backups and expiry, by a client that keeps the current state and backs that up.
   Whatever the segment sizes, retention settings and times, it ends with the log intact, the newest snapshot
   faithful and the client's state equal to the replay of everything it logged.
   */
  method RunCommands(m: PitrManager, commands: seq<Command>, times: seq<int>) returns (state: SystemSnapshot)
    requires m.Valid() && m.history == [] && m.backups == []
    requires |times| == |commands| && (forall i :: 0 <= i < |times| ==> m.clock <= times[i])
    requires forall i, j :: 0 <= i < j < |times| ==> times[i] <= times[j]
    modifies m
    ensures m.Valid() && m.Faithful() && state == Replay(EMPTY, m.history)
    ensures Operations(m.history, Logged(commands))
  {
    state := EMPTY;
    for i := 0 to |commands|
      invariant m.Valid() && m.Faithful() && state == Replay(EMPTY, m.history)
      invariant Operations(m.history, Logged(commands[..i]))
      invariant forall j :: i <= j < |times| ==> m.clock <= times[j]
    {
      ghost var before := m.history;
      state := RunCommand(m, commands[i], times[i], state);
      CarriesStep(before, m.history, commands, i);
    }
    assert commands[..|commands|] == commands;
  }

  method RunCommand(m: PitrManager, command: Command, now: int, state: SystemSnapshot) returns (state': SystemSnapshot)
    requires m.Valid() && m.Faithful() && state == Replay(EMPTY, m.history) && m.clock <= now
    modifies m
    ensures m.Valid() && m.Faithful() && state' == Replay(EMPTY, m.history) && m.clock == now
    ensures Carries(old(m.history), m.history, command)
  {
    match command {
      case Log(op) => state' := RunLog(m, op, now, state);
      case TakeBackup(id) =>
        var next, _ := RunBackup(m, id, now, state);
        state' := next;
      case Expire =>
        var _ := m.CleanupExpiredWal(now);
        state' := state;
    }
  }

  /** The history has grown by one entry, which carries the operation. */
  ghost predicate LogsOne(before: seq<WalEntry>, after: seq<WalEntry>, op: WalOperation) {
    after != [] && after == before + [after[|after| - 1]] && after[|after| - 1].operation == op
  }

  /** What one command adds to the history. */
  ghost predicate Carries(before: seq<WalEntry>, after: seq<WalEntry>, command: Command) {
    match command
    case Log(op) => LogsOne(before, after, op)
    case TakeBackup(id) => LogsOne(before, after, Checkpoint(id))
    case Expire => after == before
  }

  lemma CarriesStep(before: seq<WalEntry>, after: seq<WalEntry>, commands: seq<Command>, i: nat)
    requires i < |commands| && Operations(before, Logged(commands[..i])) && Carries(before, after, commands[i])
    ensures Operations(after, Logged(commands[..i + 1]))
  {
    assert commands[..i + 1][..i] == commands[..i];
  }

  method RunLog(m: PitrManager, op: WalOperation, now: int, state: SystemSnapshot) returns (state': SystemSnapshot)
    requires m.Valid() && m.Faithful() && state == Replay(EMPTY, m.history) && m.clock <= now
    modifies m
    ensures m.Valid() && m.Faithful() && state' == Replay(EMPTY, m.history) && m.clock == now
    ensures LogsOne(old(m.history), m.history, op) && m.backups == old(m.backups)
  {
    var entry := NewEntry(m.hash, m.currentLsn + 1, now, op, m.lastHash);
    ghost var before := m.history;
    var _ := m.LogChange(op, now);
    assert m.history == before + [entry];
    FaithfulGrows(m.memoryState, m.backups, before, entry);
    state' := ApplyLogged(state, entry, before);
  }

  method RunBackup(m: PitrManager, id: string, now: int, state: SystemSnapshot)
    returns (state': SystemSnapshot, backup: BaseBackup)
    requires m.Valid() && m.Faithful() && state == Replay(EMPTY, m.history) && m.clock <= now
    modifies m
    ensures m.Valid() && m.Faithful() && state' == Replay(EMPTY, m.history) && m.clock == now
    ensures LogsOne(old(m.history), m.history, Checkpoint(id))
    ensures m.backups == KeepNewest(old(m.backups) + [(old(m.currentLsn), backup)], m.config.backupRetentionCount)
  {
    var entry := NewEntry(m.hash, m.currentLsn + 1, now, Checkpoint(id), m.lastHash);
    ghost var before := m.history;
    backup := BackUpState(m, id, now, state);
    state' := ApplyLogged(state, entry, before);
  }

  /** A backup of the true state is faithful. */
  method BackUpState(m: PitrManager, id: string, now: int, state: SystemSnapshot) returns (backup: BaseBackup)
    requires m.Valid() && state == Replay(EMPTY, m.history) && m.clock <= now
    modifies m
    ensures m.Valid() && m.Faithful() && m.clock == now
    ensures m.history == old(m.history) + [NewEntry(m.hash, old(m.currentLsn) + 1, now, Checkpoint(id), old(m.lastHash))]
    ensures m.backups == KeepNewest(old(m.backups) + [(old(m.currentLsn), backup)], m.config.backupRetentionCount)
  {
    ghost var entry := NewEntry(m.hash, m.currentLsn + 1, now, Checkpoint(id), m.lastHash);
    ghost var before, backups, lsn := m.history, m.backups, m.currentLsn;
    KeepsSome(m);
    backup := m.CreateBaseBackup(state, id, now);
    assert m.backups == KeepNewest(backups + [(lsn, backup)], m.config.backupRetentionCount);
    assert m.history == before + [entry] && m.memoryState == Some(state);
    BackupFaithful(backups, m.config.backupRetentionCount, lsn, backup, state, before, entry);
  }

  lemma KeepsSome(m: PitrManager)
    requires m.Valid()
    ensures 0 < m.config.backupRetentionCount && |m.history| == m.currentLsn
  {
  }

  method ApplyLogged(state: SystemSnapshot, e: WalEntry, ghost log: seq<WalEntry>) returns (state': SystemSnapshot)
    requires state == Replay(EMPTY, log)
    ensures state' == Replay(EMPTY, log + [e]) && LogsOne(log, log + [e], e.operation)
  {
    assert (log + [e])[..|log|] == log;
    state' := Apply(state, e);
  }

  // ---------- a run that recovers wrongly ----------

  const BACKUP := "backup"

  /** Logs users up to LSN `to`. */
  method LogUsers(m: PitrManager, to: nat, now: int, state: SystemSnapshot, ghost b: nat) returns (state': SystemSnapshot)
    requires m.Valid() && m.Faithful() && state == Replay(EMPTY, m.history) && m.currentLsn <= to
    requires m.clock <= now && UsersBut(m.history, b, to)
    modifies m
    ensures m.Valid() && m.Faithful() && state' == Replay(EMPTY, m.history) && m.clock <= now
    ensures m.currentLsn == to && m.backups == old(m.backups) && UsersBut(m.history, b, to)
  {
    state' := state;
    for i := m.currentLsn to to
      invariant m.Valid() && m.Faithful() && state' == Replay(EMPTY, m.history) && m.clock <= now
      invariant m.currentLsn == i && m.backups == old(m.backups) && UsersBut(m.history, b, to)
    {
      ghost var before := m.history;
      state' := RunLog(m, UserCreated(UserNamed(i), ""), now, state');
      UsersGrow(before, m.history, b, to);
    }
  }

  lemma UsersGrow(before: seq<WalEntry>, after: seq<WalEntry>, b: nat, m: nat)
    requires UsersBut(before, b, m)
    requires || LogsOne(before, after, UserCreated(UserNamed(|before|), ""))
             || ((|before| == b || |before| == m) && LogsOne(before, after, Checkpoint(BACKUP)))
    ensures UsersBut(after, b, m)
  {
    forall k | 0 <= k < |after| ensures CreatesUser(after, k) || ((k == b || k == m) && after[k].operation.Checkpoint?) {
      if k < |before| {
        assert after[..|before|][k] == after[k];
        assert CreatesUser(before, k) || ((k == b || k == m) && before[k].operation.Checkpoint?);
      }
    }
  }

  /**
   For every target `n` before a newest backup at `newest`, with the backup before it at `b`, whatever the
   configuration, hash and sizes: a client that logs users and backs up its true state twice, and then recovers
   to `n`, gets a state that is not that of the log up to `n`, or no backup at all when only one is retained.
   */
  method EarlierTargetRecoversWrongly(m: PitrManager, b: nat, n: nat, newest: nat, now: int) returns (r: Result<RecoveryResult>)
    requires m.clock <= now && m.Valid() && m.history == [] && m.backups == [] && b <= n < newest
    modifies m
    ensures m.Valid() && m.Faithful() && m.backups != [] && m.NewestBackup() == newest && n <= |m.history|
    ensures m.config.backupRetentionCount == 1 ==> r == Err(NoBackupAvailable)
    ensures 1 < m.config.backupRetentionCount ==> r.Ok? && r.value.snapshot != Replay(EMPTY, m.history[..n])
  {
    TakeTwoBackups(m, b, newest, now);
    if 1 < m.config.backupRetentionCount {
      WrongAt(m, b, n, newest);
    }
    r := m.Recover(Lsn(n));
  }

  method TakeTwoBackups(m: PitrManager, b: nat, newest: nat, now: int)
    requires m.clock <= now && m.Valid() && m.history == [] && m.backups == [] && b < newest
    modifies m
    ensures m.Valid() && m.Faithful() && UsersBut(m.history, b, newest) && m.currentLsn == newest + 1
    ensures exists x, y :: m.backups == KeepNewest([(b, x), (newest, y)], m.config.backupRetentionCount)
  {
    KeepsSome(m);
    var state, first := LogAndBackUp(m, b, now, EMPTY, newest);
    UsersSwap(m.history, newest, b);
    var _, second := LogAndBackUp(m, newest, now, state, b);
    KeepsTwo((b, first), (newest, second), m.config.backupRetentionCount);
  }

  lemma KeepsTwo<T>(x: T, y: T, keep: nat)
    requires 0 < keep
    ensures KeepNewest(KeepNewest([] + [x], keep) + [y], keep) == KeepNewest([x, y], keep)
  {
    assert [] + [x] == [x] && [x] + [y] == [x, y];
  }

  /** Logs users up to LSN `to` and takes a backup there. */
  method LogAndBackUp(m: PitrManager, to: nat, now: int, state: SystemSnapshot, ghost b: nat)
    returns (state': SystemSnapshot, backup: BaseBackup)
    requires m.Valid() && m.Faithful() && state == Replay(EMPTY, m.history) && m.currentLsn <= to
    requires m.clock <= now && UsersBut(m.history, b, to)
    modifies m
    ensures m.Valid() && m.Faithful() && state' == Replay(EMPTY, m.history) && m.clock <= now
    ensures m.currentLsn == to + 1 && UsersBut(m.history, b, to)
    ensures m.backups == KeepNewest(old(m.backups) + [(to, backup)], m.config.backupRetentionCount)
  {
    state' := LogUsers(m, to, now, state, b);
    ghost var log := m.history;
    KeepsSome(m);
    state', backup := RunBackup(m, BACKUP, now, state');
    assert LogsOne(log, m.history, Checkpoint(BACKUP));
    UsersGrow(log, m.history, b, to);
  }

  lemma UsersSwap(log: seq<WalEntry>, b: nat, m: nat)
    requires UsersBut(log, b, m)
    ensures UsersBut(log, m, b)
  {
    forall k | 0 <= k < |log| ensures CreatesUser(log, k) || ((k == b || k == m) && log[k].operation.Checkpoint?) {
      assert CreatesUser(log, k) || ((k == b || k == m) && log[k].operation.Checkpoint?);
    }
  }

  lemma WrongAt(m: PitrManager, b: nat, n: nat, newest: nat)
    requires m.Valid() && m.Faithful() && b <= n < newest && UsersBut(m.history, b, newest) && m.currentLsn == newest + 1
    requires 1 < m.config.backupRetentionCount
    requires exists x, y :: m.backups == KeepNewest([(b, x), (newest, y)], m.config.backupRetentionCount)
    ensures LastAtMost(m.backups, n).Some? && LastAtMost(m.backups, n).value.0 == b
    ensures m.memoryState.Some? && Window(m.history, b, n, m.currentLsn) == m.history[b..n]
    ensures Replay(m.memoryState.value, m.history[b..n]) != Replay(EMPTY, m.history[..n])
  {
    var x, y :| m.backups == [(b, x), (newest, y)];
    assert m.backups[0] in m.backups;
    assert m.backups[|m.backups| - 1].0 == newest;
    if b < n { LastUserIsNew(m.history, b, n, newest); }
    TargetBeforeNewestUnsafe(m.history, m.hash, m.genesis, b, n, newest, UserNamed(newest - 1));
  }
}
