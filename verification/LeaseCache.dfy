/**
 Partition leases: agents with caches of expiring leases (crates/streamhouse-agent/src/lease_manager.rs)
 over the lease and transfer tables of the metadata store (crates/streamhouse-metadata/src/store.rs for
 SQLite, postgres.rs for Postgres). Agents share a clock; each public method is one step.
 */
module LeaseCache {
  import opened Ordering

  type Agent = string

  const LEASE_MS: int := 300_000
  const HANDOFF_MS: int := 30_000

  datatype Backend = Sqlite | Postgres

  datatype Error = NoOrganization | Conflict | NotFound | TimedOut | Unreachable

  datatype Result<+T> = Ok(value: T) | Err(error: Error)

  // ---------- the metadata store ----------

  datatype Row = Row(agent: Agent, expiresAt: int, epoch: int)

  datatype TransferState = Pending | Accepted | Completed | Rejected | Lapsed

  datatype Transfer = Transfer(partition: Partition, from: Agent, to: Agent, fromEpoch: int, state: TransferState, timeoutAt: int)

  datatype Database = Database(leases: map<Partition, Row>, transfers: map<string, Transfer>)

  /** The upsert: a free, lapsed or own lease is granted with the next epoch, any other is left alone. */
  function Upsert(leases: map<Partition, Row>, p: Partition, a: Agent, duration: int, now: int): map<Partition, Row> {
    if p !in leases then leases[p := Row(a, now + duration, 1)]
    else if leases[p].agent == a || leases[p].expiresAt < now then leases[p := Row(a, now + duration, leases[p].epoch + 1)]
    else leases
  }

  /** get_partition_lease: only unexpired rows are seen. */
  function Lookup(leases: map<Partition, Row>, p: Partition, now: int): Option<Row> {
    if p in leases && leases[p].expiresAt > now then Some(leases[p]) else None
  }

  /** acquire_partition_lease: upsert, then look whose it is. */
  function StoreAcquire(leases: map<Partition, Row>, p: Partition, a: Agent, duration: int, now: int): (map<Partition, Row>, Result<Row>) {
    var leases' := Upsert(leases, p, a, duration, now);
    (leases',
     match Lookup(leases', p, now)
     case None => Err(NotFound)
     case Some(row) => if row.agent == a then Ok(row) else Err(Conflict))
  }

  /** release_partition_lease deletes the row. */
  function StoreRelease(leases: map<Partition, Row>, p: Partition, a: Agent): (map<Partition, Row>, Result<()>) {
    if p in leases && leases[p].agent == a then (leases - {p}, Ok(())) else (leases, Err(NotFound))
  }

  function StoreInitiate(backend: Backend, db: Database, id: string, p: Partition, from: Agent, to: Agent, timeout: int, now: int): Result<Database> {
    match Lookup(db.leases, p, now)
    case None => Err(NotFound)
    case Some(row) =>
      if row.agent != from then Err(Conflict)
      else if backend.Sqlite? && (exists t :: t in db.transfers && db.transfers[t].partition == p
                                              && (db.transfers[t].state.Pending? || db.transfers[t].state.Accepted?)) then Err(Conflict)
      else Ok(db.(transfers := db.transfers[id := Transfer(p, from, to, row.epoch, Pending, now + timeout)]))
  }

  function StoreAccept(backend: Backend, db: Database, id: string, a: Agent, now: int): Result<Database> {
    if id !in db.transfers then Err(NotFound)
    else
      var t := db.transfers[id];
      if !t.state.Pending? || t.to != a then Err(Conflict)
      else if backend.Sqlite? && now > t.timeoutAt then Err(TimedOut)
      else Ok(db.(transfers := db.transfers[id := t.(state := Accepted)]))
  }

  /** The lease rows once an accepted transfer is completed: SQLite overwrites, Postgres acquires on the target's behalf. */
  function HandedOver(backend: Backend, leases: map<Partition, Row>, t: Transfer, now: int): (map<Partition, Row>, Result<Row>) {
    match backend
    case Sqlite =>
      var row := Row(t.to, now + HANDOFF_MS, t.fromEpoch + 1);
      (if t.partition in leases then leases[t.partition := row] else leases, Ok(row))
    case Postgres =>
      // The organization is taken from the unexpired row; without one the acquisition is refused.
      if Lookup(leases, t.partition, now).None? then (leases, Err(NoOrganization))
      else StoreAcquire(leases, t.partition, t.to, HANDOFF_MS, now)
  }

  function StoreComplete(backend: Backend, db: Database, id: string, now: int): (Database, Result<Partition>) {
    if id !in db.transfers then (db, Err(NotFound))
    else if !db.transfers[id].state.Accepted? then (db, Err(Conflict))
    else
      var t := db.transfers[id];
      var (leases', r) := HandedOver(backend, db.leases, t, now);
      (Database(leases', db.transfers[id := t.(state := Completed)]),
       match r case Ok(_) => Ok(t.partition) case Err(e) => Err(e))
  }

  function StoreReject(db: Database, id: string): Database {
    if id in db.transfers && (db.transfers[id].state.Pending? || db.transfers[id].state.Accepted?)
    then db.(transfers := db.transfers[id := db.transfers[id].(state := Rejected)])
    else db
  }

  /** cleanup_timed_out_transfers. */
  function StoreExpireTransfers(db: Database, now: int): Database {
    db.(transfers := map id | id in db.transfers ::
                       var t := db.transfers[id];
                       if (t.state.Pending? || t.state.Accepted?) && t.timeoutAt < now then t.(state := Lapsed) else t)
  }

  // ---------- the agent ----------

  datatype CachedLease = CachedLease(epoch: int, expiresAt: int)

  type Cache = map<Partition, CachedLease>

  predicate IsExpired(expiresAt: int, now: int) { now >= expiresAt }

  /** get_epoch. */
  function GetEpoch(cache: Cache, p: Partition, now: int): Option<int> {
    if p in cache && !IsExpired(cache[p].expiresAt, now) then Some(cache[p].epoch) else None
  }

  /** validate_epoch succeeds. */
  predicate Validates(cache: Cache, p: Partition, expected: int, now: int) {
    GetEpoch(cache, p, now) == Some(expected)
  }

  datatype Outcome = Outcome(leases: map<Partition, Row>, cache: Cache, result: Result<int>)

  /** acquire_lease and the body of renew_lease; `org` is whether the topic's organization was found. */
  function Acquire(a: Agent, p: Partition, org: bool, now: int, leases: map<Partition, Row>, cache: Cache): Outcome {
    if !org then Outcome(leases, cache, Err(NoOrganization))
    else
      var (leases', r) := StoreAcquire(leases, p, a, LEASE_MS, now);
      match r
      case Ok(row) => Outcome(leases', cache[p := CachedLease(row.epoch, row.expiresAt)], Ok(row.epoch))
      case Err(e) => Outcome(leases', cache, Err(e))
  }

  function Ensure(a: Agent, p: Partition, org: bool, now: int, leases: map<Partition, Row>, cache: Cache): Outcome {
    match GetEpoch(cache, p, now)
    case Some(epoch) => Outcome(leases, cache, Ok(epoch))
    case None => Acquire(a, p, org, now, leases, cache)
  }

  /** One lease of a renewal cycle: renew, and on failure evict only what has expired. */
  function Renew(a: Agent, p: Partition, org: bool, now: int, leases: map<Partition, Row>, cache: Cache): Outcome {
    var o := Acquire(a, p, org, now, leases, cache);
    if o.result.Err? && (p !in cache || IsExpired(cache[p].expiresAt, now)) then o.(cache := cache - {p}) else o
  }

  // ---------- what the calls answer ----------

  /** The store grants a free, lapsed or own lease and nothing else, for the duration, under the next epoch. */
  lemma GrantedIff(leases: map<Partition, Row>, p: Partition, a: Agent, duration: int, now: int)
    requires 0 < duration
    ensures var (leases', r) := StoreAcquire(leases, p, a, duration, now);
            && (r.Ok? <==> p !in leases || leases[p].agent == a || leases[p].expiresAt < now)
            && (r.Ok? ==> r.value == Row(a, now + duration, if p in leases then leases[p].epoch + 1 else 1)
                          && leases' == leases[p := r.value])
            && (r.Err? ==> leases' == leases && r.error == if leases[p].expiresAt > now then Conflict else NotFound)
  {
  }

  /** When ensure_lease can answer: from the cache, or by a grant. */
  predicate CanHold(a: Agent, p: Partition, org: bool, now: int, leases: map<Partition, Row>, cache: Cache) {
    || (p in cache && now < cache[p].expiresAt)
    || (org && (p !in leases || leases[p].agent == a || leases[p].expiresAt < now))
  }

  /**
   The epoch that ensure_lease answers validates, from then until the lease ends; an answer that was not in the
   cache already is the epoch of the agent's own row, with a full lease from now on.
   */
  lemma EnsuredEpochValidates(a: Agent, p: Partition, org: bool, now: int, leases: map<Partition, Row>, cache: Cache)
    ensures var o := Ensure(a, p, org, now, leases, cache);
            && (o.result.Ok? <==> CanHold(a, p, org, now, leases, cache))
            && (o.result.Ok? ==>
                  && p in o.cache && now < o.cache[p].expiresAt
                  && forall t :: now <= t < o.cache[p].expiresAt ==> Validates(o.cache, p, o.result.value, t))
            && (o.result.Ok? && !(p in cache && now < cache[p].expiresAt) ==>
                  && p in o.leases && o.leases[p] == Row(a, now + 300_000, o.result.value)
                  && o.cache[p].expiresAt == now + 300_000)
            && (o.result.Ok? && p in cache && now < cache[p].expiresAt ==> o.leases == leases && o.cache == cache)
            && (o.result.Err? ==> o.leases == leases && o.cache == cache)
  {
    GrantedIff(leases, p, a, LEASE_MS, now);
  }

  /** The same for acquire_lease, which does not look at the cache. */
  lemma AcquiredEpochValidates(a: Agent, p: Partition, org: bool, now: int, leases: map<Partition, Row>, cache: Cache)
    ensures var o := Acquire(a, p, org, now, leases, cache);
            && (o.result.Ok? <==> org && (p !in leases || leases[p].agent == a || leases[p].expiresAt < now))
            && (o.result.Ok? ==>
                  && p in o.leases && o.leases[p] == Row(a, now + LEASE_MS, o.result.value)
                  && forall t :: now <= t < now + LEASE_MS ==> Validates(o.cache, p, o.result.value, t))
            && (o.result.Err? ==> o.leases == leases && o.cache == cache)
  {
    GrantedIff(leases, p, a, LEASE_MS, now);
  }

  /** A renewal that succeeds is a fresh grant; one that fails changes no row, and drops the lease from the cache exactly if it has expired. */
  lemma RenewedOrEvicted(a: Agent, p: Partition, org: bool, now: int, leases: map<Partition, Row>, cache: Cache)
    ensures var o := Renew(a, p, org, now, leases, cache);
            && (o.result.Ok? <==> org && (p !in leases || leases[p].agent == a || leases[p].expiresAt < now))
            && (o.result.Ok? ==> p in o.leases && o.leases[p] == Row(a, now + 300_000, o.result.value)
                                 && o.cache == cache[p := CachedLease(o.result.value, now + 300_000)])
            && (o.result.Err? ==> o.leases == leases && (p in o.cache <==> p in cache && now < cache[p].expiresAt))
            && forall q :: q != p ==> (q in o.cache <==> q in cache) && (q in cache ==> o.cache[q] == cache[q])
  {
    GrantedIff(leases, p, a, LEASE_MS, now);
  }

  // ---------- the system ----------

  datatype System = System(db: Database, caches: map<Agent, Cache>, clock: int)

  datatype Action =
    | EnsureLease(p: Partition, org: bool)
    | RenewLease(p: Partition, org: bool)
    | ReleaseLease(p: Partition, reachable: bool)
    | InitiateTransfer(id: string, p: Partition, to: Agent, timeout: int, org: bool)
    | AcceptTransfer(id: string)
    | RejectTransfer(id: string)
    | CompleteTransfer(id: string)
    | ExpireTransfers
    | Restart

  /** An agent's step, with its effect on the tables and on its own cache. */
  function Act(backend: Backend, db: Database, a: Agent, cache: Cache, action: Action, now: int): (Database, Cache) {
    match action
    case EnsureLease(p, org) =>
      var o := Ensure(a, p, org, now, db.leases, cache);
      (db.(leases := o.leases), o.cache)
    case RenewLease(p, org) =>
      var o := Renew(a, p, org, now, db.leases, cache);
      (db.(leases := o.leases), o.cache)
    case ReleaseLease(p, reachable) =>
      (if reachable then db.(leases := StoreRelease(db.leases, p, a).0) else db, cache - {p})
    case InitiateTransfer(id, p, to, timeout, org) =>
      var o := Ensure(a, p, org, now, db.leases, cache);
      var db' := db.(leases := o.leases);
      if o.result.Err? then (db', o.cache)
      else
        (match StoreInitiate(backend, db', id, p, a, to, timeout, now) case Ok(d) => d case Err(_) => db', o.cache)
    case AcceptTransfer(id) => (match StoreAccept(backend, db, id, a, now) case Ok(d) => d case Err(_) => db, cache)
    case RejectTransfer(id) => (StoreReject(db, id), cache)
    case CompleteTransfer(id) =>
      var (db', r) := StoreComplete(backend, db, id, now);
      (db', match r case Ok(p) => cache - {p} case Err(_) => cache)
    case ExpireTransfers => (StoreExpireTransfers(db, now), cache)
    case Restart => (db, map[])
  }

  ghost predicate Steps(backend: Backend, s: System, s': System, a: Agent, action: Action, now: int) {
    && a in s.caches && s.clock <= now
    && var (db', cache') := Act(backend, s.db, a, s.caches[a], action, now);
       s' == System(db', s.caches[a := cache'], now)
  }

  // ---------- exclusivity ----------

  /** Agent `a` can pass validate_epoch for `p` at time `now`. */
  ghost predicate Passes(s: System, a: Agent, p: Partition, now: int) {
    a in s.caches && GetEpoch(s.caches[a], p, now).Some?
  }

  /** At no time from now on do two agents pass for one partition, as things stand. */
  ghost predicate Exclusive(s: System) {
    forall a, b, p, now :: s.clock <= now && Passes(s, a, p, now) && Passes(s, b, p, now) ==> a == b
  }

  /** A live cached lease is backed by the agent's own row, which nobody else is granted before the cache entry expires. */
  ghost predicate Backed(leases: map<Partition, Row>, clock: int, a: Agent, cache: Cache) {
    forall p :: p in cache && clock < cache[p].expiresAt ==>
      p in leases && leases[p].agent == a && cache[p].expiresAt <= leases[p].expiresAt + 1
  }

  ghost predicate Inv(s: System) {
    forall a :: a in s.caches ==> Backed(s.db.leases, s.clock, a, s.caches[a])
  }

  lemma InvIsExclusive(s: System)
    requires Inv(s)
    ensures Exclusive(s)
  {
    forall a, b, p, now | s.clock <= now && Passes(s, a, p, now) && Passes(s, b, p, now) ensures a == b {
      assert Backed(s.db.leases, s.clock, a, s.caches[a]) && Backed(s.db.leases, s.clock, b, s.caches[b]);
    }
  }

  /** What a grant to `a` leaves to everyone else: their live leases are on other partitions. */
  lemma UpsertKeepsOthers(leases: map<Partition, Row>, clock: int, now: int, b: Agent, cache: Cache, p: Partition, a: Agent, duration: int)
    requires Backed(leases, clock, b, cache) && clock <= now && a != b
    ensures Backed(Upsert(leases, p, a, duration, now), now, b, cache)
  {
  }

  lemma AcquireKeepsOwn(leases: map<Partition, Row>, clock: int, now: int, a: Agent, cache: Cache, p: Partition, org: bool)
    requires Backed(leases, clock, a, cache) && clock <= now
    ensures var o := Acquire(a, p, org, now, leases, cache); Backed(o.leases, now, a, o.cache)
  {
  }

  lemma ReleaseKeepsOthers(leases: map<Partition, Row>, clock: int, now: int, b: Agent, cache: Cache, p: Partition, a: Agent)
    requires Backed(leases, clock, b, cache) && clock <= now && a != b
    ensures Backed(StoreRelease(leases, p, a).0, now, b, cache)
  {
  }

  /** Agent `b` has a live cached lease on `p` that runs past `until`. */
  ghost predicate LiveBeyond(s: System, b: Agent, p: Partition, now: int, until: int) {
    b in s.caches && p in s.caches[b] && now < s.caches[b][p].expiresAt && until < s.caches[b][p].expiresAt
  }

  /**
   When a completion is harmless. SQLite overwrites the row, so nobody but the caller may still be relying
   on it, except the target itself for no longer than the row will run. Postgres leaves another holder's
   row alone, so only the target's own longer lease is at risk.
   */
  ghost predicate SafeCompletion(backend: Backend, s: System, caller: Agent, t: Transfer, now: int) {
    forall b :: b != caller && LiveBeyond(s, b, t.partition, now, now) ==>
      if b == t.to then !LiveBeyond(s, b, t.partition, now, now + HANDOFF_MS + 1) else backend.Postgres?
  }

  /** A completion called by the agent that holds the lease is safe. */
  lemma HolderCompletesSafely(backend: Backend, s: System, caller: Agent, t: Transfer, now: int)
    requires Inv(s) && s.clock <= now && t.partition in s.db.leases && s.db.leases[t.partition].agent == caller
    ensures SafeCompletion(backend, s, caller, t, now)
  {
    forall b | b != caller ensures !LiveBeyond(s, b, t.partition, now, now) {
      if b in s.caches { assert Backed(s.db.leases, s.clock, b, s.caches[b]); }
    }
  }

  /**
   The same, told from the lease row alone, which a caller can look up: no row; a lapsed one; the caller's own;
   the target's, ending within the handoff time; or, on Postgres, another agent's.
   */
  predicate RowSafe(backend: Backend, leases: map<Partition, Row>, caller: Agent, t: Transfer, now: int) {
    t.partition in leases ==>
      var row := leases[t.partition];
      || row.agent == caller || row.expiresAt < now
      || (if row.agent == t.to then row.expiresAt <= now + HANDOFF_MS else backend.Postgres?)
  }

  /** The row tells exactly: it allows the completion iff no state with these rows makes the completion harmful. */
  lemma RowSafeIff(backend: Backend, db: Database, caller: Agent, t: Transfer, now: int)
    ensures RowSafe(backend, db.leases, caller, t, now) <==>
            (forall s :: Inv(s) && s.db == db && s.clock <= now ==> SafeCompletion(backend, s, caller, t, now))
  {
    if RowSafe(backend, db.leases, caller, t, now) {
      forall s | Inv(s) && s.db == db && s.clock <= now ensures SafeCompletion(backend, s, caller, t, now) {
        RowSafeSuffices(backend, s, caller, t, now);
      }
    } else {
      var row := db.leases[t.partition];
      var held: Cache := map[t.partition := CachedLease(row.epoch, row.expiresAt + 1)];
      var s := System(db, map[row.agent := held], now);
      assert Inv(s) && LiveBeyond(s, row.agent, t.partition, now, now);
      assert !SafeCompletion(backend, s, caller, t, now);
    }
  }

  lemma RowSafeSuffices(backend: Backend, s: System, caller: Agent, t: Transfer, now: int)
    requires Inv(s) && s.clock <= now && RowSafe(backend, s.db.leases, caller, t, now)
    ensures SafeCompletion(backend, s, caller, t, now)
  {
    forall b | b != caller && LiveBeyond(s, b, t.partition, now, now)
      ensures if b == t.to then !LiveBeyond(s, b, t.partition, now, now + HANDOFF_MS + 1) else backend.Postgres?
    {
      assert Backed(s.db.leases, s.clock, b, s.caches[b]);
    }
  }

  ghost predicate Completes(s: System, action: Action) {
    action.CompleteTransfer? && action.id in s.db.transfers && s.db.transfers[action.id].state.Accepted?
  }

  lemma CompletionKeeps(backend: Backend, s: System, caller: Agent, id: string, now: int, b: Agent)
    requires Inv(s) && s.clock <= now && caller in s.caches && b in s.caches
    requires id in s.db.transfers && s.db.transfers[id].state.Accepted?
    requires SafeCompletion(backend, s, caller, s.db.transfers[id], now)
    ensures var (db', cache') := Act(backend, s.db, caller, s.caches[caller], CompleteTransfer(id), now);
            Backed(db'.leases, now, b, if b == caller then cache' else s.caches[b])
  {
    var t := s.db.transfers[id];
    assert Backed(s.db.leases, s.clock, b, s.caches[b]);
    if b != caller && t.partition in s.caches[b] && now < s.caches[b][t.partition].expiresAt {
      assert LiveBeyond(s, b, t.partition, now, now);
    }
  }

  lemma StepKeeps(backend: Backend, s: System, a: Agent, action: Action, now: int, b: Agent)
    requires Inv(s) && s.clock <= now && a in s.caches && b in s.caches
    requires Completes(s, action) ==> SafeCompletion(backend, s, a, s.db.transfers[action.id], now)
    ensures var (db', cache') := Act(backend, s.db, a, s.caches[a], action, now);
            Backed(db'.leases, now, b, if b == a then cache' else s.caches[b])
  {
    var cache, cacheB := s.caches[a], s.caches[b];
    assert Backed(s.db.leases, s.clock, b, cacheB);
    assert Backed(s.db.leases, now, b, cacheB);
    match action
    case EnsureLease(p, org) => EnsureKeeps(s.db.leases, s.clock, now, a, cache, b, cacheB, p, org);
    case RenewLease(p, org) => RenewKeeps(s.db.leases, s.clock, now, a, cache, b, cacheB, p, org);
    case ReleaseLease(p, reachable) =>
      if b != a { ReleaseKeepsOthers(s.db.leases, s.clock, now, b, cacheB, p, a); }
    case InitiateTransfer(id, p, to, timeout, org) =>
      EnsureKeeps(s.db.leases, s.clock, now, a, cache, b, cacheB, p, org);
      InitiateLeases(backend, s.db, a, cache, action, now);
    case AcceptTransfer(_) =>
    case RejectTransfer(_) =>
    case CompleteTransfer(id) => if Completes(s, action) { CompletionKeeps(backend, s, a, id, now, b); }
    case ExpireTransfers =>
    case Restart =>
  }

  lemma EnsureKeeps(leases: map<Partition, Row>, clock: int, now: int, a: Agent, cache: Cache, b: Agent, cacheB: Cache, p: Partition, org: bool)
    requires Backed(leases, clock, b, cacheB) && clock <= now && (b == a ==> cacheB == cache)
    ensures var o := Ensure(a, p, org, now, leases, cache); Backed(o.leases, now, b, if b == a then o.cache else cacheB)
  {
    if b == a { AcquireKeepsOwn(leases, clock, now, a, cache, p, org); }
    else { UpsertKeepsOthers(leases, clock, now, b, cacheB, p, a, LEASE_MS); }
  }

  lemma RenewKeeps(leases: map<Partition, Row>, clock: int, now: int, a: Agent, cache: Cache, b: Agent, cacheB: Cache, p: Partition, org: bool)
    requires Backed(leases, clock, b, cacheB) && clock <= now && (b == a ==> cacheB == cache)
    ensures var o := Renew(a, p, org, now, leases, cache); Backed(o.leases, now, b, if b == a then o.cache else cacheB)
  {
    if b == a { AcquireKeepsOwn(leases, clock, now, a, cache, p, org); }
    else { UpsertKeepsOthers(leases, clock, now, b, cacheB, p, a, LEASE_MS); }
  }

  lemma InitiateLeases(backend: Backend, db: Database, a: Agent, cache: Cache, action: Action, now: int)
    requires action.InitiateTransfer?
    ensures var o := Ensure(a, action.p, action.org, now, db.leases, cache);
            var (db', cache') := Act(backend, db, a, cache, action, now);
            db'.leases == o.leases && cache' == o.cache
  {
  }

  /** Every step keeps the invariant, completions only when safe. */
  lemma StepInv(backend: Backend, s: System, s': System, a: Agent, action: Action, now: int)
    requires Inv(s) && Steps(backend, s, s', a, action, now)
    requires Completes(s, action) ==> SafeCompletion(backend, s, a, s.db.transfers[action.id], now)
    ensures Inv(s')
  {
    forall b | b in s'.caches ensures Backed(s'.db.leases, s'.clock, b, s'.caches[b]) {
      StepKeeps(backend, s, a, action, now, b);
    }
  }

  datatype Event = Event(agent: Agent, action: Action, now: int)

  /** States and the steps between them, starting with empty caches. */
  ghost predicate Run(backend: Backend, run: seq<System>, events: seq<Event>) {
    && |run| == |events| + 1
    && (forall a :: a in run[0].caches ==> run[0].caches[a] == map[])
    && forall i :: 0 <= i < |events| ==> StepAt(backend, run, events, i)
  }

  ghost predicate StepAt(backend: Backend, run: seq<System>, events: seq<Event>, i: nat)
    requires |run| == |events| + 1 && i < |events|
  {
    Steps(backend, run[i], run[i + 1], events[i].agent, events[i].action, events[i].now)
  }

  ghost predicate SafeEvent(backend: Backend, s: System, e: Event) {
    Completes(s, e.action) ==> SafeCompletion(backend, s, e.agent, s.db.transfers[e.action.id], e.now)
  }

  /** Lease exclusivity: in every run whose completions are safe, at every point at most one agent passes for a partition. */
  lemma {:induction false} LeasesAreExclusive(backend: Backend, run: seq<System>, events: seq<Event>, i: nat)
    requires Run(backend, run, events) && i <= |events|
    requires forall j :: 0 <= j < i ==> SafeEvent(backend, run[j], events[j])
    ensures Inv(run[i]) && Exclusive(run[i])
  {
    if 0 < i {
      LeasesAreExclusive(backend, run, events, i - 1);
      var e := events[i - 1];
      assert SafeEvent(backend, run[i - 1], e);
      assert StepAt(backend, run, events, i - 1);
      StepInv(backend, run[i - 1], run[i], e.agent, e.action, e.now);
    }
    InvIsExclusive(run[i]);
  }

  /** So a caller that looks at the row first keeps leases exclusive, over every run. */
  lemma {:induction false} RowChecksKeepExclusive(backend: Backend, run: seq<System>, events: seq<Event>, i: nat)
    requires Run(backend, run, events) && i <= |events|
    requires forall j :: 0 <= j < i && Completes(run[j], events[j].action) ==>
               RowSafe(backend, run[j].db.leases, events[j].agent, run[j].db.transfers[events[j].action.id], events[j].now)
    ensures Exclusive(run[i]) && forall j :: 0 <= j < i ==> SafeEvent(backend, run[j], events[j])
  {
    if 0 < i {
      RowChecksKeepExclusive(backend, run, events, i - 1);
      LeasesAreExclusive(backend, run, events, i - 1);
      var s, e := run[i - 1], events[i - 1];
      assert StepAt(backend, run, events, i - 1);
      if Completes(s, e.action) {
        RowSafeSuffices(backend, s, e.agent, s.db.transfers[e.action.id], e.now);
      }
    }
    LeasesAreExclusive(backend, run, events, i);
  }

  // ---------- an unsafe completion breaks exclusivity ----------

  /** Another agent that relies on the lease, in a way the completion does not respect. */
  ghost predicate Endangers(backend: Backend, s: System, caller: Agent, t: Transfer, now: int, b: Agent) {
    b != caller && LiveBeyond(s, b, t.partition, now, now)
    && if b == t.to then LiveBeyond(s, b, t.partition, now, now + HANDOFF_MS + 1) else backend.Sqlite?
  }

  /** Such a completion leaves the target a short row, while `b` goes on relying on its own. */
  lemma EndangeredRow(backend: Backend, s: System, s1: System, caller: Agent, id: string, now: int, b: Agent)
    requires Inv(s) && Steps(backend, s, s1, caller, CompleteTransfer(id), now) && Completes(s, CompleteTransfer(id))
    requires Endangers(backend, s, caller, s.db.transfers[id], now, b)
    ensures var t := s.db.transfers[id];
            && t.partition in s1.db.leases && s1.db.leases[t.partition].agent == t.to
            && s1.db.leases[t.partition].expiresAt == now + HANDOFF_MS
            && b in s1.caches && s1.caches[b] == s.caches[b]
            && GetEpoch(s1.caches[caller], t.partition, now).None?
            && (b != t.to && t.to in s.caches ==> GetEpoch(s1.caches[t.to], t.partition, now).None?)
  {
    var t := s.db.transfers[id];
    assert Backed(s.db.leases, s.clock, b, s.caches[b]);
    if b != t.to && t.to in s.caches { assert Backed(s.db.leases, s.clock, t.to, s.caches[t.to]); }
  }

  /** Whoever finds the row its own or lapsed, and nothing in its cache, is granted the lease. */
  lemma GrantSplits(backend: Backend, s: System, c: Agent, b: Agent, p: Partition, later: int) returns (s2: System)
    requires c in s.caches && b in s.caches && c != b && s.clock <= later && p in s.db.leases
    requires s.db.leases[p].agent == c || s.db.leases[p].expiresAt < later
    requires GetEpoch(s.caches[c], p, later).None? && GetEpoch(s.caches[b], p, later).Some?
    ensures Steps(backend, s, s2, c, EnsureLease(p, true), later) && !Exclusive(s2)
  {
    var (db2, cache2) := Act(backend, s.db, c, s.caches[c], EnsureLease(p, true), later);
    s2 := System(db2, s.caches[c := cache2], later);
    assert Passes(s2, c, p, later) && Passes(s2, b, p, later);
  }

  /** The target, or the caller once the short row has lapsed, is granted the lease that `b` still relies on. */
  lemma UnsafeCompletion(backend: Backend, s: System, s1: System, caller: Agent, id: string, now: int)
    returns (c: Agent, later: int, s2: System)
    requires Inv(s) && Steps(backend, s, s1, caller, CompleteTransfer(id), now) && Completes(s, CompleteTransfer(id))
    requires s.db.transfers[id].to in s.caches
    requires !SafeCompletion(backend, s, caller, s.db.transfers[id], now)
    ensures Steps(backend, s1, s2, c, EnsureLease(s.db.transfers[id].partition, true), later) && !Exclusive(s2)
  {
    var t := s.db.transfers[id];
    var b :| b != caller && LiveBeyond(s, b, t.partition, now, now) &&
             !(if b == t.to then !LiveBeyond(s, b, t.partition, now, now + HANDOFF_MS + 1) else backend.Postgres?);
    EndangeredRow(backend, s, s1, caller, id, now, b);
    c := if b == t.to then caller else t.to;
    later := if b == t.to then now + HANDOFF_MS + 1 else now;
    s2 := GrantSplits(backend, s1, c, b, t.partition, later);
  }

  /** A completion is safe exactly when no agent's next ensure_lease, at whatever time, can produce two valid holders. */
  lemma CompletionSafeIff(backend: Backend, s: System, s1: System, caller: Agent, id: string, now: int)
    requires Inv(s) && Steps(backend, s, s1, caller, CompleteTransfer(id), now) && Completes(s, CompleteTransfer(id))
    requires s.db.transfers[id].to in s.caches
    ensures SafeCompletion(backend, s, caller, s.db.transfers[id], now) <==>
            (forall c, later, s2 ::
               Steps(backend, s1, s2, c, EnsureLease(s.db.transfers[id].partition, true), later) ==> Exclusive(s2))
  {
    if SafeCompletion(backend, s, caller, s.db.transfers[id], now) {
      StepInv(backend, s, s1, caller, CompleteTransfer(id), now);
      forall c, later, s2 | Steps(backend, s1, s2, c, EnsureLease(s.db.transfers[id].partition, true), later) ensures Exclusive(s2) {
        StepInv(backend, s1, s2, c, EnsureLease(s.db.transfers[id].partition, true), later);
        InvIsExclusive(s2);
      }
    } else {
      var c, later, s2 := UnsafeCompletion(backend, s, s1, caller, id, now);
    }
  }

  /** The state after an event. */
  ghost function After(backend: Backend, s: System, e: Event): System
    requires e.agent in s.caches
  {
    var (db', cache') := Act(backend, s.db, e.agent, s.caches[e.agent], e.action, e.now);
    System(db', s.caches[e.agent := cache'], e.now)
  }

  /** One more event at the end of a run. */
  lemma Extend(backend: Backend, run: seq<System>, events: seq<Event>, e: Event) returns (run': seq<System>, events': seq<Event>)
    requires Run(backend, run, events) && e.agent in run[|events|].caches && run[|events|].clock <= e.now
    ensures run' == run + [After(backend, run[|events|], e)] && events' == events + [e]
    ensures Run(backend, run', events')
  {
    run', events' := run + [After(backend, run[|events|], e)], events + [e];
    forall i | 0 <= i < |events'| ensures StepAt(backend, run', events', i) {
      if i < |events| { assert StepAt(backend, run, events, i); }
    }
  }

  const START := System(Database(map[], map[]), map["a" := map[], "b" := map[], "c" := map[]], 0)

  /** Agent "a" holds the lease under `epoch`, offered under epoch 1 to "b", which has accepted. */
  ghost function Offer(p: Partition, epoch: int): System {
    System(Database(map[p := Row("a", LEASE_MS, epoch)], map["x" := Transfer(p, "a", "b", 1, Accepted, 1000)]),
           map["a" := map[p := CachedLease(epoch, LEASE_MS)], "b" := map[], "c" := map[]], 0)
  }

  /** Agent "a" is granted a lease, offers it to "b", and "b" accepts, all at time 0. */
  lemma Offered(backend: Backend, p: Partition) returns (run: seq<System>, events: seq<Event>)
    ensures Run(backend, run, events) && |events| == 3 && run[0] == START && run[3] == Offer(p, 1)
    ensures forall i :: 0 <= i < 3 ==> !events[i].action.CompleteTransfer? && !events[i].action.ReleaseLease?
  {
    var e0, e1, e2 := Event("a", EnsureLease(p, true), 0), Event("a", InitiateTransfer("x", p, "b", 1000, true), 0), Event("b", AcceptTransfer("x"), 0);
    var s1 := After(backend, START, e0);
    assert s1 == System(Database(map[p := Row("a", LEASE_MS, 1)], map[]), START.caches["a" := map[p := CachedLease(1, LEASE_MS)]], 0);
    var s2 := After(backend, s1, e1);
    assert s2 == System(s1.db.(transfers := map["x" := Transfer(p, "a", "b", 1, Pending, 1000)]), s1.caches, 0);
    var s3 := After(backend, s2, e2);
    run, events := [START, s1, s2, s3], [e0, e1, e2];
  }

  /**
   SQLite, called by the transfer's own source, only late: the source's lease lapses, a third agent is
   granted the partition, the completion hands the row to the target under the third agent's feet, and
   the target's next ensure_lease makes two agents pass.
   */
  lemma LateCompletionSplitsBrain(p: Partition) returns (run: seq<System>, events: seq<Event>)
    ensures Run(Sqlite, run, events) && |events| == 6
    ensures events[4].action == CompleteTransfer("x") && Completes(run[4], events[4].action)
    ensures run[4].db.transfers["x"].from == events[4].agent
    ensures !SafeEvent(Sqlite, run[4], events[4]) && !Exclusive(run[6])
  {
    run, events := Offered(Sqlite, p);
    var late := LEASE_MS + 1;
    LateSteps(p, late);
    run, events := Extend(Sqlite, run, events, Event("c", EnsureLease(p, true), late));
    run, events := Extend(Sqlite, run, events, Event("a", CompleteTransfer("x"), late));
    run, events := Extend(Sqlite, run, events, Event("b", EnsureLease(p, true), late));
  }

  /**
   Postgres: the target is granted the lapsed lease itself, the late completion cuts its row to the handoff
   time, and once that has run out a third agent is granted what the target still relies on.
   */
  lemma ShortenedRowSplitsBrain(p: Partition) returns (run: seq<System>, events: seq<Event>)
    ensures Run(Postgres, run, events) && |events| == 6
    ensures events[4].action == CompleteTransfer("x") && Completes(run[4], events[4].action)
    ensures run[4].db.transfers["x"].from == events[4].agent
    ensures !SafeEvent(Postgres, run[4], events[4]) && !Exclusive(run[6])
  {
    run, events := Offered(Postgres, p);
    var late := LEASE_MS + 1;
    ShorteningSteps(p, late);
    run, events := Extend(Postgres, run, events, Event("b", EnsureLease(p, true), late));
    run, events := Extend(Postgres, run, events, Event("a", CompleteTransfer("x"), late));
    run, events := Extend(Postgres, run, events, Event("c", EnsureLease(p, true), late + HANDOFF_MS + 1));
  }

  lemma ShorteningSteps(p: Partition, late: int)
    requires late == LEASE_MS + 1
    ensures var s4 := After(Postgres, Offer(p, 1), Event("b", EnsureLease(p, true), late));
            var s5 := After(Postgres, s4, Event("a", CompleteTransfer("x"), late));
            var s6 := After(Postgres, s5, Event("c", EnsureLease(p, true), late + HANDOFF_MS + 1));
            && Completes(s4, CompleteTransfer("x")) && s4.db.transfers["x"] == Transfer(p, "a", "b", 1, Accepted, 1000)
            && !SafeEvent(Postgres, s4, Event("a", CompleteTransfer("x"), late)) && !Exclusive(s6)
  {
    var s4 := After(Postgres, Offer(p, 1), Event("b", EnsureLease(p, true), late));
    assert s4.db == Offer(p, 1).db.(leases := map[p := Row("b", late + LEASE_MS, 2)]);
    assert LiveBeyond(s4, "b", p, late, late) && LiveBeyond(s4, "b", p, late, late + HANDOFF_MS + 1);
    var s5 := After(Postgres, s4, Event("a", CompleteTransfer("x"), late));
    assert s5.db.leases[p] == Row("b", late + HANDOFF_MS, 3);
    var later := late + HANDOFF_MS + 1;
    var s6 := After(Postgres, s5, Event("c", EnsureLease(p, true), later));
    assert Passes(s6, "b", p, later) && Passes(s6, "c", p, later);
  }

  lemma LateSteps(p: Partition, late: int)
    requires late == LEASE_MS + 1
    ensures var s4 := After(Sqlite, Offer(p, 1), Event("c", EnsureLease(p, true), late));
            var s5 := After(Sqlite, s4, Event("a", CompleteTransfer("x"), late));
            var s6 := After(Sqlite, s5, Event("b", EnsureLease(p, true), late));
            && Completes(s4, CompleteTransfer("x")) && s4.db.transfers["x"] == Transfer(p, "a", "b", 1, Accepted, 1000)
            && !SafeEvent(Sqlite, s4, Event("a", CompleteTransfer("x"), late)) && !Exclusive(s6)
  {
    var s4 := After(Sqlite, Offer(p, 1), Event("c", EnsureLease(p, true), late));
    assert s4.db == Offer(p, 1).db.(leases := map[p := Row("c", late + LEASE_MS, 2)]);
    assert LiveBeyond(s4, "c", p, late, late);
    var s5 := After(Sqlite, s4, Event("a", CompleteTransfer("x"), late));
    assert s5.db.leases[p] == Row("b", late + HANDOFF_MS, 2);
    var s6 := After(Sqlite, s5, Event("b", EnsureLease(p, true), late));
    assert Passes(s6, "b", p, late) && Passes(s6, "c", p, late);
  }

  // ---------- does a completed transfer move the lease? ----------

  /** Agent `a` holds an unexpired row. */
  predicate HeldBy(leases: map<Partition, Row>, p: Partition, a: Agent, now: int) {
    Lookup(leases, p, now).Some? && Lookup(leases, p, now).value.agent == a
  }

  /**
   Either store records an accepted transfer as completed, whatever becomes of the lease. On SQLite the
   target then holds it exactly when there was a row to hand over, and the call succeeds even when there
   was none. On Postgres the call succeeds, and the target holds the lease, exactly when it did already.
   */
  lemma CompletionMovesIff(backend: Backend, db: Database, id: string, now: int)
    requires id in db.transfers && db.transfers[id].state.Accepted?
    ensures var (db', r) := StoreComplete(backend, db, id, now);
            var t := db.transfers[id];
            var already := HeldBy(db.leases, t.partition, t.to, now);
            && db'.transfers[id].state.Completed?
            && (backend.Sqlite? && t.partition in db.leases ==>
                  db'.leases == db.leases[t.partition := Row(t.to, now + 30_000, t.fromEpoch + 1)])
            && (HeldBy(db'.leases, t.partition, t.to, now) <==> if backend.Sqlite? then t.partition in db.leases else already)
            && (r.Ok? <==> backend.Sqlite? || already)
  {
  }

  /** A Postgres run, with nothing unusual in it, that ends completed with the lease still the source's. */
  lemma CompletedNotMoved(p: Partition) returns (run: seq<System>, events: seq<Event>)
    ensures Run(Postgres, run, events) && |events| == 4 && events[3] == Event("a", CompleteTransfer("x"), 0)
    ensures "x" in run[4].db.transfers && run[4].db.transfers["x"] == Transfer(p, "a", "b", 1, Completed, 1000)
    ensures HeldBy(run[4].db.leases, p, "a", 0) && Passes(run[4], "a", p, 0)
  {
    run, events := Offered(Postgres, p);
    run, events := Extend(Postgres, run, events, Event("a", CompleteTransfer("x"), 0));
  }

  /** A SQLite run that ends completed, successfully, with no lease at all: the source released before completing. */
  lemma CompletedNothingMoved(p: Partition) returns (run: seq<System>, events: seq<Event>)
    ensures Run(Sqlite, run, events) && |events| == 5 && events[4] == Event("a", CompleteTransfer("x"), 0)
    ensures StoreComplete(Sqlite, run[4].db, "x", 0).1 == Ok(p)
    ensures "x" in run[5].db.transfers && run[5].db.transfers["x"] == Transfer(p, "a", "b", 1, Completed, 1000)
    ensures p !in run[5].db.leases
  {
    run, events := Offered(Sqlite, p);
    run, events := Extend(Sqlite, run, events, Event("a", ReleaseLease(p, true), 0));
    assert run[4].db.leases == map[] && run[4].db.transfers == run[3].db.transfers;
    run, events := Extend(Sqlite, run, events, Event("a", CompleteTransfer("x"), 0));
  }

  // ---------- epochs ----------

  /** The epoch of `p` moves on: its row stays as it is, or changes under a higher epoch. */
  ghost predicate EpochAdvances(leases: map<Partition, Row>, leases': map<Partition, Row>, p: Partition) {
    p in leases ==> p in leases' && RowAdvances(leases[p], leases'[p])
  }

  predicate RowAdvances(row: Row, row': Row) { row' == row || row.epoch < row'.epoch }

  /**
   The events that let epochs start over or fall back: the holder's release, which deletes the row, and a
   SQLite completion that writes the epoch after the one at initiation although renewals have passed it.
   */
  predicate RewindsEpoch(backend: Backend, db: Database, e: Event, p: Partition) {
    p in db.leases &&
    match e.action
    case ReleaseLease(q, reachable) => q == p && reachable && db.leases[p].agent == e.agent
    case CompleteTransfer(id) =>
      && backend.Sqlite? && id in db.transfers && db.transfers[id].state.Accepted? && db.transfers[id].partition == p
      && var t := db.transfers[id];
         t.fromEpoch + 1 <= db.leases[p].epoch && db.leases[p] != Row(t.to, e.now + HANDOFF_MS, t.fromEpoch + 1)
    case _ => false
  }

  /** A grant raises the epoch, and takes an unexpired lease from nobody. */
  lemma GrantAdvances(leases: map<Partition, Row>, p: Partition, a: Agent, duration: int, now: int, q: Partition)
    requires q in leases
    ensures var leases' := Upsert(leases, p, a, duration, now);
            EpochAdvances(leases, leases', q) && (now <= leases[q].expiresAt ==> leases'[q].agent == leases[q].agent)
  {
  }

  /** Where an action leaves the lease rows. */
  lemma LeasesAfter(backend: Backend, db: Database, a: Agent, cache: Cache, action: Action, now: int)
    ensures var leases' := Act(backend, db, a, cache, action, now).0.leases;
            match action
            case EnsureLease(p, _) => leases' == db.leases || leases' == Upsert(db.leases, p, a, LEASE_MS, now)
            case RenewLease(p, _) => leases' == db.leases || leases' == Upsert(db.leases, p, a, LEASE_MS, now)
            case InitiateTransfer(_, p, _, _, _) => leases' == db.leases || leases' == Upsert(db.leases, p, a, LEASE_MS, now)
            case ReleaseLease(p, reachable) => leases' == if reachable then StoreRelease(db.leases, p, a).0 else db.leases
            case CompleteTransfer(id) => leases' == StoreComplete(backend, db, id, now).0.leases
            case _ => leases' == db.leases
  {
    if action.InitiateTransfer? { InitiateLeases(backend, db, a, cache, action, now); }
  }

  /** A step moves the epoch of a partition on exactly when it is not one of those. */
  lemma EpochAdvancesIff(backend: Backend, s: System, s': System, e: Event, p: Partition)
    requires Steps(backend, s, s', e.agent, e.action, e.now)
    ensures EpochAdvances(s.db.leases, s'.db.leases, p) <==> !RewindsEpoch(backend, s.db, e, p)
  {
    LeasesAfter(backend, s.db, e.agent, s.caches[e.agent], e.action, e.now);
    if p in s.db.leases {
      match e.action
      case EnsureLease(q, _) => GrantAdvances(s.db.leases, q, e.agent, LEASE_MS, e.now, p);
      case RenewLease(q, _) => GrantAdvances(s.db.leases, q, e.agent, LEASE_MS, e.now, p);
      case InitiateTransfer(_, q, _, _, _) => GrantAdvances(s.db.leases, q, e.agent, LEASE_MS, e.now, p);
      case CompleteTransfer(id) =>
        if backend.Postgres? && id in s.db.transfers {
          GrantAdvances(s.db.leases, s.db.transfers[id].partition, s.db.transfers[id].to, HANDOFF_MS, e.now, p);
        }
      case _ =>
    }
  }

  /** On Postgres no step but its holder's release takes an unexpired lease away, a completion least of all. */
  lemma PostgresLeaseStays(s: System, s': System, e: Event, p: Partition)
    requires Steps(Postgres, s, s', e.agent, e.action, e.now)
    requires p in s.db.leases && e.now <= s.db.leases[p].expiresAt
    ensures (p in s'.db.leases && s'.db.leases[p].agent == s.db.leases[p].agent)
            || (e.action == ReleaseLease(p, true) && e.agent == s.db.leases[p].agent)
  {
    LeasesAfter(Postgres, s.db, e.agent, s.caches[e.agent], e.action, e.now);
    match e.action
    case EnsureLease(q, _) => GrantAdvances(s.db.leases, q, e.agent, LEASE_MS, e.now, p);
    case RenewLease(q, _) => GrantAdvances(s.db.leases, q, e.agent, LEASE_MS, e.now, p);
    case InitiateTransfer(_, q, _, _, _) => GrantAdvances(s.db.leases, q, e.agent, LEASE_MS, e.now, p);
    case CompleteTransfer(id) =>
      if id in s.db.transfers {
        GrantAdvances(s.db.leases, s.db.transfers[id].partition, s.db.transfers[id].to, HANDOFF_MS, e.now, p);
      }
    case _ =>
  }

  ghost predicate NeverRewinds(backend: Backend, run: seq<System>, events: seq<Event>, p: Partition)
    requires |run| == |events| + 1
  {
    forall i :: 0 <= i < |events| ==> !RewindsEpoch(backend, run[i].db, events[i], p)
  }

  lemma {:induction false} RowsAdvance(backend: Backend, run: seq<System>, events: seq<Event>, i: nat, j: nat, p: Partition)
    requires Run(backend, run, events) && NeverRewinds(backend, run, events, p)
    requires i <= j <= |events| && p in run[i].db.leases
    ensures p in run[j].db.leases && RowAdvances(run[i].db.leases[p], run[j].db.leases[p])
    decreases j
  {
    if i < j {
      RowsAdvance(backend, run, events, i, j - 1, p);
      var e := events[j - 1];
      assert StepAt(backend, run, events, j - 1);
      EpochAdvancesIff(backend, run[j - 1], run[j], e, p);
    }
  }

  /** The cached lease of `a` on `p`, if any. */
  ghost function CachedAt(s: System, a: Agent, p: Partition): Option<CachedLease> {
    if a in s.caches && p in s.caches[a] then Some(s.caches[a][p]) else None
  }

  ghost predicate RowIs(s: System, a: Agent, p: Partition, epoch: int) {
    p in s.db.leases && s.db.leases[p].agent == a && s.db.leases[p].epoch == epoch
  }

  lemma CacheStep(backend: Backend, s: System, s': System, e: Event, a: Agent, p: Partition)
    requires Steps(backend, s, s', e.agent, e.action, e.now) && CachedAt(s', a, p).Some?
    ensures CachedAt(s', a, p) == CachedAt(s, a, p) || RowIs(s', a, p, CachedAt(s', a, p).value.epoch)
  {
    if e.action.InitiateTransfer? { InitiateLeases(backend, s.db, e.agent, s.caches[e.agent], e.action, e.now); }
  }

  /** A cached lease was granted at some point `k` of the run, and has been in the cache since. */
  lemma {:induction false} CachedFromRow(backend: Backend, run: seq<System>, events: seq<Event>, i: nat, a: Agent, p: Partition)
    returns (k: nat)
    requires Run(backend, run, events) && i <= |events| && CachedAt(run[i], a, p).Some?
    ensures k <= i && RowIs(run[k], a, p, CachedAt(run[i], a, p).value.epoch)
    ensures forall m :: k <= m <= i ==> CachedAt(run[m], a, p) == CachedAt(run[i], a, p)
  {
    if i == 0 {
      assert false;
    } else {
      var e := events[i - 1];
      assert StepAt(backend, run, events, i - 1);
      CacheStep(backend, run[i - 1], run[i], e, a, p);
      if CachedAt(run[i], a, p) == CachedAt(run[i - 1], a, p) {
        k := CachedFromRow(backend, run, events, i - 1, a, p);
      } else {
        k := i;
      }
    }
  }

  /** In a run that never rewinds, no epoch of a partition is ever granted to two agents. */
  lemma OneAgentPerEpoch(backend: Backend, run: seq<System>, events: seq<Event>, p: Partition, i: nat, j: nat, a: Agent, b: Agent)
    requires Run(backend, run, events) && NeverRewinds(backend, run, events, p) && i <= |events| && j <= |events|
    requires CachedAt(run[i], a, p).Some? && CachedAt(run[j], b, p).Some?
    requires CachedAt(run[i], a, p).value.epoch == CachedAt(run[j], b, p).value.epoch
    ensures a == b
  {
    var k := CachedFromRow(backend, run, events, i, a, p);
    var l := CachedFromRow(backend, run, events, j, b, p);
    if k <= l { RowsAdvance(backend, run, events, k, l, p); } else { RowsAdvance(backend, run, events, l, k, p); }
  }

  lemma {:induction false} ClocksAdvance(backend: Backend, run: seq<System>, events: seq<Event>, i: nat, j: nat)
    requires Run(backend, run, events) && i <= j <= |events|
    ensures run[i].clock <= run[j].clock
    decreases j
  {
    if i < j {
      ClocksAdvance(backend, run, events, i, j - 1);
      var e := events[j - 1];
      assert StepAt(backend, run, events, j - 1);
    }
  }

  /** Agent `a` passes validate_epoch with `epoch` now. */
  ghost predicate ValidNow(s: System, a: Agent, p: Partition, epoch: int) {
    a in s.caches && Validates(s.caches[a], p, epoch, s.clock)
  }

  /** An agent's valid epoch is at most that of the row, which is its own. */
  lemma ValidBehindRow(backend: Backend, run: seq<System>, events: seq<Event>, p: Partition, i: nat, a: Agent, epoch: int)
    requires Run(backend, run, events) && NeverRewinds(backend, run, events, p) && i <= |events|
    requires forall m :: 0 <= m < i ==> SafeEvent(backend, run[m], events[m])
    requires ValidNow(run[i], a, p, epoch)
    ensures p in run[i].db.leases && run[i].db.leases[p].agent == a && epoch <= run[i].db.leases[p].epoch
  {
    LeasesAreExclusive(backend, run, events, i);
    assert Backed(run[i].db.leases, run[i].clock, a, run[i].caches[a]);
    var k := CachedFromRow(backend, run, events, i, a, p);
    RowsAdvance(backend, run, events, k, i, p);
  }

  /**
   Epoch fencing: in a run of safe completions that never rewinds, an agent that validates after another one
   did validates with a higher epoch, so whoever compares epochs can turn the earlier one away.
   */
  lemma EpochsFence(backend: Backend, run: seq<System>, events: seq<Event>, p: Partition, i: nat, j: nat,
                    a: Agent, b: Agent, epoch: int, epoch': int)
    requires Run(backend, run, events) && NeverRewinds(backend, run, events, p) && i <= j <= |events|
    requires forall m :: 0 <= m < j ==> SafeEvent(backend, run[m], events[m])
    requires a != b && ValidNow(run[i], a, p, epoch) && ValidNow(run[j], b, p, epoch')
    ensures epoch < epoch'
  {
    ValidBehindRow(backend, run, events, p, i, a, epoch);
    var k := CachedFromRow(backend, run, events, j, b, p);
    if k <= i {
      ClocksAdvance(backend, run, events, i, j);
      assert CachedAt(run[i], b, p) == CachedAt(run[j], b, p);
      ValidBehindRow(backend, run, events, p, i, b, epoch');
      assert false;
    } else {
      RowsAdvance(backend, run, events, i, k, p);
    }
  }

  /** What takes a valid epoch from the agent that holds it: a renewal, a release, a completion that succeeds, a restart. */
  predicate Withdraws(backend: Backend, db: Database, action: Action, p: Partition, now: int) {
    match action
    case RenewLease(q, org) => q == p && org
    case ReleaseLease(q, _) => q == p
    case CompleteTransfer(id) => StoreComplete(backend, db, id, now).1 == Ok(p)
    case Restart => true
    case _ => false
  }

  /** An epoch that validates goes on doing so after a step exactly when the step is not one of its own agent's withdrawals. */
  lemma EpochStaysValidIff(backend: Backend, run: seq<System>, events: seq<Event>, p: Partition, i: nat, a: Agent, epoch: int)
    requires Run(backend, run, events) && NeverRewinds(backend, run, events, p) && i < |events|
    requires forall m :: 0 <= m < i ==> SafeEvent(backend, run[m], events[m])
    requires a in run[i].caches && Validates(run[i].caches[a], p, epoch, events[i].now)
    ensures ValidNow(run[i + 1], a, p, epoch) <==>
            !(events[i].agent == a && Withdraws(backend, run[i].db, events[i].action, p, events[i].now))
  {
    var e := events[i];
    assert StepAt(backend, run, events, i);
    ValidBehindRow(backend, run, events, p, i, a, epoch);
    if e.action.InitiateTransfer? { InitiateLeases(backend, run[i].db, e.agent, run[i].caches[e.agent], e.action, e.now); }
  }

  // ---------- who moves a transfer on ----------

  ghost predicate StateIs(db: Database, id: string, state: TransferState) {
    id in db.transfers && db.transfers[id].state == state
  }

  /** The transfer is offered by this event: by the agent that holds the partition's unexpired lease, under its epoch. */
  ghost predicate Offers(s': System, e: Event, id: string) {
    && e.action.InitiateTransfer? && e.action.id == id && id in s'.db.transfers
    && var t := s'.db.transfers[id];
       && t.state.Pending? && t.from == e.agent && t.to == e.action.to && t.partition == e.action.p
       && t.timeoutAt == e.now + e.action.timeout
       && HeldBy(s'.db.leases, t.partition, t.from, e.now) && s'.db.leases[t.partition].epoch == t.fromEpoch
  }

  /** What one event may do to a transfer: offer it; move it on, by whoever may; or leave it alone. */
  ghost predicate MovesTransfer(backend: Backend, s: System, s': System, e: Event, id: string) {
    || Offers(s', e, id)
    || (id in s.db.transfers && id in s'.db.transfers && s'.db.transfers[id] == s.db.transfers[id].(state := s'.db.transfers[id].state)
        && var t, state := s.db.transfers[id], s'.db.transfers[id].state;
           match e.action
           case AcceptTransfer(x) =>
             if x == id && t.state.Pending? && e.agent == t.to && (backend.Sqlite? ==> e.now <= t.timeoutAt) then state.Accepted?
             else state == t.state
           case RejectTransfer(x) => if x == id && (t.state.Pending? || t.state.Accepted?) then state.Rejected? else state == t.state
           case CompleteTransfer(x) => if x == id && t.state.Accepted? then state.Completed? else state == t.state
           case ExpireTransfers => if (t.state.Pending? || t.state.Accepted?) && t.timeoutAt < e.now then state.Lapsed? else state == t.state
           case _ => state == t.state)
    || (id !in s.db.transfers && id !in s'.db.transfers)
  }

  lemma InitiateMoves(backend: Backend, s: System, s': System, e: Event, id: string)
    requires e.action.InitiateTransfer? && Steps(backend, s, s', e.agent, e.action, e.now)
    ensures MovesTransfer(backend, s, s', e, id)
  {
    var action, cache := e.action, s.caches[e.agent];
    var o := Ensure(e.agent, action.p, action.org, e.now, s.db.leases, cache);
    var db' := s.db.(leases := o.leases);
    if o.result.Ok? {
      match StoreInitiate(backend, db', action.id, action.p, e.agent, action.to, action.timeout, e.now)
      case Ok(_) => assert action.id == id ==> Offers(s', e, id);
      case Err(_) =>
    }
  }

  lemma TransferStep(backend: Backend, s: System, s': System, e: Event, id: string)
    requires Steps(backend, s, s', e.agent, e.action, e.now)
    ensures MovesTransfer(backend, s, s', e, id)
  {
    if e.action.InitiateTransfer? { InitiateMoves(backend, s, s', e, id); }
  }

  /** The transfer reached its present state through this event, and nobody has offered it anew since. */
  ghost predicate AcceptedAt(backend: Backend, run: seq<System>, events: seq<Event>, id: string, t: Transfer, k: nat)
    requires |run| == |events| + 1
  {
    && k < |events| && events[k].action == AcceptTransfer(id) && events[k].agent == t.to
    && (backend.Sqlite? ==> events[k].now <= t.timeoutAt)
    && id in run[k].db.transfers && run[k].db.transfers[id] == t.(state := Pending)
  }

  /** In every run only its target, in time on SQLite, ever makes a transfer accepted; so only then is it completed. */
  lemma {:induction false} AcceptedByTarget(backend: Backend, run: seq<System>, events: seq<Event>, i: nat, id: string) returns (k: nat)
    requires Run(backend, run, events) && i <= |events| && run[0].db.transfers == map[]
    requires StateIs(run[i].db, id, Accepted) || StateIs(run[i].db, id, Completed)
    ensures k < i && AcceptedAt(backend, run, events, id, run[i].db.transfers[id], k)
  {
    var e := events[i - 1];
    assert StepAt(backend, run, events, i - 1);
    TransferStep(backend, run[i - 1], run[i], e, id);
    if StateIs(run[i - 1].db, id, Pending) {
      k := i - 1;
    } else {
      k := AcceptedByTarget(backend, run, events, i - 1, id);
    }
  }

  /** In every run a transfer was offered by the holder of the lease, whose epoch at that time it carries. */
  lemma {:induction false} OfferedByHolder(backend: Backend, run: seq<System>, events: seq<Event>, i: nat, id: string) returns (k: nat)
    requires Run(backend, run, events) && i <= |events| && run[0].db.transfers == map[] && id in run[i].db.transfers
    ensures k < i && Offers(run[k + 1], events[k], id)
    ensures run[k + 1].db.transfers[id] == run[i].db.transfers[id].(state := Pending)
  {
    var e := events[i - 1];
    assert StepAt(backend, run, events, i - 1);
    TransferStep(backend, run[i - 1], run[i], e, id);
    if Offers(run[i], e, id) {
      k := i - 1;
    } else {
      k := OfferedByHolder(backend, run, events, i - 1, id);
    }
  }

  /** A transfer that is still on its way. */
  ghost predicate Open(t: Transfer) { t.state.Pending? || t.state.Accepted? }

  ghost predicate OneOpenEach(db: Database) {
    forall x, y :: x in db.transfers && y in db.transfers && x != y && Open(db.transfers[x]) && Open(db.transfers[y]) ==>
      db.transfers[x].partition != db.transfers[y].partition
  }

  lemma InitiateKeepsOne(s: System, s': System, e: Event)
    requires e.action.InitiateTransfer? && Steps(Sqlite, s, s', e.agent, e.action, e.now) && OneOpenEach(s.db)
    ensures OneOpenEach(s'.db)
  {
    var action, cache := e.action, s.caches[e.agent];
    var o := Ensure(e.agent, action.p, action.org, e.now, s.db.leases, cache);
    var db' := s.db.(leases := o.leases);
    if o.result.Ok? {
      match StoreInitiate(Sqlite, db', action.id, action.p, e.agent, action.to, action.timeout, e.now)
      case Ok(d) => assert s'.db == d;
      case Err(_) =>
    }
  }

  lemma StepKeepsOne(s: System, s': System, e: Event)
    requires Steps(Sqlite, s, s', e.agent, e.action, e.now) && OneOpenEach(s.db)
    ensures OneOpenEach(s'.db)
  {
    if e.action.InitiateTransfer? {
      InitiateKeepsOne(s, s', e);
    } else {
      forall x | x in s'.db.transfers
        ensures x in s.db.transfers && s'.db.transfers[x].partition == s.db.transfers[x].partition
        ensures Open(s'.db.transfers[x]) ==> Open(s.db.transfers[x])
      {
        TransferStep(Sqlite, s, s', e, x);
      }
    }
  }

  /** On SQLite a partition never has two transfers on their way at once, over every run. */
  lemma {:induction false} OneTransferAtATime(run: seq<System>, events: seq<Event>, i: nat)
    requires Run(Sqlite, run, events) && i <= |events| && run[0].db.transfers == map[]
    ensures OneOpenEach(run[i].db)
  {
    if 0 < i {
      OneTransferAtATime(run, events, i - 1);
      assert StepAt(Sqlite, run, events, i - 1);
      StepKeepsOne(run[i - 1], run[i], events[i - 1]);
    }
  }

  // ---------- what a rewind costs ----------

  ghost predicate Next(backend: Backend, s: System, s': System) {
    exists a, action, now :: Steps(backend, s, s', a, action, now)
  }

  ghost predicate Path(backend: Backend, path: seq<System>) {
    path != [] && forall i :: 0 <= i < |path| - 1 ==> Next(backend, path[i], path[i + 1])
  }

  /** By renewing, an agent takes its row, or a row it is granted, up to any epoch. */
  lemma {:induction false} Climbs(backend: Backend, s: System, b: Agent, p: Partition, epoch: int) returns (path: seq<System>)
    requires b in s.caches && 1 <= epoch
    requires p in s.db.leases ==> s.db.leases[p].agent == b && s.db.leases[p].epoch <= epoch
    ensures Path(backend, path) && path[0] == s && RowIs(path[|path| - 1], b, p, epoch)
    decreases epoch - (if p in s.db.leases then s.db.leases[p].epoch else 0), p !in s.db.leases
  {
    if RowIs(s, b, p, epoch) {
      path := [s];
    } else {
      var e := Event(b, RenewLease(p, true), s.clock);
      var s1 := After(backend, s, e);
      assert Steps(backend, s, s1, e.agent, e.action, e.now);
      var rest := Climbs(backend, s1, b, p, epoch);
      path := [s] + rest;
      assert forall i :: 0 < i < |path| ==> path[i] == rest[i - 1];
      assert Next(backend, path[0], path[1]);
      forall i | 0 <= i < |path| - 1 ensures Next(backend, path[i], path[i + 1]) {
        if 0 < i { assert Next(backend, rest[i - 1], rest[i - 1 + 1]); }
      }
    }
  }

  /** After any rewind, from any state, the epoch that was in force can be granted again to another agent. */
  lemma RewindReusesEpoch(backend: Backend, s: System, s': System, e: Event, p: Partition, b: Agent)
    requires Steps(backend, s, s', e.agent, e.action, e.now) && RewindsEpoch(backend, s.db, e, p)
    requires 1 <= s.db.leases[p].epoch && b in s'.caches && b != s.db.leases[p].agent
    requires e.action.CompleteTransfer? ==> b == s.db.transfers[e.action.id].to
    ensures exists path :: Path(backend, path) && path[0] == s' && RowIs(path[|path| - 1], b, p, s.db.leases[p].epoch)
  {
    var path := Climbs(backend, s', b, p, s.db.leases[p].epoch);
  }

  lemma OfferRenewed(p: Partition, epoch: int)
    ensures After(Sqlite, Offer(p, epoch), Event("a", RenewLease(p, true), 0)) == Offer(p, epoch + 1)
  {
    var s := After(Sqlite, Offer(p, epoch), Event("a", RenewLease(p, true), 0));
    assert s.db.leases == map[p := Row("a", LEASE_MS, epoch + 1)];
    assert s.caches["a"] == map[p := CachedLease(epoch + 1, LEASE_MS)];
  }

  lemma OfferCompleted(p: Partition, epoch: int)
    ensures var s := After(Sqlite, Offer(p, epoch), Event("a", CompleteTransfer("x"), 0));
            var s' := After(Sqlite, s, Event("b", EnsureLease(p, true), 0));
            SafeEvent(Sqlite, Offer(p, epoch), Event("a", CompleteTransfer("x"), 0)) && s.clock == 0 && ValidNow(s', "b", p, 3)
  {
    var s := After(Sqlite, Offer(p, epoch), Event("a", CompleteTransfer("x"), 0));
    assert s.db.leases == map[p := Row("b", HANDOFF_MS, 2)] && s.caches["b"] == map[];
    HolderCompletesSafely(Sqlite, Offer(p, epoch), "a", Offer(p, epoch).db.transfers["x"], 0);
  }

  lemma OfferedAndRenewed(p: Partition) returns (run: seq<System>, events: seq<Event>)
    ensures Run(Sqlite, run, events) && |events| == 5 && run[5] == Offer(p, 3)
    ensures forall i :: 0 <= i < 5 ==> !events[i].action.CompleteTransfer? && !events[i].action.ReleaseLease?
  {
    run, events := Offered(Sqlite, p);
    OfferRenewed(p, 1);
    OfferRenewed(p, 2);
    run, events := Extend(Sqlite, run, events, Event("a", RenewLease(p, true), 0));
    run, events := Extend(Sqlite, run, events, Event("a", RenewLease(p, true), 0));
  }

  /** Initiate at epoch 1, renew to 3, complete: every completion is safe, nothing is released, and epoch 3 validates for two agents. */
  lemma CompletionReusesEpoch(p: Partition) returns (run: seq<System>, events: seq<Event>)
    ensures Run(Sqlite, run, events) && |events| == 7
    ensures forall i :: 0 <= i < 7 ==> SafeEvent(Sqlite, run[i], events[i]) && !events[i].action.ReleaseLease?
    ensures ValidNow(run[5], "a", p, 3) && ValidNow(run[7], "b", p, 3)
  {
    run, events := OfferedAndRenewed(p);
    OfferCompleted(p, 3);
    run, events := Extend(Sqlite, run, events, Event("a", CompleteTransfer("x"), 0));
    run, events := Extend(Sqlite, run, events, Event("b", EnsureLease(p, true), 0));
  }

  /** A release alone: epoch 1 validates for one agent and then for the next. */
  lemma ReleaseReusesEpoch(backend: Backend, p: Partition) returns (run: seq<System>, events: seq<Event>)
    ensures Run(backend, run, events) && |events| == 3 && ValidNow(run[1], "a", p, 1) && ValidNow(run[3], "b", p, 1)
  {
    var e0, e1, e2 := Event("a", EnsureLease(p, true), 0), Event("a", ReleaseLease(p, true), 0), Event("b", EnsureLease(p, true), 0);
    var s1 := After(backend, START, e0);
    var s2 := After(backend, s1, e1);
    assert s2.db.leases == map[];
    run, events := [START, s1, s2, After(backend, s2, e2)], [e0, e1, e2];
  }

  // ---------- the code ----------

  class MetadataStore {
    const backend: Backend
    var db: Database

    constructor (backend: Backend)
      ensures this.backend == backend && db == Database(map[], map[])
    {
      this.backend := backend;
      db := Database(map[], map[]);
    }

    method AcquirePartitionLease(p: Partition, agent: Agent, duration: int, now: int) returns (r: Result<Row>)
      modifies this`db
      ensures (db.leases, r) == StoreAcquire(old(db.leases), p, agent, duration, now) && db.transfers == old(db.transfers)
      ensures 0 < duration ==> (r.Ok? <==> p !in old(db.leases) || old(db.leases)[p].agent == agent || old(db.leases)[p].expiresAt < now)
      ensures r.Ok? ==> p in db.leases && db.leases[p] == r.value && r.value.agent == agent
    {
      db := db.(leases := Upsert(db.leases, p, agent, duration, now));
      var lease := Lookup(db.leases, p, now);
      match lease {
        case Some(row) => r := if row.agent == agent then Ok(row) else Err(Conflict);
        case None => r := Err(NotFound);
      }
    }

    method ReleasePartitionLease(p: Partition, agent: Agent) returns (r: Result<()>)
      modifies this`db
      ensures (db.leases, r) == StoreRelease(old(db.leases), p, agent) && db.transfers == old(db.transfers)
    {
      if p in db.leases && db.leases[p].agent == agent {
        db := db.(leases := db.leases - {p});
        r := Ok(());
      } else {
        r := Err(NotFound);
      }
    }

    method CompleteLeaseTransfer(id: string, now: int) returns (r: Result<Partition>)
      modifies this`db
      ensures (db, r) == StoreComplete(backend, old(db), id, now)
    {
      if id !in db.transfers {
        return Err(NotFound);
      }
      var t := db.transfers[id];
      if !t.state.Accepted? {
        return Err(Conflict);
      }
      db := db.(transfers := db.transfers[id := t.(state := Completed)]);
      match backend {
        case Sqlite =>
          if t.partition in db.leases {
            db := db.(leases := db.leases[t.partition := Row(t.to, now + HANDOFF_MS, t.fromEpoch + 1)]);
          }
          r := Ok(t.partition);
        case Postgres =>
          var acquired := Err(NoOrganization);
          if Lookup(db.leases, t.partition, now).Some? {
            acquired := AcquirePartitionLease(t.partition, t.to, HANDOFF_MS, now);
          }
          match acquired {
            case Ok(_) => r := Ok(t.partition);
            case Err(e) => r := Err(e);
          }
      }
    }
  }

  class LeaseManager {
    const agentId: Agent
    const store: MetadataStore
    var leases: Cache

    constructor (agentId: Agent, store: MetadataStore)
      ensures this.agentId == agentId && this.store == store && leases == map[]
    {
      this.agentId, this.store, leases := agentId, store, map[];
    }

    method EnsureLease(p: Partition, org: bool, now: int) returns (r: Result<int>)
      modifies this`leases, store`db
      ensures Outcome(store.db.leases, leases, r) == Ensure(agentId, p, org, now, old(store.db.leases), old(leases))
      ensures r.Ok? <==> CanHold(agentId, p, org, now, old(store.db.leases), old(leases))
      ensures r.Ok? ==> p in leases && now < leases[p].expiresAt && leases[p].epoch == r.value && Validates(leases, p, r.value, now)
      ensures store.db.transfers == old(store.db.transfers)
    {
      EnsuredEpochValidates(agentId, p, org, now, store.db.leases, leases);
      if p in leases && !IsExpired(leases[p].expiresAt, now) {
        return Ok(leases[p].epoch);
      }
      r := AcquireLease(p, org, now);
    }

    method AcquireLease(p: Partition, org: bool, now: int) returns (r: Result<int>)
      modifies this`leases, store`db
      ensures Outcome(store.db.leases, leases, r) == Acquire(agentId, p, org, now, old(store.db.leases), old(leases))
      ensures r.Ok? ==> Validates(leases, p, r.value, now) && p in store.db.leases && store.db.leases[p] == Row(agentId, now + LEASE_MS, r.value)
      ensures store.db.transfers == old(store.db.transfers)
    {
      AcquiredEpochValidates(agentId, p, org, now, store.db.leases, leases);
      if !org {
        return Err(NoOrganization);
      }
      var lease := store.AcquirePartitionLease(p, agentId, LEASE_MS, now);
      match lease {
        case Ok(row) =>
          leases := leases[p := CachedLease(row.epoch, row.expiresAt)];
          r := Ok(row.epoch);
        case Err(e) =>
          r := Err(e);
      }
    }

    /** release_lease: the cache entry goes first; `reachable` is whether the store could be reached. */
    method ReleaseLease(p: Partition, reachable: bool) returns (r: Result<()>)
      modifies this`leases, store`db
      ensures r == if reachable then StoreRelease(old(store.db.leases), p, agentId).1 else Err(Unreachable)
      ensures (store.db, leases) == Act(store.backend, old(store.db), agentId, old(leases), Action.ReleaseLease(p, reachable), 0)
    {
      leases := leases - {p};
      if !reachable {
        return Err(Unreachable);
      }
      r := store.ReleasePartitionLease(p, agentId);
    }

    method ValidateEpoch(p: Partition, expected: int, now: int) returns (ok: bool)
      ensures ok <==> Validates(leases, p, expected, now)
    {
      ok := p in leases && !IsExpired(leases[p].expiresAt, now) && leases[p].epoch == expected;
    }

    /** complete_transfer. */
    method CompleteTransfer(id: string, now: int) returns (r: Result<Partition>)
      modifies this`leases, store`db
      ensures (store.db, leases) == Act(store.backend, old(store.db), agentId, old(leases), Action.CompleteTransfer(id), now)
      ensures r == StoreComplete(store.backend, old(store.db), id, now).1
    {
      r := store.CompleteLeaseTransfer(id, now);
      match r {
        case Ok(p) => leases := leases - {p};
        case Err(_) =>
      }
    }

    /** One lease of the renewal task's cycle. */
    method RenewLease(p: Partition, org: bool, now: int)
      modifies this`leases, store`db
      ensures (store.db, leases) == Act(store.backend, old(store.db), agentId, old(leases), Action.RenewLease(p, org), now)
    {
      var r := AcquireLease(p, org, now);
      if r.Err? {
        if p !in leases || IsExpired(leases[p].expiresAt, now) {
          leases := leases - {p};
        }
      }
    }

    /** The renewal cycle: the leases live at its start, each once, in whatever order the map gives them. */
    method RenewalCycle(org: Partition -> bool, now: int) returns (ghost order: seq<Partition>)
      modifies this`leases, store`db
      ensures NoRepeats(order) && Elements(order) == set p | p in old(leases) && !IsExpired(old(leases)[p].expiresAt, now)
      ensures (store.db, leases) == RenewAll(store.backend, old(store.db), agentId, old(leases), order, org, now)
    {
      var rest := set p | p in leases && !IsExpired(leases[p].expiresAt, now);
      ghost var all := rest;
      order := [];
      while rest != {}
        invariant NoRepeats(order) && Elements(order) + rest == all && Elements(order) !! rest
        invariant (store.db, leases) == RenewAll(store.backend, old(store.db), agentId, old(leases), order, org, now)
        decreases rest
      {
        var p :| p in rest;
        RenewLease(p, org(p), now);
        assert (order + [p])[..|order|] == order;
        assert forall i :: 0 <= i < |order| ==> order[i] in Elements(order);
        assert Elements(order + [p]) == Elements(order) + {p};
        order := order + [p];
        rest := rest - {p};
      }
    }
  }

  /** Renewals one after the other, each the step that the runs above are made of. */
  ghost function RenewAll(backend: Backend, db: Database, a: Agent, cache: Cache, order: seq<Partition>, org: Partition -> bool, now: int): (Database, Cache) {
    if order == [] then (db, cache)
    else
      var k := |order| - 1;
      var (db', cache') := RenewAll(backend, db, a, cache, order[..k], org, now);
      Act(backend, db', a, cache', Action.RenewLease(order[k], org(order[k])), now)
  }
}
