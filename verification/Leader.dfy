/**
 Leader election with fencing tokens (crates/streamhouse-api/src/leader.rs). Nodes with distinct ids
 step against one leadership record, the deployment that the design intends; each public method is one
 step, at a time that does not go back. In the code the record is a field of each instance, so one node with
 its record is what the program does as written; "a record for each instance" says what follows for several.
 */
module Leader {
  import opened Ordering

  datatype LeadershipRecord = LeadershipRecord(leaderId: string, fencingToken: nat, acquiredAt: int, expiresAt: int)

  datatype LeaderState = Follower | Candidate | Leading | Stopped

  datatype LeaderError = NotLeader | AnotherNodeIsLeader | LeaseExpired | NoRecord

  /** What one node remembers; `stateToken` is the copy kept under the state lock. */
  datatype Node = Node(state: LeaderState, stateToken: Option<nat>, isLeader: bool, fencingToken: nat)

  type Record = Option<LeadershipRecord>

  const FRESH := Node(Follower, None, false, 0)

  // ---------- what each call does ----------

  datatype Acquired = Acquired(ok: bool, record: Record, token: nat)

  /** try_acquire_memory: the answer, the record and the node's token afterwards. */
  function AcquireRecord(id: string, lease: nat, now: int, record: Record, token: nat): Acquired {
    if record.Some? && record.value.leaderId == id && record.value.expiresAt > now then Acquired(true, record, token)
    else if record.Some? && record.value.expiresAt > now then Acquired(false, record, token)
    else
      var t := if record.Some? then record.value.fencingToken + 1 else 1;
      Acquired(true, Some(LeadershipRecord(id, t, now, now + lease)), t)
  }

  function TryAcquireStep(id: string, lease: nat, now: int, record: Record, n: Node): (Record, Node) {
    if n.state.Leading? then (record, n)
    else
      var a := AcquireRecord(id, lease, now, record, n.fencingToken);
      if a.ok then (a.record, Node(Leading, Some(a.token), true, a.token))
      else (a.record, n.(state := Follower, fencingToken := a.token))
  }

  datatype Renewed = Renewed(error: Option<LeaderError>, record: Record)

  /** renew, with renew_memory: extends the lease of its own unexpired record, or fails and changes nothing. */
  function RenewStep(id: string, lease: nat, now: int, record: Record, n: Node): Renewed {
    if !n.isLeader then Renewed(Some(NotLeader), record)
    else if record.None? then Renewed(Some(NoRecord), record)
    else if record.value.leaderId != id then Renewed(Some(AnotherNodeIsLeader), record)
    else if record.value.expiresAt < now then Renewed(Some(LeaseExpired), record)
    else Renewed(None, Some(record.value.(expiresAt := now + lease)))
  }

  /** release, with release_memory: the lease ends but the record and its token stay. */
  function ReleaseStep(id: string, record: Record, n: Node): (Record, Node) {
    if !n.state.Leading? then (record, n)
    else
      (if record.Some? && record.value.leaderId == id then Some(record.value.(expiresAt := 0)) else record,
       n.(state := Follower, stateToken := None, isLeader := false))
  }

  /** One tick of the run loop: renew when leading, and step down when that fails; otherwise try to acquire. */
  function TickStep(id: string, lease: nat, now: int, record: Record, n: Node): (Record, Node) {
    if n.isLeader then
      var r := RenewStep(id, lease, now, record, n);
      (r.record, if r.error.None? then n else n.(state := Follower, stateToken := None, isLeader := false))
    else TryAcquireStep(id, lease, now, record, n)
  }

  /** The end of the run loop. */
  function StopStep(id: string, record: Record, n: Node): (Record, Node) {
    var (record', n') := ReleaseStep(id, record, n);
    (record', n'.(state := Stopped))
  }

  // ---------- the cluster ----------

  datatype Action = TryAcquire | Renew | Release | Tick | Stop

  datatype Cluster = Cluster(record: Record, nodes: map<string, Node>, clock: int)

  function Act(action: Action, id: string, lease: nat, now: int, record: Record, n: Node): (Record, Node) {
    match action
    case TryAcquire => TryAcquireStep(id, lease, now, record, n)
    case Renew => (RenewStep(id, lease, now, record, n).record, n)
    case Release => ReleaseStep(id, record, n)
    case Tick => TickStep(id, lease, now, record, n)
    case Stop => StopStep(id, record, n)
  }

  ghost predicate Steps(c: Cluster, c': Cluster, action: Action, id: string, lease: nat, now: int) {
    && id in c.nodes && c.clock <= now
    && var (record', n') := Act(action, id, lease, now, c.record, c.nodes[id]);
       c' == Cluster(record', c.nodes[id := n'], now)
  }

  ghost predicate Next(c: Cluster, c': Cluster) {
    exists action, id, lease, now :: Steps(c, c', action, id, lease, now)
  }

  /** Everyone starts as a follower, nobody has led, and time is counted from the epoch. */
  ghost predicate Init(c: Cluster) {
    c.record == None && 0 <= c.clock && forall id :: id in c.nodes ==> c.nodes[id] == FRESH
  }

  ghost predicate Run(run: seq<Cluster>) {
    run != [] && Init(run[0]) && forall i :: 0 <= i < |run| - 1 ==> NextAt(run, i)
  }

  ghost predicate NextAt(run: seq<Cluster>, i: nat)
    requires i < |run| - 1
  {
    Next(run[i], run[i + 1])
  }

  /** The number of the current term; 0 before anyone has led. */
  function Term(record: Record): nat {
    if record.None? then 0 else record.value.fencingToken
  }

  ghost predicate NodeOk(record: Record, clock: int, id: string, n: Node) {
    && (n.isLeader <==> n.state.Leading?)
    && (n.isLeader ==> n.stateToken == Some(n.fencingToken))
    && n.fencingToken <= Term(record)
    && (record.None? ==> !n.isLeader)
    && (record.Some? ==>
          && (n.fencingToken == Term(record) <==> record.value.leaderId == id)
          && (record.value.leaderId == id && !n.isLeader ==> record.value.expiresAt <= clock))
  }

  /**
   The fencing invariant: every node's token is at most the record's, equal exactly for the record's
   owner, and an owner that has stepped down has no unexpired lease to fall back on.
   */
  ghost predicate Inv(c: Cluster) {
    && 0 <= c.clock
    && (c.record.Some? ==> 1 <= c.record.value.fencingToken && c.record.value.leaderId in c.nodes)
    && forall id :: id in c.nodes ==> NodeOk(c.record, c.clock, id, c.nodes[id])
  }

  lemma InitInv(c: Cluster)
    requires Init(c)
    ensures Inv(c)
  {
  }

  lemma StepInv(c: Cluster, c': Cluster, action: Action, id: string, lease: nat, now: int)
    requires Inv(c) && Steps(c, c', action, id, lease, now)
    ensures Inv(c')
  {
    forall j | j in c'.nodes ensures NodeOk(c'.record, c'.clock, j, c'.nodes[j]) {
      assert NodeOk(c.record, c.clock, j, c.nodes[j]) && NodeOk(c.record, c.clock, id, c.nodes[id]);
    }
  }

  lemma {:induction false} RunInv(run: seq<Cluster>, i: nat)
    requires Run(run) && i < |run|
    ensures Inv(run[i])
  {
    if i == 0 {
      InitInv(run[0]);
    } else {
      RunInv(run, i - 1);
      assert NextAt(run, i - 1);
      var action, id, lease, now :| Steps(run[i - 1], run[i], action, id, lease, now);
      StepInv(run[i - 1], run[i], action, id, lease, now);
    }
  }

  // ---------- terms ----------

  /** The actions that can start a term; the others, and a tick of a leader, can only renew or end one. */
  predicate Campaigns(action: Action, n: Node) {
    action.TryAcquire? || (action.Tick? && !n.isLeader)
  }

  /**
   What a step may do to the record: nothing; or, by a leading owner in time, a lease from now on; or, by a
   leading owner that gives up, the end of its lease; or, by a campaigning node that does not lead, when the
   lease has run out, a new term.
   */
  lemma StepRecord(c: Cluster, c': Cluster, action: Action, id: string, lease: nat, now: int)
    requires Inv(c) && Steps(c, c', action, id, lease, now)
    ensures c'.record == c.record
            || (Renews(action) && LeadsOwn(c, id) && now <= c.record.value.expiresAt
                && c'.record == Some(c.record.value.(expiresAt := now + lease)))
            || (GivesUp(action) && LeadsOwn(c, id) && c'.record == Some(c.record.value.(expiresAt := 0)))
            || (Campaigns(action, c.nodes[id]) && !c.nodes[id].isLeader && (c.record.Some? ==> c.record.value.expiresAt <= now)
                && c'.record == Some(LeadershipRecord(id, Term(c.record) + 1, now, now + lease)))
  {
    assert NodeOk(c.record, c.clock, id, c.nodes[id]);
  }

  predicate Renews(action: Action) { action.Renew? || action.Tick? }

  predicate GivesUp(action: Action) { action.Release? || action.Stop? }

  /** The node believes it leads, and the record is its own. */
  ghost predicate LeadsOwn(c: Cluster, id: string) {
    id in c.nodes && c.nodes[id].isLeader && c.record.Some? && c.record.value.leaderId == id
  }

  /** A deposed node's renew, release or stop, or its tick while it still believes it leads, alters nobody else's lease or state. */
  lemma DeposedChangesNothing(c: Cluster, c': Cluster, action: Action, id: string, lease: nat, now: int)
    requires Inv(c) && Steps(c, c', action, id, lease, now)
    requires c.record.Some? && c.record.value.leaderId != id && !Campaigns(action, c.nodes[id])
    ensures c'.record == c.record && forall j :: j in c.nodes && j != id ==> c'.nodes[j] == c.nodes[j]
  {
    StepRecord(c, c', action, id, lease, now);
  }

  /** Terms never go back; a term that goes on keeps its owner; a new term is numbered one higher and only succeeds a lapsed lease. */
  lemma {:induction false} TermsIncrease(run: seq<Cluster>, i: nat, j: nat)
    requires Run(run) && i <= j < |run|
    ensures Term(run[i].record) <= Term(run[j].record)
    ensures run[i].record.Some? ==> run[j].record.Some?
    ensures run[i].record.Some? && Term(run[i].record) == Term(run[j].record) ==>
              run[i].record.value.leaderId == run[j].record.value.leaderId
    decreases j
  {
    if i < j {
      TermsIncrease(run, i, j - 1);
      RunInv(run, j - 1);
      assert NextAt(run, j - 1);
      var action, id, lease, now :| Steps(run[j - 1], run[j], action, id, lease, now);
      StepRecord(run[j - 1], run[j], action, id, lease, now);
    }
  }

  // ---------- what a lease is for ----------

  /** A node that does not lead and campaigns ends up leading exactly when there is no record or its lease has run out. */
  lemma CampaignSucceedsIff(c: Cluster, c': Cluster, action: Action, id: string, lease: nat, now: int)
    requires Inv(c) && Steps(c, c', action, id, lease, now)
    requires Campaigns(action, c.nodes[id]) && !c.nodes[id].isLeader
    ensures c'.nodes[id].isLeader <==> c.record.None? || c.record.value.expiresAt <= now
    ensures c'.nodes[id].isLeader ==> c'.record == Some(LeadershipRecord(id, Term(c.record) + 1, now, now + lease))
    ensures !c'.nodes[id].isLeader ==> c'.record == c.record && c'.nodes[id].state.Follower?
  {
    assert NodeOk(c.record, c.clock, id, c.nodes[id]);
  }

  /** A leader's tick keeps it leading exactly when the record is its own and has not lapsed; it then has a lease from now on. */
  lemma TickKeepsLeadingIff(c: Cluster, c': Cluster, id: string, lease: nat, now: int)
    requires Inv(c) && Steps(c, c', Tick, id, lease, now) && c.nodes[id].isLeader
    ensures c'.nodes[id].isLeader <==> LeadsOwn(c, id) && now <= c.record.value.expiresAt
    ensures c'.nodes[id].isLeader ==> c'.nodes[id] == c.nodes[id] && c'.record == Some(c.record.value.(expiresAt := now + lease))
    ensures !c'.nodes[id].isLeader ==> c'.record == c.record && c'.nodes[id].state.Follower?
  {
    assert NodeOk(c.record, c.clock, id, c.nodes[id]);
  }

  /** A leader that gives up its own lease leads no more, and whoever campaigns next, at any time, succeeds. */
  lemma GivingUpFrees(c: Cluster, c1: Cluster, c2: Cluster, action: Action, campaign: Action,
                      id: string, other: string, lease: nat, now: int, later: int)
    requires Inv(c) && LeadsOwn(c, id) && GivesUp(action) && Steps(c, c1, action, id, lease, now)
    requires Steps(c1, c2, campaign, other, lease, later) && Campaigns(campaign, c1.nodes[other]) && !c1.nodes[other].isLeader
    ensures !c1.nodes[id].isLeader && LeadsOwn(c2, other) && Term(c2.record) == Term(c.record) + 1
  {
    assert NodeOk(c.record, c.clock, id, c.nodes[id]);
    StepInv(c, c1, action, id, lease, now);
    CampaignSucceedsIff(c1, c2, campaign, other, lease, later);
  }

  datatype Event = Event(action: Action, id: string, lease: nat, now: int)

  /** States and the events between them. */
  ghost predicate Trace(run: seq<Cluster>, events: seq<Event>) {
    |run| == |events| + 1 && Inv(run[0]) && forall i :: 0 <= i < |events| ==> EventAt(run, events, i)
  }

  ghost predicate EventAt(run: seq<Cluster>, events: seq<Event>, i: nat)
    requires |run| == |events| + 1 && i < |events|
  {
    Steps(run[i], run[i + 1], events[i].action, events[i].id, events[i].lease, events[i].now)
  }

  /** The leader acts while its lease runs, without giving up; the others act before it has run out. */
  ghost predicate Timely(record: Record, leader: string, e: Event) {
    record.Some? && if e.id == leader then !GivesUp(e.action) && e.now <= record.value.expiresAt else e.now < record.value.expiresAt
  }

  ghost predicate NobodyNew(c: Cluster, c': Cluster) {
    c'.nodes.Keys == c.nodes.Keys && forall j :: j in c.nodes && c'.nodes[j].isLeader ==> c.nodes[j].isLeader
  }

  lemma LeaderStaysStep(c: Cluster, c': Cluster, leader: string, e: Event)
    requires Inv(c) && LeadsOwn(c, leader) && Steps(c, c', e.action, e.id, e.lease, e.now) && Timely(c.record, leader, e)
    ensures Inv(c') && LeadsOwn(c', leader) && NobodyNew(c, c')
    ensures c'.record == if e.id == leader && Renews(e.action) then Some(c.record.value.(expiresAt := e.now + e.lease)) else c.record
    ensures c'.nodes[leader].fencingToken == c.nodes[leader].fencingToken
  {
    assert NodeOk(c.record, c.clock, leader, c.nodes[leader]) && NodeOk(c.record, c.clock, e.id, c.nodes[e.id]);
    StepInv(c, c', e.action, e.id, e.lease, e.now);
    StepRecord(c, c', e.action, e.id, e.lease, e.now);
  }

  /** A leader that keeps renewing in time leads on, in the same term and under the same token, and nobody else becomes leader. */
  lemma {:induction false} LeaderStays(run: seq<Cluster>, events: seq<Event>, leader: string, i: nat)
    requires Trace(run, events) && i <= |events| && LeadsOwn(run[0], leader)
    requires forall j :: 0 <= j < i ==> Timely(run[j].record, leader, events[j])
    ensures Inv(run[i]) && LeadsOwn(run[i], leader) && NobodyNew(run[0], run[i])
    ensures Term(run[i].record) == Term(run[0].record) && run[i].nodes[leader].fencingToken == run[0].nodes[leader].fencingToken
  {
    if 0 < i {
      LeaderStays(run, events, leader, i - 1);
      assert EventAt(run, events, i - 1);
      assert Timely(run[i - 1].record, leader, events[i - 1]);
      LeaderStaysStep(run[i - 1], run[i], leader, events[i - 1]);
    }
  }

  /** While only others act, before the lease runs out, the record stays exactly as it is. */
  lemma {:induction false} OthersChangeNothing(run: seq<Cluster>, events: seq<Event>, leader: string, i: nat)
    requires Trace(run, events) && i <= |events| && LeadsOwn(run[0], leader)
    requires forall j :: 0 <= j < i ==> events[j].id != leader && events[j].now < run[0].record.value.expiresAt
    ensures Inv(run[i]) && run[i].record == run[0].record && LeadsOwn(run[i], leader) && NobodyNew(run[0], run[i])
  {
    if 0 < i {
      OthersChangeNothing(run, events, leader, i - 1);
      assert EventAt(run, events, i - 1);
      LeaderStaysStep(run[i - 1], run[i], leader, events[i - 1]);
    }
  }

  /**
   What a renewal achieves: renewed at `now`, the lease runs for all of `lease`. Whatever others do before it
   is over, the record is the renewed one and nobody else becomes leader; and a renewal by the owner at any
   time up to its end succeeds again.
   */
  lemma RenewalProtects(c: Cluster, action: Action, leader: string, lease: nat, now: int, run: seq<Cluster>, events: seq<Event>)
    requires Inv(c) && LeadsOwn(c, leader) && Renews(action) && now <= c.record.value.expiresAt
    requires Trace(run, events) && Steps(c, run[0], action, leader, lease, now)
    requires forall j :: 0 <= j < |events| ==> events[j].id != leader && events[j].now < now + lease
    ensures var last := run[|events|];
            && LeadsOwn(last, leader) && last.record == Some(c.record.value.(expiresAt := now + lease)) && NobodyNew(c, last)
            && forall again: nat, t :: t <= now + lease ==>
                 RenewStep(leader, again, t, last.record, last.nodes[leader]) == Renewed(None, Some(last.record.value.(expiresAt := t + again)))
  {
    LeaderStaysStep(c, run[0], leader, Event(action, leader, lease, now));
    OthersChangeNothing(run, events, leader, |events|);
  }

  // ---------- guards ----------

  datatype LeaderGuard = LeaderGuard(id: string, token: nat)

  /** LeaderGuard::new, for a node of the cluster. */
  function NewGuard(c: Cluster, id: string): Option<LeaderGuard>
    requires id in c.nodes
  {
    if c.nodes[id].isLeader then Some(LeaderGuard(id, c.nodes[id].fencingToken)) else None
  }

  /** LeaderGuard::is_valid. */
  predicate GuardValid(c: Cluster, g: LeaderGuard) {
    g.id in c.nodes && c.nodes[g.id].isLeader && c.nodes[g.id].fencingToken == g.token
  }

  /** A guard is handed out exactly to a node that leads, and is valid for it at once. */
  lemma NewGuardValidIff(c: Cluster, id: string)
    requires id in c.nodes
    ensures NewGuard(c, id).Some? <==> c.nodes[id].isLeader
    ensures NewGuard(c, id).Some? ==> NewGuard(c, id).value.id == id && GuardValid(c, NewGuard(c, id).value)
  {
  }

  /** At any one time valid guards of different nodes have different tokens, and only the record's owner can hold the record's token. */
  lemma GuardsAreFenced(run: seq<Cluster>, i: nat, g: LeaderGuard, g': LeaderGuard)
    requires Run(run) && i < |run| && GuardValid(run[i], g) && GuardValid(run[i], g')
    ensures run[i].record.Some? && 1 <= g.token <= Term(run[i].record)
    ensures g.token == Term(run[i].record) <==> run[i].record.value.leaderId == g.id
    ensures g.token == g'.token ==> g == g'
  {
    TokenHolders(run, i);
    RunInv(run, i);
    assert NodeOk(run[i].record, run[i].clock, g.id, run[i].nodes[g.id]);
    assert NodeOk(run[i].record, run[i].clock, g'.id, run[i].nodes[g'.id]);
  }

  /** A token, once issued, is held by one node only. */
  ghost predicate DistinctTokens(c: Cluster) {
    forall a, b :: a in c.nodes && b in c.nodes && a != b && c.nodes[a].fencingToken == c.nodes[b].fencingToken ==>
      c.nodes[a].fencingToken == 0
  }

  lemma StepTokens(c: Cluster, c': Cluster, action: Action, id: string, lease: nat, now: int)
    requires Inv(c) && Steps(c, c', action, id, lease, now)
    ensures c'.nodes.Keys == c.nodes.Keys
    ensures forall j :: j in c.nodes && j != id ==> c'.nodes[j] == c.nodes[j]
    ensures c'.nodes[id].fencingToken == c.nodes[id].fencingToken || c'.nodes[id].fencingToken == Term(c.record) + 1
    ensures c'.nodes[id].isLeader && !c.nodes[id].isLeader ==> c'.nodes[id].fencingToken == Term(c.record) + 1
    ensures c'.nodes[id].fencingToken != c.nodes[id].fencingToken ==> !c.nodes[id].isLeader
  {
    assert NodeOk(c.record, c.clock, id, c.nodes[id]);
  }

  /** The node becomes leader in this step. */
  ghost predicate Acquires(c: Cluster, c': Cluster, id: string) {
    id in c.nodes && id in c'.nodes && !c.nodes[id].isLeader && c'.nodes[id].isLeader
  }

  /** Tokens issued by successive acquisitions strictly increase, over every run and whoever acquires. */
  lemma IssuedTokensIncrease(run: seq<Cluster>, i: nat, j: nat, a: string, b: string)
    requires Run(run) && i < j < |run| - 1
    requires Acquires(run[i], run[i + 1], a) && Acquires(run[j], run[j + 1], b)
    ensures run[i + 1].nodes[a].fencingToken < run[j + 1].nodes[b].fencingToken
  {
    RunInv(run, i + 1);
    assert NodeOk(run[i + 1].record, run[i + 1].clock, a, run[i + 1].nodes[a]);
    TermsIncrease(run, i + 1, j);
    RunInv(run, j);
    assert NextAt(run, j);
    var action, id, lease, now :| Steps(run[j], run[j + 1], action, id, lease, now);
    StepTokens(run[j], run[j + 1], action, id, lease, now);
  }

  lemma StepHolders(c: Cluster, c': Cluster, action: Action, id: string, lease: nat, now: int)
    requires Inv(c) && Steps(c, c', action, id, lease, now) && DistinctTokens(c)
    ensures DistinctTokens(c')
  {
    StepTokens(c, c', action, id, lease, now);
    forall j | j in c.nodes ensures c.nodes[j].fencingToken <= Term(c.record) {
      assert NodeOk(c.record, c.clock, j, c.nodes[j]);
    }
  }

  lemma {:induction false} TokenHolders(run: seq<Cluster>, i: nat)
    requires Run(run) && i < |run|
    ensures DistinctTokens(run[i])
    ensures forall id :: id in run[i].nodes && run[i].nodes[id].isLeader ==> 1 <= run[i].nodes[id].fencingToken
  {
    if 0 < i {
      TokenHolders(run, i - 1);
      RunInv(run, i - 1);
      assert NextAt(run, i - 1);
      var action, id, lease, now :| Steps(run[i - 1], run[i], action, id, lease, now);
      StepHolders(run[i - 1], run[i], action, id, lease, now);
      StepTokens(run[i - 1], run[i], action, id, lease, now);
    }
  }

  /** A node's token never goes back. */
  lemma {:induction false} TokenNeverFalls(run: seq<Cluster>, i: nat, j: nat, id: string)
    requires Run(run) && i <= j < |run| && id in run[i].nodes
    ensures id in run[j].nodes && run[i].nodes[id].fencingToken <= run[j].nodes[id].fencingToken
    decreases j
  {
    if i < j {
      TokenNeverFalls(run, i, j - 1, id);
      RunInv(run, j - 1);
      assert NextAt(run, j - 1);
      var action, k, lease, now :| Steps(run[j - 1], run[j], action, k, lease, now);
      StepTokens(run[j - 1], run[j], action, k, lease, now);
      assert NodeOk(run[j - 1].record, run[j - 1].clock, id, run[j - 1].nodes[id]);
    }
  }

  /** A guard that has lapsed is never valid again: issued at `i`, lapsed at `j`, lapsed at every later `k`. */
  lemma {:induction false} LapsedGuardStaysLapsed(run: seq<Cluster>, i: nat, j: nat, k: nat, g: LeaderGuard)
    requires Run(run) && i <= j <= k < |run|
    requires g.id in run[i].nodes && NewGuard(run[i], g.id) == Some(g)
    requires !GuardValid(run[j], g)
    ensures !GuardValid(run[k], g)
    decreases k
  {
    if j < k {
      LapsedGuardStaysLapsed(run, i, j, k - 1, g);
      TokenNeverFalls(run, i, k - 1, g.id);
      RunInv(run, k - 1);
      assert NextAt(run, k - 1);
      var action, id, lease, now :| Steps(run[k - 1], run[k], action, id, lease, now);
      StepTokens(run[k - 1], run[k], action, id, lease, now);
      assert NodeOk(run[k - 1].record, run[k - 1].clock, g.id, run[k - 1].nodes[g.id]);
    }
  }

  // ---------- a record for each instance ----------

  /** Alone with its record, a node that tries to acquire always ends up leading. */
  lemma LoneNodeAlwaysAcquires(c: Cluster, c': Cluster, id: string, lease: nat, now: int)
    requires Inv(c) && c.nodes.Keys == {id} && Steps(c, c', TryAcquire, id, lease, now)
    ensures c'.nodes[id].isLeader && c'.nodes.Keys == {id}
  {
    assert NodeOk(c.record, c.clock, id, c.nodes[id]);
  }

  /**
   Each instance as it is constructed holds a record of its own. From whatever they have done before, two
   instances that try to acquire both lead; if neither has led before, both hold token 1.
   */
  lemma OwnRecordsExcludeNobody(runA: seq<Cluster>, runB: seq<Cluster>, a: string, b: string, a': Cluster, b': Cluster,
                                lease: nat, now: int)
    requires Run(runA) && Run(runB) && a != b
    requires var (x, y) := (runA[|runA| - 1], runB[|runB| - 1]);
             && x.nodes.Keys == {a} && y.nodes.Keys == {b}
             && Steps(x, a', TryAcquire, a, lease, now) && Steps(y, b', TryAcquire, b, lease, now)
    ensures a'.nodes[a].isLeader && b'.nodes[b].isLeader
    ensures runA[|runA| - 1].record == None && runB[|runB| - 1].record == None ==>
              a'.nodes[a].fencingToken == b'.nodes[b].fencingToken == 1
  {
    var (x, y) := (runA[|runA| - 1], runB[|runB| - 1]);
    RunInv(runA, |runA| - 1);
    RunInv(runB, |runB| - 1);
    LoneNodeAlwaysAcquires(x, a', a, lease, now);
    LoneNodeAlwaysAcquires(y, b', b, lease, now);
    assert NodeOk(x.record, x.clock, a, x.nodes[a]) && NodeOk(y.record, y.clock, b, y.nodes[b]);
  }

  // ---------- a node that forgets its token ----------

  /**
   A node that becomes leader holds the record's token exactly when it did not find its own id on an
   unexpired record under a token it no longer has. Inside a run that cannot happen; over a record that
   outlives the instance, one started afresh under the id of a live lease is the case, and leads with token 0.
   */
  lemma AcquiredTokenIsRecords(id: string, lease: nat, now: int, record: Record, n: Node)
    requires !n.state.Leading?
    ensures var (record', n') := TryAcquireStep(id, lease, now, record, n);
            n'.state.Leading? ==>
              (record'.Some? && (n'.fencingToken == record'.value.fencingToken <==>
                 !(record.Some? && record.value.leaderId == id && record.value.expiresAt > now
                   && record.value.fencingToken != n.fencingToken)))
  {
  }

  /** A fresh instance leads with token 0 exactly when it finds its own id on an unexpired record. */
  lemma FreshTokenZeroIff(id: string, lease: nat, now: int, record: Record)
    ensures var n' := TryAcquireStep(id, lease, now, record, FRESH).1;
            n'.isLeader && n'.fencingToken == 0 <==> record.Some? && record.value.leaderId == id && record.value.expiresAt > now
  {
  }

  // ---------- the code ----------

  class LeadershipStore {
    var record: Record

    constructor ()
      ensures record == None
    {
      record := None;
    }
  }

  class LeaderElection {
    const nodeId: string
    const lease: nat
    const store: LeadershipStore
    var state: LeaderState
    var stateToken: Option<nat>
    var isLeader: bool
    var fencingToken: nat

    ghost function View(): Node
      reads this
    {
      Node(state, stateToken, isLeader, fencingToken)
    }

    constructor (nodeId: string, lease: nat, store: LeadershipStore)
      ensures View() == FRESH && this.nodeId == nodeId && this.lease == lease && this.store == store
    {
      this.nodeId, this.lease, this.store := nodeId, lease, store;
      state, stateToken, isLeader, fencingToken := Follower, None, false, 0;
    }

    /** try_acquire_memory. */
    method TryAcquireMemory(now: int) returns (ok: bool)
      modifies store`record, this`fencingToken
      ensures Acquired(ok, store.record, fencingToken) == AcquireRecord(nodeId, lease, now, old(store.record), old(fencingToken))
    {
      if store.record.Some? {
        var existing := store.record.value;
        if existing.leaderId == nodeId && existing.expiresAt > now {
          return true;
        }
        if existing.expiresAt > now {
          return false;
        }
      }
      var newToken := if store.record.Some? then store.record.value.fencingToken + 1 else 1;
      fencingToken := newToken;
      store.record := Some(LeadershipRecord(nodeId, newToken, now, now + lease));
      return true;
    }

    method TryAcquire(now: int) returns (acquired: bool)
      modifies this, store
      ensures (store.record, View()) == TryAcquireStep(nodeId, lease, now, old(store.record), old(View()))
      ensures acquired <==> state.Leading?
    {
      if state.Leading? {
        return true;
      }
      state := Candidate;
      acquired := TryAcquireMemory(now);
      if acquired {
        state, stateToken, isLeader := Leading, Some(fencingToken), true;
      } else {
        state := Follower;
      }
    }

    method Renew(now: int) returns (error: Option<LeaderError>)
      modifies store
      ensures Renewed(error, store.record) == RenewStep(nodeId, lease, now, old(store.record), View())
      ensures error.None? <==> isLeader && old(store.record).Some? && old(store.record).value.leaderId == nodeId
                               && now <= old(store.record).value.expiresAt
      ensures error.None? ==> store.record == Some(old(store.record).value.(expiresAt := now + lease))
      ensures error.Some? ==> store.record == old(store.record)
    {
      if !isLeader {
        return Some(NotLeader);
      }
      match store.record {
        case Some(existing) =>
          if existing.leaderId != nodeId {
            return Some(AnotherNodeIsLeader);
          }
          if existing.expiresAt < now {
            return Some(LeaseExpired);
          }
          store.record := Some(existing.(expiresAt := now + lease));
          error := None;
        case None =>
          error := Some(NoRecord);
      }
    }

    method Release()
      modifies this, store
      ensures (store.record, View()) == ReleaseStep(nodeId, old(store.record), old(View()))
    {
      if !state.Leading? {
        return;
      }
      if store.record.Some? && store.record.value.leaderId == nodeId {
        store.record := Some(store.record.value.(expiresAt := 0));
      }
      state, stateToken, isLeader := Follower, None, false;
    }

    /** The body of the run loop on a tick of the renewal interval. */
    method RunTick(now: int)
      modifies this, store
      ensures (store.record, View()) == TickStep(nodeId, lease, now, old(store.record), old(View()))
    {
      if isLeader {
        var error := Renew(now);
        if error.Some? {
          state, stateToken, isLeader := Follower, None, false;
        }
      } else {
        var _ := TryAcquire(now);
      }
    }

    /** The run loop on shutdown. */
    method RunStop()
      modifies this, store
      ensures (store.record, View()) == StopStep(nodeId, old(store.record), old(View()))
      ensures state.Stopped?
    {
      Release();
      state := Stopped;
    }
  }
}
