/**
 The partition assigner (crates/streamhouse-agent/src/assigner.rs): every agent lists the same agents and
 partitions, sorts them, and takes its own turns. Nothing is exchanged, so agreement is a theorem about the
 computation alone.
 */
module Assigner {
  import opened Ordering
  import opened Placement

  type AgentId = string

  /** What the metadata store says of a topic. */
  datatype Lookup = Found(partitions: nat) | Missing | Failed

  function CountOf(l: Lookup): nat {
    if l.Found? then l.partitions else 0
  }

  function TopicPartitions(topic: string, n: nat): seq<Partition> {
    seq(n, i => (topic, i))
  }

  function PartitionsOf(topics: seq<string>, lookup: string -> Lookup): seq<Partition> {
    if topics == [] then []
    else
      var t := topics[|topics| - 1];
      PartitionsOf(topics[..|topics| - 1], lookup) + TopicPartitions(t, CountOf(lookup(t)))
  }

  /** The partitions whose turn falls to `id`, once both lists are sorted. */
  ghost function ShareOf(id: AgentId, agents: seq<AgentId>, parts: seq<Partition>): set<Partition>
    requires agents != []
  {
    Taken(id, Sort(agents, StringLe), Sort(parts, PartitionLe))
  }

  ghost function Taken(id: AgentId, agents: seq<AgentId>, parts: seq<Partition>): set<Partition> {
    if parts == [] || agents == [] then {}
    else
      var k := |parts| - 1;
      Taken(id, agents, parts[..k]) + if agents[k % |agents|] == id then {parts[k]} else {}
  }

  lemma {:induction false} TakenIs(id: AgentId, agents: seq<AgentId>, parts: seq<Partition>, p: Partition)
    requires agents != []
    ensures p in Taken(id, agents, parts) <==> exists i :: 0 <= i < |parts| && parts[i] == p && agents[i % |agents|] == id
  {
    if parts != [] {
      var k := |parts| - 1;
      TakenIs(id, agents, parts[..k], p);
      if i :| 0 <= i < k && parts[..k][i] == p && agents[i % |agents|] == id {
        assert parts[i] == p;
      }
      if i :| 0 <= i < |parts| && parts[i] == p && agents[i % |agents|] == id {
        if i < k { assert parts[..k][i] == p; }
      }
    }
  }

  /** Partition `i` of the sorted list is the turn of agent `i mod n` of the sorted agents. */
  lemma ShareIs(id: AgentId, agents: seq<AgentId>, parts: seq<Partition>, p: Partition)
    requires agents != []
    ensures var sa, sp := Sort(agents, StringLe), Sort(parts, PartitionLe);
            sa != [] && (p in ShareOf(id, agents, parts) <==> exists i :: 0 <= i < |sp| && sp[i] == p && sa[i % |sa|] == id)
  {
    assert |multiset(Sort(agents, StringLe))| == |multiset(agents)|;
    TakenIs(id, Sort(agents, StringLe), Sort(parts, PartitionLe), p);
  }

  // ---------- agreement ----------

  /** Whatever order the lists arrive in, every agent computes the same shares. */
  lemma SharesAgree(id: AgentId, agents: seq<AgentId>, agents': seq<AgentId>, parts: seq<Partition>, parts': seq<Partition>)
    requires agents != [] && multiset(agents) == multiset(agents') && multiset(parts) == multiset(parts')
    ensures agents' != [] && ShareOf(id, agents, parts) == ShareOf(id, agents', parts')
  {
    StringOrder();
    PartitionOrder();
    assert |multiset(agents)| == |multiset(agents')|;
    SortForgetsOrder(agents, agents', StringLe);
    SortForgetsOrder(parts, parts', PartitionLe);
  }

  /** With distinct agents and partitions a share is what round robin puts on the agent. */
  lemma {:induction false} TakenIsRoundRobin(id: AgentId, agents: seq<AgentId>, parts: seq<Partition>)
    requires agents != [] && NoRepeats(parts)
    ensures Taken(id, agents, parts) == On(RoundRobin(parts, agents), id)
  {
    if parts != [] {
      var k := |parts| - 1;
      TakenIsRoundRobin(id, agents, parts[..k]);
      RoundRobinAt(parts[..k], agents);
      assert parts[k] !in parts[..k];
      assert On(RoundRobin(parts, agents), id) ==
             On(RoundRobin(parts[..k], agents), id) + if agents[k % |agents|] == id then {parts[k]} else {};
    }
  }

  /** The agent at place `j` of N takes floor(P/N) partitions, and one more if j < P mod N. */
  lemma TakenSize(agents: seq<AgentId>, parts: seq<Partition>, j: nat)
    requires agents != [] && NoRepeats(agents) && Sorted(agents, StringLe) && NoRepeats(parts) && j < |agents|
    ensures |Taken(agents[j], agents, parts)| == Share(|parts|, j, |agents|)
  {
    var nodes := Elements(agents);
    var st := Placed(map[], ZeroLoads(nodes));
    TakenIsRoundRobin(agents[j], agents, parts);
    GreedyTakesTurns(parts, agents);
    assert forall n :: n in nodes ==> On(map[], n) == {};
    assert agents[j] in nodes;
    GreedyLevels(parts, st, nodes);
  }

  lemma SharesDisjoint(agents: seq<AgentId>, parts: seq<Partition>, a: AgentId, b: AgentId)
    requires agents != [] && NoRepeats(parts) && a != b
    ensures ShareOf(a, agents, parts) !! ShareOf(b, agents, parts)
  {
    var sa, sp := Sort(agents, StringLe), Sort(parts, PartitionLe);
    SameMultisetSameSet(agents, sa);
    SameMultisetSameSet(parts, sp);
    TakenIsRoundRobin(a, sa, sp);
    TakenIsRoundRobin(b, sa, sp);
  }

  lemma ShareSize(agents: seq<AgentId>, parts: seq<Partition>, a: AgentId)
    requires NoRepeats(agents) && NoRepeats(parts) && a in agents
    ensures Fair(|ShareOf(a, agents, parts)|, |parts|, |agents|)
  {
    StringOrder();
    var sa, sp := Sort(agents, StringLe), Sort(parts, PartitionLe);
    SortSorts(agents, StringLe);
    SameMultisetSameSet(agents, sa);
    SameMultisetSameSet(parts, sp);
    assert a in Elements(agents);
    assert a in sa;
    var j :| 0 <= j < |sa| && sa[j] == a;
    assert |sa| == |agents| && |sp| == |parts|;
    TakenFair(sa, sp, j);
  }

  lemma TakenFair(agents: seq<AgentId>, parts: seq<Partition>, j: nat)
    requires agents != [] && NoRepeats(agents) && Sorted(agents, StringLe) && NoRepeats(parts) && j < |agents|
    ensures Fair(|Taken(agents[j], agents, parts)|, |parts|, |agents|)
  {
    TakenSize(agents, parts, j);
    ShareBounds(|parts|, j, |agents|);
  }

  /** floor(p / n) or ceil(p / n). */
  ghost predicate Fair(size: nat, p: nat, n: nat) {
    0 < n && p / n <= size <= (p + n - 1) / n
  }

  /**
   Agreement without communication, with no repeats: shares of different agents are disjoint, together they
   cover every partition, and each has floor(P/N) or ceil(P/N) of them.
   */
  lemma SharesPartition(agents: seq<AgentId>, parts: seq<Partition>)
    requires agents != [] && NoRepeats(agents) && NoRepeats(parts)
    ensures forall a, b :: a in agents && b in agents && a != b ==> ShareOf(a, agents, parts) !! ShareOf(b, agents, parts)
    ensures forall p :: p in parts <==> exists a :: a in agents && p in ShareOf(a, agents, parts)
    ensures forall a :: a in agents ==>
              Fair(|ShareOf(a, agents, parts)|, |parts|, |agents|)
  {
    forall a, b | a in agents && b in agents && a != b ensures ShareOf(a, agents, parts) !! ShareOf(b, agents, parts) {
      SharesDisjoint(agents, parts, a, b);
    }
    forall p ensures p in parts <==> exists a :: a in agents && p in ShareOf(a, agents, parts) {
      Covered(agents, parts, p);
    }
    forall a | a in agents
      ensures Fair(|ShareOf(a, agents, parts)|, |parts|, |agents|)
    {
      ShareSize(agents, parts, a);
    }
  }

  lemma Covered(agents: seq<AgentId>, parts: seq<Partition>, p: Partition)
    requires agents != []
    ensures p in parts <==> exists a :: a in agents && p in ShareOf(a, agents, parts)
  {
    var sa, sp := Sort(agents, StringLe), Sort(parts, PartitionLe);
    SameMultisetSameSet(agents, sa);
    SameMultisetSameSet(parts, sp);
    assert p in parts <==> p in Elements(parts);
    assert p in sp <==> p in Elements(sp);
    if p in parts {
      var i :| 0 <= i < |sp| && sp[i] == p;
      var a := sa[i % |sa|];
      TakenIs(a, sa, sp, p);
      assert a in Elements(sa);
      assert a in agents;
    }
    if a :| a in agents && p in Taken(a, sa, sp) {
      TakenIs(a, sa, sp, p);
    }
  }

  lemma ShareBounds(i: nat, j: nat, n: nat)
    requires j < n
    ensures Fair(Share(i, j, n), i, n)
  {
    var q, r := i / n, i % n;
    assert i == q * n + r;
    if r == 0 {
      assert i + n - 1 == q * n + (n - 1);
      QuotientUnique(i + n - 1, n, q, n - 1);
    } else {
      assert i + n - 1 == (q + 1) * n + (r - 1);
      QuotientUnique(i + n - 1, n, q + 1, r - 1);
    }
  }

  // ---------- repeated topics ----------

  lemma {:induction false} PartitionsIn(topics: seq<string>, lookup: string -> Lookup, p: Partition)
    ensures p in PartitionsOf(topics, lookup) <==> p.0 in topics && p.1 < CountOf(lookup(p.0))
  {
    if topics != [] {
      var k := |topics| - 1;
      PartitionsIn(topics[..k], lookup, p);
      assert topics == topics[..k] + [topics[k]];
      assert p in TopicPartitions(topics[k], CountOf(lookup(topics[k]))) <==> p.0 == topics[k] && p.1 < CountOf(lookup(p.0)) by {
        if p.0 == topics[k] && p.1 < CountOf(lookup(p.0)) {
          assert TopicPartitions(topics[k], CountOf(lookup(topics[k])))[p.1] == p;
        }
      }
    }
  }

  /** Only topics without partitions may be named twice. */
  ghost predicate NoTopicTwice(topics: seq<string>, lookup: string -> Lookup) {
    forall i, j :: 0 <= i < j < |topics| && topics[i] == topics[j] ==> CountOf(lookup(topics[i])) == 0
  }

  /** The partition list has repeats exactly when a topic with partitions is configured twice. */
  lemma {:induction false} RepeatsFromTopics(topics: seq<string>, lookup: string -> Lookup)
    ensures NoRepeats(PartitionsOf(topics, lookup)) <==> NoTopicTwice(topics, lookup)
  {
    if topics != [] {
      var k := |topics| - 1;
      var init, t := topics[..k], topics[k];
      var n := CountOf(lookup(t));
      RepeatsFromTopics(init, lookup);
      assert forall i :: 0 <= i < k ==> init[i] == topics[i];
      if 0 < n && t in init {
        var i :| 0 <= i < k && init[i] == t;
        assert topics[i] == topics[k];
        PartitionsIn(init, lookup, (t, 0));
        assert TopicPartitions(t, n)[0] == (t, 0);
        RepeatAcross(PartitionsOf(init, lookup), TopicPartitions(t, n), (t, 0));
      } else {
        forall p | p in PartitionsOf(init, lookup) ensures p !in TopicPartitions(t, n) {
          PartitionsIn(init, lookup, p);
        }
        NoRepeatAcross(PartitionsOf(init, lookup), TopicPartitions(t, n));
        assert NoTopicTwice(topics, lookup) <==> NoTopicTwice(init, lookup);
      }
    }
  }

  lemma RepeatAcross<T>(a: seq<T>, b: seq<T>, x: T)
    requires x in a && x in b
    ensures !NoRepeats(a + b)
  {
    var i :| 0 <= i < |a| && a[i] == x;
    var j :| 0 <= j < |b| && b[j] == x;
    assert (a + b)[i] == (a + b)[|a| + j];
  }

  lemma NoRepeatAcross<T>(a: seq<T>, b: seq<T>)
    requires NoRepeats(b) && forall x :: x in a ==> x !in b
    ensures NoRepeats(a + b) <==> NoRepeats(a)
  {
    var s := a + b;
    if NoRepeats(s) {
      forall i, j | 0 <= i < j < |a| ensures a[i] != a[j] {
        assert s[i] != s[j];
      }
    }
    if NoRepeats(a) {
      forall i, j | 0 <= i < j < |s| ensures s[i] != s[j] {
        if i < |a| <= j {
          assert s[i] in a && s[j] in b;
        }
      }
    }
  }

  lemma RepeatIsAdjacent(s: seq<Partition>)
    requires Sorted(s, PartitionLe) && !NoRepeats(s)
    ensures exists i :: 0 <= i < |s| - 1 && s[i] == s[i + 1]
  {
    PartitionOrder();
    var i, j :| 0 <= i < j < |s| && s[i] == s[j];
    if i + 1 < j {
      assert PartitionLe(s[i], s[i + 1]) && PartitionLe(s[i + 1], s[j]);
    }
    assert s[i] == s[i + 1];
  }

  lemma TurnsDiffer(i: nat, n: nat)
    requires 1 < n
    ensures i % n != (i + 1) % n
  {
    DivModStep(i, n);
  }

  /** Shares are disjoint exactly when there is one agent or no topic with partitions is configured twice. */
  lemma SharesDisjointIff(agents: seq<AgentId>, topics: seq<string>, lookup: string -> Lookup)
    requires agents != [] && NoRepeats(agents)
    ensures (forall a, b :: a in agents && b in agents && a != b ==>
               ShareOf(a, agents, PartitionsOf(topics, lookup)) !! ShareOf(b, agents, PartitionsOf(topics, lookup)))
            <==> |agents| == 1 || NoTopicTwice(topics, lookup)
  {
    var parts := PartitionsOf(topics, lookup);
    RepeatsFromTopics(topics, lookup);
    if NoRepeats(parts) {
      SharesPartition(agents, parts);
    } else if 1 < |agents| {
      RepeatShared(agents, parts);
    }
  }

  lemma RepeatShared(agents: seq<AgentId>, parts: seq<Partition>)
    requires 1 < |agents| && NoRepeats(agents) && !NoRepeats(parts)
    ensures exists a, b :: a in agents && b in agents && a != b && !(ShareOf(a, agents, parts) !! ShareOf(b, agents, parts))
  {
    StringOrder();
    PartitionOrder();
    var sa, sp := Sort(agents, StringLe), Sort(parts, PartitionLe);
    SortSorts(parts, PartitionLe);
    SameMultisetSameSet(agents, sa);
    SameMultisetSameSet(sp, parts);
    RepeatIsAdjacent(sp);
    var i :| 0 <= i < |sp| - 1 && sp[i] == sp[i + 1];
    TurnsDiffer(i, |sa|);
    var a, b := sa[i % |sa|], sa[(i + 1) % |sa|];
    assert a in Elements(sa) && b in Elements(sa);
    TakenIs(a, sa, sp, sp[i]);
    TakenIs(b, sa, sp, sp[i]);
    assert a in agents && b in agents && a != b;
    assert sp[i] in ShareOf(a, agents, parts) && sp[i] in ShareOf(b, agents, parts);
  }

  // ---------- the rebalance task ----------

  datatype AssignmentStats = AssignmentStats(rebalanceCount: nat, assignmentsGained: nat, assignmentsLost: nat, lastRebalanceMs: int)

  datatype AssignerState = AssignerState(assignedPartitions: set<Partition>, topology: map<AgentId, nat>, stats: AssignmentStats)

  const INITIAL := AssignerState({}, map[], AssignmentStats(0, 0, 0, 0))

  function Topology(sorted: seq<AgentId>): map<AgentId, nat> {
    if sorted == [] then map[] else Topology(sorted[..|sorted| - 1])[sorted[|sorted| - 1] := |sorted| - 1]
  }

  /** Exactly the agents are mapped, each to a place that it has among the sorted agents. */
  ghost predicate Places(topology: map<AgentId, nat>, agents: seq<AgentId>) {
    && topology.Keys == Elements(agents)
    && forall a :: a in topology ==> topology[a] < |agents| && PlaceIs(Sort(agents, StringLe), topology[a], a)
  }

  ghost predicate PlaceIs(sorted: seq<AgentId>, i: nat, a: AgentId) {
    i < |sorted| && sorted[i] == a
  }

  lemma {:induction false} TopologyAt(sorted: seq<AgentId>)
    ensures Topology(sorted).Keys == Elements(sorted)
    ensures forall a :: a in Topology(sorted) ==> PlaceIs(sorted, Topology(sorted)[a], a)
  {
    if sorted != [] {
      var k := |sorted| - 1;
      TopologyAt(sorted[..k]);
      assert sorted == sorted[..k] + [sorted[k]];
      assert Elements(sorted) == Elements(sorted[..k]) + {sorted[k]};
      assert forall a :: a in Topology(sorted[..k]) ==> PlaceIs(sorted[..k], Topology(sorted[..k])[a], a);
    }
  }

  lemma TopologyPlaces(agents: seq<AgentId>)
    ensures Places(Topology(Sort(agents, StringLe)), agents)
  {
    TopologyAt(Sort(agents, StringLe));
    SameMultisetSameSet(agents, Sort(agents, StringLe));
    assert |multiset(Sort(agents, StringLe))| == |multiset(agents)|;
  }

  predicate AnyFailed(topics: seq<string>, lookup: string -> Lookup) {
    exists t :: t in topics && lookup(t).Failed?
  }

  /** The decision once the topology and the share are known; `failed` is whether a topic could not be looked up. */
  function Decide(s: AssignerState, topology: map<AgentId, nat>, share: set<Partition>, failed: bool, now: int): (AssignerState, bool) {
    if topology == s.topology && share == s.assignedPartitions then (s, true)
    else if failed then (s, false)
    else
      (AssignerState(share, topology,
                     AssignmentStats(s.stats.rebalanceCount + 1, s.stats.assignmentsGained + |share - s.assignedPartitions|,
                                     s.stats.assignmentsLost + |s.assignedPartitions - share|, now)),
       true)
  }

  /** perform_rebalance as a function of what the store reported: the new state, and whether it succeeded. */
  ghost function Rebalanced(id: AgentId, topics: seq<string>, s: AssignerState, agents: seq<AgentId>, lookup: string -> Lookup, now: int)
    : (AssignerState, bool)
  {
    if agents == [] then (s, true)
    else Decide(s, Topology(Sort(agents, StringLe)), ShareOf(id, agents, PartitionsOf(topics, lookup)), AnyFailed(topics, lookup), now)
  }

  /** What a rebalance leaves behind, from whatever state and report. */
  ghost predicate Outcome(id: AgentId, topics: seq<string>, s: AssignerState, agents: seq<AgentId>, lookup: string -> Lookup, now: int,
                          s': AssignerState, ok: bool)
  {
    && (agents == [] ==> ok && s' == s)
    && (agents != [] && ok ==>
          s'.assignedPartitions == ShareOf(id, agents, PartitionsOf(topics, lookup)) && Places(s'.topology, agents))
    && (!ok ==> s' == s && exists t :: t in topics && lookup(t).Failed?)
    && (s' == s || s'.stats == AssignmentStats(s.stats.rebalanceCount + 1,
                                               s.stats.assignmentsGained + |s'.assignedPartitions - s.assignedPartitions|,
                                               s.stats.assignmentsLost + |s.assignedPartitions - s'.assignedPartitions|, now))
    && (s' != s ==> s'.assignedPartitions != s.assignedPartitions || s'.topology != s.topology)
  }

  /** Success means holding one's share; failure means that a look-up failed, and changes nothing; only changes are counted. */
  lemma RebalanceOutcome(id: AgentId, topics: seq<string>, s: AssignerState, agents: seq<AgentId>, lookup: string -> Lookup, now: int)
    ensures var (s', ok) := Rebalanced(id, topics, s, agents, lookup, now);
            Outcome(id, topics, s, agents, lookup, now, s', ok)
  {
    TopologyPlaces(agents);
  }

  /** With every look-up answered a rebalance succeeds. */
  lemma RebalanceSucceeds(id: AgentId, topics: seq<string>, s: AssignerState, agents: seq<AgentId>, lookup: string -> Lookup, now: int)
    requires forall t :: t in topics ==> !lookup(t).Failed?
    ensures Rebalanced(id, topics, s, agents, lookup, now).1
  {
  }

  /** A rebalance that succeeded, repeated on the same report at any later time, changes nothing. */
  lemma RepeatIsNoOp(id: AgentId, topics: seq<string>, s: AssignerState, agents: seq<AgentId>, lookup: string -> Lookup, now: int, later: int)
    ensures var (s', ok) := Rebalanced(id, topics, s, agents, lookup, now);
            ok ==> Rebalanced(id, topics, s', agents, lookup, later) == (s', true)
  {
  }

  /** Every partition gained and not lost again is held. */
  ghost predicate Conserved(s: AssignerState) {
    s.stats.assignmentsGained == s.stats.assignmentsLost + |s.assignedPartitions|
  }

  lemma RebalanceConserves(id: AgentId, topics: seq<string>, s: AssignerState, agents: seq<AgentId>, lookup: string -> Lookup, now: int)
    requires Conserved(s)
    ensures Conserved(Rebalanced(id, topics, s, agents, lookup, now).0)
  {
    if agents != [] {
      var share := ShareOf(id, agents, PartitionsOf(topics, lookup));
      SizeByParts(share, s.assignedPartitions);
      SizeByParts(s.assignedPartitions, share);
      assert share * s.assignedPartitions == s.assignedPartitions * share;
    }
  }

  lemma SizeByParts<T>(a: set<T>, b: set<T>)
    ensures |a| == |a - b| + |a * b|
  {
    assert a == (a - b) + (a * b);
  }

  datatype Report = Report(agents: seq<AgentId>, lookup: string -> Lookup, now: int)

  ghost function AfterReports(id: AgentId, topics: seq<string>, reports: seq<Report>): AssignerState {
    if reports == [] then INITIAL
    else
      var r := reports[|reports| - 1];
      Rebalanced(id, topics, AfterReports(id, topics, reports[..|reports| - 1]), r.agents, r.lookup, r.now).0
  }

  /** Over every run, whatever the store reported each time: gained minus lost is the number of partitions assigned. */
  lemma {:induction false} RunConserves(id: AgentId, topics: seq<string>, reports: seq<Report>)
    ensures Conserved(AfterReports(id, topics, reports))
  {
    if reports != [] {
      var r := reports[|reports| - 1];
      RunConserves(id, topics, reports[..|reports| - 1]);
      RebalanceConserves(id, topics, AfterReports(id, topics, reports[..|reports| - 1]), r.agents, r.lookup, r.now);
    }
  }

  // ---------- the code ----------

  /** The collection loop, for topics that were found; `failed` is whether any look-up failed. */
  method CollectPartitions(topics: seq<string>, lookup: string -> Lookup) returns (parts: seq<Partition>, failed: bool)
    ensures parts == PartitionsOf(topics, lookup) && failed == AnyFailed(topics, lookup)
  {
    parts, failed := [], false;
    for i := 0 to |topics|
      invariant parts == PartitionsOf(topics[..i], lookup) && failed == AnyFailed(topics[..i], lookup)
    {
      var t := topics[i];
      assert topics[..i + 1][..i] == topics[..i] && topics[..i + 1] == topics[..i] + [t];
      match lookup(t) {
        case Found(n) =>
          ghost var before := parts;
          for k := 0 to n
            invariant parts == before + TopicPartitions(t, k)
          {
            assert TopicPartitions(t, k + 1) == TopicPartitions(t, k) + [(t, k)];
            parts := parts + [(t, k)];
          }
        case Missing =>
        case Failed =>
          failed := true;
      }
    }
    assert topics[..|topics|] == topics;
  }

  /** The round-robin loop. */
  method TakeTurns(id: AgentId, agents: seq<AgentId>, parts: seq<Partition>) returns (share: set<Partition>)
    requires agents != []
    ensures share == Taken(id, agents, parts)
  {
    share := {};
    for i := 0 to |parts|
      invariant share == Taken(id, agents, parts[..i])
    {
      assert parts[..i + 1][..i] == parts[..i];
      if agents[i % |agents|] == id {
        share := share + {parts[i]};
      }
    }
    assert parts[..|parts|] == parts;
  }

  method MakeTopology(sorted: seq<AgentId>) returns (topology: map<AgentId, nat>)
    ensures topology == Topology(sorted)
  {
    topology := map[];
    for i := 0 to |sorted|
      invariant topology == Topology(sorted[..i])
    {
      assert sorted[..i + 1][..i] == sorted[..i];
      topology := topology[sorted[i] := i];
    }
    assert sorted[..|sorted|] == sorted;
  }

  method ComputeShare(id: AgentId, topics: seq<string>, agents: seq<AgentId>, lookup: string -> Lookup)
    returns (topology: map<AgentId, nat>, share: set<Partition>, failed: bool)
    requires agents != []
    ensures topology == Topology(Sort(agents, StringLe))
    ensures share == ShareOf(id, agents, PartitionsOf(topics, lookup))
    ensures failed == AnyFailed(topics, lookup)
  {
    var sorted := Sort(agents, StringLe);
    assert |multiset(sorted)| == |multiset(agents)|;
    topology := MakeTopology(sorted);
    var parts;
    parts, failed := CollectPartitions(topics, lookup);
    share := TakeTurns(id, sorted, Sort(parts, PartitionLe));
  }

  class RebalanceTask {
    const agentId: AgentId
    const topics: seq<string>
    var state: AssignerState

    constructor (agentId: AgentId, topics: seq<string>)
      ensures this.agentId == agentId && this.topics == topics && state == INITIAL
    {
      this.agentId, this.topics, state := agentId, topics, INITIAL;
    }

    /**
     perform_rebalance. Whether a lease is then released or acquired does not enter the recorded state, so the
     lease calls are not part of it.
     */
    method PerformRebalance(agents: seq<AgentId>, lookup: string -> Lookup, now: int) returns (ok: bool)
      modifies this`state
      ensures (state, ok) == Rebalanced(agentId, topics, old(state), agents, lookup, now)
      ensures Outcome(agentId, topics, old(state), agents, lookup, now, state, ok)
    {
      RebalanceOutcome(agentId, topics, state, agents, lookup, now);
      if agents == [] {
        return true;
      }
      var topology, share, failed := ComputeShare(agentId, topics, agents, lookup);
      ok := Update(topology, share, failed, now);
    }

    /** The comparison with the recorded state, the difference, and the update. */
    method Update(topology: map<AgentId, nat>, share: set<Partition>, failed: bool, now: int) returns (ok: bool)
      modifies this`state
      ensures (state, ok) == Decide(old(state), topology, share, failed, now)
    {
      if topology == state.topology && share == state.assignedPartitions {
        return true;
      }
      if failed {
        return false;
      }
      var toAcquire, toRelease := share - state.assignedPartitions, state.assignedPartitions - share;
      state := AssignerState(share, topology,
                             AssignmentStats(state.stats.rebalanceCount + 1, state.stats.assignmentsGained + |toAcquire|,
                                             state.stats.assignmentsLost + |toRelease|, now));
      ok := true;
    }
  }

  // ---------- several tasks ----------

  /** The tasks are one for each agent, apart from one another, and configured alike. */
  ghost predicate OnePerAgent(tasks: seq<RebalanceTask>, agents: seq<AgentId>, topics: seq<string>) {
    && |tasks| == |agents| && NoRepeats(agents)
    && (forall i :: 0 <= i < |tasks| ==> tasks[i].agentId == agents[i] && tasks[i].topics == topics)
    && forall i, j :: 0 <= i < j < |tasks| ==> tasks[i] != tasks[j]
  }

  ghost predicate HoldsShare(task: RebalanceTask, agents: seq<AgentId>, parts: seq<Partition>)
    requires agents != []
    reads task
  {
    task.state.assignedPartitions == ShareOf(task.agentId, agents, parts)
  }

  /** What the tasks hold splits the partitions: nobody's twice, everybody's covered, in fair shares. */
  ghost predicate Split(tasks: seq<RebalanceTask>, parts: seq<Partition>)
    reads tasks
  {
    && (forall i, j :: 0 <= i < j < |tasks| ==> tasks[i].state.assignedPartitions !! tasks[j].state.assignedPartitions)
    && (forall p :: p in parts <==> exists i :: 0 <= i < |tasks| && p in tasks[i].state.assignedPartitions)
    && (forall i :: 0 <= i < |tasks| ==> Fair(|tasks[i].state.assignedPartitions|, |parts|, |tasks|))
  }

  lemma SharesSplit(tasks: seq<RebalanceTask>, agents: seq<AgentId>, topics: seq<string>, parts: seq<Partition>)
    requires agents != [] && OnePerAgent(tasks, agents, topics) && NoRepeats(parts)
    requires forall i :: 0 <= i < |tasks| ==> HoldsShare(tasks[i], agents, parts)
    ensures Split(tasks, parts)
  {
    SharesPartition(agents, parts);
    forall i, j | 0 <= i < j < |tasks| ensures tasks[i].state.assignedPartitions !! tasks[j].state.assignedPartitions {
      assert HoldsShare(tasks[i], agents, parts) && HoldsShare(tasks[j], agents, parts);
      assert agents[i] in agents && agents[j] in agents && agents[i] != agents[j];
    }
    forall i | 0 <= i < |tasks| ensures Fair(|tasks[i].state.assignedPartitions|, |parts|, |tasks|) {
      assert HoldsShare(tasks[i], agents, parts) && agents[i] in agents;
    }
    forall p ensures p in parts <==> exists i :: 0 <= i < |tasks| && p in tasks[i].state.assignedPartitions {
      HeldBySome(tasks, agents, topics, parts, p);
    }
  }

  lemma HeldBySome(tasks: seq<RebalanceTask>, agents: seq<AgentId>, topics: seq<string>, parts: seq<Partition>, p: Partition)
    requires agents != [] && OnePerAgent(tasks, agents, topics)
    requires forall i :: 0 <= i < |tasks| ==> HoldsShare(tasks[i], agents, parts)
    ensures p in parts <==> exists i :: 0 <= i < |tasks| && p in tasks[i].state.assignedPartitions
  {
    Covered(agents, parts, p);
    if p in parts {
      var a :| a in agents && p in ShareOf(a, agents, parts);
      var i :| 0 <= i < |agents| && agents[i] == a;
      assert HoldsShare(tasks[i], agents, parts);
    }
    if i :| 0 <= i < |tasks| && p in tasks[i].state.assignedPartitions {
      assert HoldsShare(tasks[i], agents, parts) && agents[i] in agents;
    }
  }

  /**
   Agreement as the tasks live it: when each agent's task has rebalanced on the same report, in whatever state
   it was, and no topic with partitions is named twice, what they hold splits the partitions.
   */
  method RebalanceAll(tasks: seq<RebalanceTask>, agents: seq<AgentId>, topics: seq<string>, lookup: string -> Lookup, now: int)
    requires agents != [] && OnePerAgent(tasks, agents, topics) && NoTopicTwice(topics, lookup)
    requires forall t :: t in topics ==> !lookup(t).Failed?
    modifies tasks
    ensures Split(tasks, PartitionsOf(topics, lookup))
  {
    ghost var parts := PartitionsOf(topics, lookup);
    for i := 0 to |tasks|
      invariant forall j :: 0 <= j < i ==> HoldsShare(tasks[j], agents, parts)
    {
      RebalanceSucceeds(tasks[i].agentId, topics, tasks[i].state, agents, lookup, now);
      var _ := tasks[i].PerformRebalance(agents, lookup, now);
    }
    RepeatsFromTopics(topics, lookup);
    SharesSplit(tasks, agents, topics, parts);
  }
}
