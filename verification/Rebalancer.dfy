/**
 The partition rebalancer (crates/streamhouse-agent/src/rebalancer.rs): a target assignment by one of
 four strategies, its difference from the current one cut to a maximum number of movements, and the
 step that carries the movements out. Hash maps iterate in an arbitrary order.
 */
module Rebalancer {
  import opened Ordering
  import opened Placement

  datatype RebalanceStrategy = RoundRobin | LeastLoaded | ConsistentHash | StickyAssignment

  datatype NodeLoad = NodeLoad(partitionCount: nat, bytesPerSec: real, recordsPerSec: real)

  datatype RebalanceConfig = RebalanceConfig(maxConcurrentMovements: nat, rackAware: bool, imbalanceThreshold: real)

  datatype PartitionMovement = PartitionMovement(partition: Partition, fromNode: Option<NodeId>, toNode: NodeId)

  datatype RebalancePlan = RebalancePlan(
    movements: seq<PartitionMovement>,
    strategy: RebalanceStrategy,
    wasBalanced: bool,
    partitionsUnchanged: nat,
    totalPartitions: nat)

  /** `format!("{}:{}", topic, partition_id)`, hashed. */
  function HashKey(hash: string -> nat): Partition -> nat {
    (p: Partition) => hash(p.0 + ":" + Decimal(p.1))
  }

  /** What is hashed tells partitions apart. */
  lemma HashedTextInjective(p: Partition, q: Partition)
    requires p.0 + ":" + Decimal(p.1) == q.0 + ":" + Decimal(q.1)
    ensures p == q
  {
    NumberedNameInjective(p.0, p.1, q.0, q.1, ':');
  }

  /** The assignment a strategy aims at. */
  ghost function Target(strategy: RebalanceStrategy, hash: string -> nat, nodes: set<NodeId>, cur: Assignment): Assignment
    requires nodes != {}
  {
    match strategy
    case RoundRobin => Turns(cur.Keys, nodes)
    case LeastLoaded => Placement.LeastLoaded(cur.Keys, nodes)
    case ConsistentHash => Hashed(cur.Keys, nodes, HashKey(hash))
    case StickyAssignment => Sticky(cur, nodes)
  }

  lemma TargetKeys(strategy: RebalanceStrategy, hash: string -> nat, nodes: set<NodeId>, cur: Assignment)
    requires nodes != {}
    ensures Target(strategy, hash, nodes, cur).Keys == cur.Keys
    ensures Onto(Target(strategy, hash, nodes, cur), nodes)
  {
    match strategy
    case RoundRobin => LeastLoadedIsRoundRobin(cur.Keys, nodes);
    case LeastLoaded => LeastLoadedIsRoundRobin(cur.Keys, nodes);
    case ConsistentHash =>
      NonEmptyListing(nodes);
      var ns := SortedListing(nodes, StringLe);
      assert forall i :: 0 <= i < |ns| ==> ns[i] in Elements(ns);
    case StickyAssignment => StickyResult(cur, nodes);
  }

  // ---------- plans ----------

  ghost function Misplaced(cur: Assignment, target: Assignment): set<Partition> {
    set p | p in target && !(p in cur && cur[p] == target[p])
  }

  ghost function Destinations(ms: seq<PartitionMovement>): set<Partition> {
    if ms == [] then {} else Destinations(ms[..|ms| - 1]) + {ms[|ms| - 1].partition}
  }

  /** Every movement takes a misplaced partition from where it is to where it should be, and none moves twice. */
  ghost predicate Moves(ms: seq<PartitionMovement>, cur: Assignment, target: Assignment) {
    && (forall i :: 0 <= i < |ms| ==> Move(ms[i], cur, target))
    && (forall i, j :: 0 <= i < j < |ms| ==> ms[i].partition != ms[j].partition)
  }

  ghost predicate Move(m: PartitionMovement, cur: Assignment, target: Assignment) {
    && m.partition in Misplaced(cur, target)
    && m.toNode == target[m.partition]
    && m.fromNode == if m.partition in cur then Some(cur[m.partition]) else None
  }

  /** A plan for reaching the target in steps of at most `k`. */
  ghost predicate IsPlan(plan: RebalancePlan, cur: Assignment, target: Assignment, k: nat) {
    && Moves(plan.movements, cur, target)
    && |plan.movements| == Min(k, |Misplaced(cur, target)|)
    && (plan.wasBalanced <==> Misplaced(cur, target) == {})
    && plan.partitionsUnchanged + |Misplaced(cur, target)| == |target|
    && plan.totalPartitions == |cur|
  }

  ghost function Executed(cur: Assignment, ms: seq<PartitionMovement>): Assignment {
    if ms == [] then cur
    else Executed(cur, ms[..|ms| - 1])[ms[|ms| - 1].partition := ms[|ms| - 1].toNode]
  }

  lemma MovesPrefix(ms: seq<PartitionMovement>, cur: Assignment, target: Assignment, n: nat)
    requires Moves(ms, cur, target) && n <= |ms|
    ensures Moves(ms[..n], cur, target)
  {
  }

  lemma {:induction false} NotDestination(ms: seq<PartitionMovement>, p: Partition)
    requires forall i :: 0 <= i < |ms| ==> ms[i].partition != p
    ensures p !in Destinations(ms)
  {
    if ms != [] {
      NotDestination(ms[..|ms| - 1], p);
    }
  }

  lemma DestinationsStep(ms: seq<PartitionMovement>, cur: Assignment, target: Assignment)
    requires Moves(ms, cur, target) && ms != []
    ensures var k := |ms| - 1;
            Destinations(ms) == Destinations(ms[..k]) + {ms[k].partition} && ms[k].partition !in Destinations(ms[..k])
  {
    NotDestination(ms[..|ms| - 1], ms[|ms| - 1].partition);
  }

  lemma {:induction false} ExecutedAt(cur: Assignment, target: Assignment, ms: seq<PartitionMovement>, p: Partition)
    requires Moves(ms, cur, target) && p in cur && target.Keys == cur.Keys
    ensures p in Executed(cur, ms) && Executed(cur, ms)[p] == if p in Destinations(ms) then target[p] else cur[p]
  {
    if ms == [] {
      assert Destinations(ms) == {};
    } else {
      var k := |ms| - 1;
      MovesPrefix(ms, cur, target, k);
      DestinationsStep(ms, cur, target);
      ExecutedAt(cur, target, ms[..k], p);
      assert Move(ms[k], cur, target);
    }
  }

  lemma {:induction false} ExecutedKeys(cur: Assignment, target: Assignment, ms: seq<PartitionMovement>)
    requires Moves(ms, cur, target) && target.Keys == cur.Keys
    ensures Executed(cur, ms).Keys == cur.Keys
    ensures |Destinations(ms)| == |ms| && Destinations(ms) <= Misplaced(cur, target)
  {
    if ms == [] {
      assert Destinations(ms) == {};
    } else {
      var k := |ms| - 1;
      MovesPrefix(ms, cur, target, k);
      DestinationsStep(ms, cur, target);
      ExecutedKeys(cur, target, ms[..k]);
      assert Move(ms[k], cur, target);
    }
  }

  /** Execution moves the named partitions to their targets and nothing else, losing and inventing none. */
  lemma ExecutedMoves(cur: Assignment, target: Assignment, ms: seq<PartitionMovement>)
    requires Moves(ms, cur, target) && target.Keys == cur.Keys
    ensures Executed(cur, ms).Keys == cur.Keys
    ensures forall p :: p in cur ==> Executed(cur, ms)[p] == if p in Destinations(ms) then target[p] else cur[p]
    ensures |Destinations(ms)| == |ms| && Destinations(ms) <= Misplaced(cur, target)
  {
    ExecutedKeys(cur, target, ms);
    forall p | p in cur ensures Executed(cur, ms)[p] == if p in Destinations(ms) then target[p] else cur[p] {
      ExecutedAt(cur, target, ms, p);
    }
  }

  // ---------- one round ----------

  /** For a target that depends only on the partitions, what was moved is no longer misplaced. */
  lemma FixedTargetRound(cur: Assignment, target: Assignment, ms: seq<PartitionMovement>)
    requires Moves(ms, cur, target) && target.Keys == cur.Keys
    ensures Misplaced(Executed(cur, ms), target) == Misplaced(cur, target) - Destinations(ms)
    ensures |Misplaced(Executed(cur, ms), target)| == |Misplaced(cur, target)| - |ms|
  {
    ExecutedMoves(cur, target, ms);
    var cur' := Executed(cur, ms);
    assert Misplaced(cur', target) == Misplaced(cur, target) - Destinations(ms);
    assert Misplaced(cur, target) == Misplaced(cur', target) + Destinations(ms);
  }

  lemma StickyMisplaced(target: Assignment, cur: Assignment, nodes: set<NodeId>)
    requires StickyTo(target, cur, nodes)
    ensures Misplaced(cur, target) == Orphans(cur, nodes)
  {
  }

  lemma OrphansLeft(target: Assignment, cur: Assignment, nodes: set<NodeId>, ms: seq<PartitionMovement>)
    requires StickyTo(target, cur, nodes) && Moves(ms, cur, target)
    ensures Executed(cur, ms).Keys == cur.Keys
    ensures |Orphans(Executed(cur, ms), nodes)| == |Orphans(cur, nodes)| - |ms|
    ensures KeepsSurvivors(target, Executed(cur, ms), nodes)
    ensures forall p :: p in cur && cur[p] in nodes ==> Executed(cur, ms)[p] == cur[p]
  {
    ExecutedMoves(cur, target, ms);
    StickyMisplaced(target, cur, nodes);
    var cur' := Executed(cur, ms);
    assert Orphans(cur', nodes) == Orphans(cur, nodes) - Destinations(ms);
    assert Orphans(cur, nodes) == Orphans(cur', nodes) + Destinations(ms);
  }

  /** Sticky: what was moved is no longer an orphan, and the best possible maximum load has not changed. */
  lemma StickyRound(cur: Assignment, nodes: set<NodeId>, ms: seq<PartitionMovement>, target: Assignment, target': Assignment)
    requires nodes != {} && Moves(ms, cur, target)
    requires StickyTo(target, cur, nodes) && StickyTo(target', Executed(cur, ms), nodes)
    ensures |Misplaced(Executed(cur, ms), target')| == |Misplaced(cur, target)| - |ms|
    ensures MaxLoad(target', nodes) == MaxLoad(target, nodes)
  {
    OrphansLeft(target, cur, nodes, ms);
    StickyMisplaced(target, cur, nodes);
    StickyMisplaced(target', Executed(cur, ms), nodes);
    StickyToMinimises(target', Executed(cur, ms), nodes, target);
    StickyToMinimises(target, cur, nodes, target');
  }

  /** What a strategy aims at from where things stand. */
  type Goal = Assignment -> Assignment

  ghost function GoalOf(strategy: RebalanceStrategy, hash: string -> nat, nodes: set<NodeId>): Goal
    requires nodes != {}
  {
    (cur: Assignment) => Target(strategy, hash, nodes, cur)
  }

  /** One compute and one execute, with whichever movements the hash map put first. */
  ghost predicate Round(goal: Goal, k: nat, cur: Assignment, cur': Assignment) {
    exists plan :: IsPlan(plan, cur, goal(cur), k) && cur' == Executed(cur, plan.movements)
  }

  ghost function Distance(goal: Goal, cur: Assignment): nat {
    |Misplaced(cur, goal(cur))|
  }

  /** Where a run is heading: the target itself, or, for sticky, its maximum load. */
  datatype Aim = Exactly(target: Assignment) | Heaviest(load: nat)

  ghost function AimOf(goal: Goal, sticky: bool, nodes: set<NodeId>, cur: Assignment): Aim
    requires nodes != {}
  {
    if sticky then Heaviest(MaxLoad(goal(cur), nodes)) else Exactly(goal(cur))
  }

  /** The assignment is there. */
  ghost predicate At(aim: Aim, cur: Assignment, nodes: set<NodeId>)
    requires nodes != {}
  {
    match aim
    case Exactly(target) => cur == target
    case Heaviest(load) => MaxLoad(cur, nodes) == load
  }

  lemma FixedTarget(strategy: RebalanceStrategy, hash: string -> nat, nodes: set<NodeId>, cur: Assignment, cur': Assignment)
    requires nodes != {} && !strategy.StickyAssignment? && cur.Keys == cur'.Keys
    ensures Target(strategy, hash, nodes, cur) == Target(strategy, hash, nodes, cur')
  {
  }

  lemma PlanProgress(strategy: RebalanceStrategy, hash: string -> nat, nodes: set<NodeId>, cur: Assignment, ms: seq<PartitionMovement>,
                     target: Assignment, target': Assignment)
    requires nodes != {} && Moves(ms, cur, target) && target.Keys == cur.Keys
    requires target == Target(strategy, hash, nodes, cur) && target' == Target(strategy, hash, nodes, Executed(cur, ms))
    ensures |Misplaced(Executed(cur, ms), target')| == |Misplaced(cur, target)| - |ms|
    ensures strategy.StickyAssignment? ==> MaxLoad(target', nodes) == MaxLoad(target, nodes)
    ensures !strategy.StickyAssignment? ==> target' == target
  {
    if strategy.StickyAssignment? {
      StickyResult(cur, nodes);
      StickyResult(Executed(cur, ms), nodes);
      StickyRound(cur, nodes, ms, target, target');
    } else {
      ExecutedKeys(cur, target, ms);
      FixedTarget(strategy, hash, nodes, cur, Executed(cur, ms));
      FixedTargetRound(cur, target, ms);
    }
  }

  /** What one round must do: no partition lost or invented, min(k, misplaced) fewer misplaced, and the same aim. */
  ghost predicate Progress(goal: Goal, sticky: bool, nodes: set<NodeId>, k: nat, cur: Assignment, cur': Assignment)
    requires nodes != {}
  {
    && cur'.Keys == cur.Keys
    && Distance(goal, cur') == Distance(goal, cur) - Min(k, Distance(goal, cur))
    && AimOf(goal, sticky, nodes, cur') == AimOf(goal, sticky, nodes, cur)
  }

  /** Every round makes progress, whatever the strategy and the order of the hash map. */
  lemma RoundProgress(strategy: RebalanceStrategy, hash: string -> nat, nodes: set<NodeId>, k: nat, cur: Assignment, cur': Assignment)
    requires nodes != {} && Round(GoalOf(strategy, hash, nodes), k, cur, cur')
    ensures Progress(GoalOf(strategy, hash, nodes), strategy.StickyAssignment?, nodes, k, cur, cur')
  {
    var goal := GoalOf(strategy, hash, nodes);
    var plan :| IsPlan(plan, cur, goal(cur), k) && cur' == Executed(cur, plan.movements);
    PlanMakesProgress(strategy, hash, nodes, k, cur, plan, goal, cur');
  }

  lemma PlanMakesProgress(strategy: RebalanceStrategy, hash: string -> nat, nodes: set<NodeId>, k: nat, cur: Assignment,
                          plan: RebalancePlan, goal: Goal, cur': Assignment)
    requires nodes != {} && goal == GoalOf(strategy, hash, nodes)
    requires IsPlan(plan, cur, goal(cur), k) && cur' == Executed(cur, plan.movements)
    ensures Progress(goal, strategy.StickyAssignment?, nodes, k, cur, cur')
  {
    PlannedRound(strategy, hash, nodes, k, cur, plan, goal(cur), goal(cur'));
    SameAim(goal, strategy.StickyAssignment?, nodes, cur, cur');
  }

  lemma SameAim(goal: Goal, sticky: bool, nodes: set<NodeId>, cur: Assignment, cur': Assignment)
    requires nodes != {}
    requires if sticky then MaxLoad(goal(cur'), nodes) == MaxLoad(goal(cur), nodes) else goal(cur') == goal(cur)
    ensures AimOf(goal, sticky, nodes, cur') == AimOf(goal, sticky, nodes, cur)
  {
  }

  lemma PlannedRound(strategy: RebalanceStrategy, hash: string -> nat, nodes: set<NodeId>, k: nat, cur: Assignment,
                     plan: RebalancePlan, target: Assignment, target': Assignment)
    requires nodes != {} && IsPlan(plan, cur, target, k) && target == Target(strategy, hash, nodes, cur)
    requires target' == Target(strategy, hash, nodes, Executed(cur, plan.movements))
    ensures Executed(cur, plan.movements).Keys == cur.Keys
    ensures |Misplaced(Executed(cur, plan.movements), target')| == |Misplaced(cur, target)| - Min(k, |Misplaced(cur, target)|)
    ensures if strategy.StickyAssignment? then MaxLoad(target', nodes) == MaxLoad(target, nodes) else target' == target
  {
    TargetKeys(strategy, hash, nodes, cur);
    ExecutedKeys(cur, target, plan.movements);
    PlanProgress(strategy, hash, nodes, cur, plan.movements, target, target');
  }

  // ---------- whole runs ----------

  /** A goal that the rounds approach. */
  ghost predicate Approached(goal: Goal, sticky: bool, nodes: set<NodeId>, k: nat)
    requires nodes != {}
  {
    && (forall cur :: goal(cur).Keys == cur.Keys)
    && (forall cur, cur' :: Round(goal, k, cur, cur') ==> Progress(goal, sticky, nodes, k, cur, cur'))
  }

  lemma StrategiesApproach(strategy: RebalanceStrategy, hash: string -> nat, nodes: set<NodeId>, k: nat)
    requires nodes != {}
    ensures Approached(GoalOf(strategy, hash, nodes), strategy.StickyAssignment?, nodes, k)
  {
    var goal := GoalOf(strategy, hash, nodes);
    forall cur ensures goal(cur).Keys == cur.Keys {
      TargetKeys(strategy, hash, nodes, cur);
    }
    forall cur, cur' | Round(goal, k, cur, cur') ensures Progress(goal, strategy.StickyAssignment?, nodes, k, cur, cur') {
      RoundProgress(strategy, hash, nodes, k, cur, cur');
    }
  }

  /** Successive assignments, with the goal and the limit held fixed. */
  ghost predicate Run(run: seq<Assignment>, goal: Goal, k: nat) {
    run != [] && forall i :: 0 <= i < |run| - 1 ==> RoundAt(run, goal, k, i)
  }

  ghost predicate RoundAt(run: seq<Assignment>, goal: Goal, k: nat, i: nat)
    requires i < |run| - 1
  {
    Round(goal, k, run[i], run[i + 1])
  }

  /** What is left of `m` after `i` rounds that each take `k`, or all there is. */
  ghost function Left(m: nat, i: nat, k: nat): nat {
    if i == 0 then m else Left(m, i - 1, k) - Min(k, Left(m, i - 1, k))
  }

  lemma {:induction false} LeftIs(m: nat, i: nat, k: nat)
    ensures Left(m, i, k) == if m <= i * k then 0 else m - i * k
  {
    if 0 < i {
      LeftIs(m, i - 1, k);
      assert i * k == (i - 1) * k + k;
    }
  }

  /** After `i` rounds, for any goal that the rounds approach. */
  lemma {:induction false} RunProgress(run: seq<Assignment>, goal: Goal, sticky: bool, nodes: set<NodeId>, k: nat, i: nat)
    requires nodes != {} && Approached(goal, sticky, nodes, k) && Run(run, goal, k) && i < |run|
    ensures run[i].Keys == run[0].Keys
    ensures Distance(goal, run[i]) == Left(Distance(goal, run[0]), i, k)
    ensures AimOf(goal, sticky, nodes, run[i]) == AimOf(goal, sticky, nodes, run[0])
  {
    if 0 < i {
      RunProgress(run, goal, sticky, nodes, k, i - 1);
      assert RoundAt(run, goal, k, i - 1);
      assert Progress(goal, sticky, nodes, k, run[i - 1], run[i]);
    }
  }

  /**
   Convergence: after `i` rounds exactly m - i*k partitions (or none) are still misplaced, no partition
   has been lost or invented, and what the run is heading for has not drifted.
   */
  lemma Convergence(run: seq<Assignment>, strategy: RebalanceStrategy, hash: string -> nat, nodes: set<NodeId>, k: nat, i: nat)
    requires nodes != {} && Run(run, GoalOf(strategy, hash, nodes), k) && i < |run|
    ensures run[i].Keys == run[0].Keys
    ensures var goal := GoalOf(strategy, hash, nodes);
            var m := Distance(goal, run[0]);
            Distance(goal, run[i]) == if m <= i * k then 0 else m - i * k
    ensures var goal := GoalOf(strategy, hash, nodes);
            AimOf(goal, strategy.StickyAssignment?, nodes, run[i]) == AimOf(goal, strategy.StickyAssignment?, nodes, run[0])
  {
    var goal := GoalOf(strategy, hash, nodes);
    StrategiesApproach(strategy, hash, nodes, k);
    RunProgress(run, goal, strategy.StickyAssignment?, nodes, k, i);
    LeftIs(Distance(goal, run[0]), i, k);
  }

  ghost function CeilDiv(m: nat, k: nat): nat
    requires 0 < k
  {
    (m + k - 1) / k
  }

  lemma CeilDivReached(m: nat, i: nat, k: nat)
    requires 0 < k
    ensures m <= i * k <==> CeilDiv(m, k) <= i
  {
    var c := CeilDiv(m, k);
    assert m + k - 1 == c * k + (m + k - 1) % k;
    if c <= i {
      assert i * k == c * k + (i - c) * k;
      assert 0 <= (i - c) * k;
    } else {
      MultiplesApart(k, i, c);
    }
  }

  lemma NothingLeft(m: nat, i: nat, k: nat)
    requires 0 < k
    ensures Left(m, i, k) == 0 <==> CeilDiv(m, k) <= i
  {
    LeftIs(m, i, k);
    CeilDivReached(m, i, k);
  }

  lemma Balanced(run: seq<Assignment>, goal: Goal, sticky: bool, nodes: set<NodeId>, k: nat, i: nat)
    requires nodes != {} && Approached(goal, sticky, nodes, k) && Run(run, goal, k) && i < |run| && 0 < k
    ensures Distance(goal, run[i]) == 0 <==> CeilDiv(Distance(goal, run[0]), k) <= i
    ensures Distance(goal, run[i]) == 0 ==> At(AimOf(goal, sticky, nodes, run[0]), run[i], nodes)
  {
    RunProgress(run, goal, sticky, nodes, k, i);
    NothingLeft(Distance(goal, run[0]), i, k);
    if Distance(goal, run[i]) == 0 {
      NothingMisplaced(run[i], goal(run[i]));
    }
  }

  /** A run is balanced at round `i` exactly when ceil(m / k) rounds have passed. It then rests where it was heading from the start. */
  lemma BalancedAfter(run: seq<Assignment>, strategy: RebalanceStrategy, hash: string -> nat, nodes: set<NodeId>, k: nat, i: nat)
    requires nodes != {} && Run(run, GoalOf(strategy, hash, nodes), k) && i < |run| && 0 < k
    ensures var goal := GoalOf(strategy, hash, nodes);
            && (Distance(goal, run[i]) == 0 <==> CeilDiv(Distance(goal, run[0]), k) <= i)
            && (Distance(goal, run[i]) == 0 ==> At(AimOf(goal, strategy.StickyAssignment?, nodes, run[0]), run[i], nodes))
  {
    StrategiesApproach(strategy, hash, nodes, k);
    Balanced(run, GoalOf(strategy, hash, nodes), strategy.StickyAssignment?, nodes, k, i);
  }

  lemma NothingMisplaced(cur: Assignment, target: Assignment)
    requires cur.Keys == target.Keys && |Misplaced(cur, target)| == 0
    ensures cur == target
  {
    assert forall p :: p in target && !(p in cur && cur[p] == target[p]) ==> p in Misplaced(cur, target);
  }

  // ---------- the code ----------

  /** The placement loop shared by two strategies: each partition to the least loaded node. */
  method PlaceAll(parts: seq<Partition>, assignment: Assignment, loads: map<NodeId, nat>)
    returns (assignment': Assignment, loads': map<NodeId, nat>)
    requires loads != map[]
    ensures Placed(assignment', loads') == Greedy(parts, Placed(assignment, loads))
  {
    assignment', loads' := assignment, loads;
    for i := 0 to |parts|
      invariant Placed(assignment', loads') == Greedy(parts[..i], Placed(assignment, loads))
    {
      SomeCounter(parts[..i], Placed(assignment, loads));
      GreedyStep(parts, i, Placed(assignment, loads));
      assignment', loads' := PlaceOne(parts[i], assignment', loads');
    }
    assert parts[..|parts|] == parts;
  }

  lemma SomeCounter(parts: seq<Partition>, st: Placed)
    requires st.loads != map[]
    ensures Greedy(parts, st).loads != map[]
  {
    var n :| n in st.loads;
    assert n in Greedy(parts, st).loads;
  }

  /** The body of the loop. */
  method PlaceOne(p: Partition, assignment: Assignment, loads: map<NodeId, nat>)
    returns (assignment': Assignment, loads': map<NodeId, nat>)
    requires loads != map[]
    ensures Placed(assignment', loads') == Place(Placed(assignment, loads), p)
  {
    var n := FindLeast(loads);
    LeastUnique(loads, n, Least(loads));
    assignment', loads' := assignment[p := n], loads[n := loads[n] + 1];
  }

  /** The placements of the listed partitions that stay. */
  ghost function KeptAmong(parts: seq<Partition>, cur: Assignment, nodes: set<NodeId>): Assignment {
    if parts == [] then map[]
    else
      var p := parts[|parts| - 1];
      var init := KeptAmong(parts[..|parts| - 1], cur, nodes);
      if p in cur && cur[p] in nodes then init[p := cur[p]] else init
  }

  lemma {:induction false} KeptAmongIs(parts: seq<Partition>, cur: Assignment, nodes: set<NodeId>)
    ensures KeptAmong(parts, cur, nodes) == map p | p in parts && p in cur && cur[p] in nodes :: cur[p]
  {
    if parts != [] {
      var k := |parts| - 1;
      assert parts == parts[..k] + [parts[k]];
      KeptAmongIs(parts[..k], cur, nodes);
    }
  }

  lemma LoadsInsert(a: Assignment, nodes: set<NodeId>, p: Partition, n: NodeId)
    requires p !in a && n in nodes
    ensures LoadsOf(a[p := n], nodes) == LoadsOf(a, nodes)[n := LoadsOf(a, nodes)[n] + 1]
  {
    forall m | m in nodes ensures LoadsOf(a[p := n], nodes)[m] == LoadsOf(a, nodes)[n := LoadsOf(a, nodes)[n] + 1][m] {
      LoadInsert(a, p, n, m);
    }
  }

  ghost function OrphansAmong(parts: seq<Partition>, cur: Assignment, nodes: set<NodeId>): seq<Partition> {
    if parts == [] then []
    else
      var p := parts[|parts| - 1];
      var init := OrphansAmong(parts[..|parts| - 1], cur, nodes);
      if p in cur && cur[p] in nodes then init else init + [p]
  }

  /** Dropping some elements of a sorted listing leaves a sorted listing. */
  lemma {:induction false} OrphansListed(parts: seq<Partition>, cur: Assignment, nodes: set<NodeId>)
    requires NoRepeats(parts) && Sorted(parts, PartitionLe) && forall p :: p in parts ==> p in cur
    ensures var r := OrphansAmong(parts, cur, nodes);
            && NoRepeats(r) && Sorted(r, PartitionLe)
            && (forall p :: p in r <==> p in parts && cur[p] !in nodes)
  {
    if parts != [] {
      var k := |parts| - 1;
      assert parts == parts[..k] + [parts[k]];
      OrphansListed(parts[..k], cur, nodes);
      var init := OrphansAmong(parts[..k], cur, nodes);
      forall i | 0 <= i < |init| ensures PartitionLe(init[i], parts[k]) && init[i] != parts[k] {
        assert init[i] in parts[..k];
        var j :| 0 <= j < k && parts[j] == init[i];
      }
    }
  }

  /** Phase 1 of assign_sticky: keep what is on a live node, set the rest aside, count as it goes. */
  method KeepExisting(parts: seq<Partition>, cur: Assignment, nodes: set<NodeId>)
    returns (assignment: Assignment, loads: map<NodeId, nat>, unassigned: seq<Partition>)
    requires NoRepeats(parts) && forall p :: p in parts ==> p in cur
    ensures assignment == KeptAmong(parts, cur, nodes)
    ensures loads == LoadsOf(assignment, nodes)
    ensures unassigned == OrphansAmong(parts, cur, nodes)
  {
    assignment, loads, unassigned := map[], map n | n in nodes :: 0, [];
    assert forall n :: n in nodes ==> On(map[], n) == {};
    assert loads == LoadsOf(map[], nodes);
    for i := 0 to |parts|
      invariant assignment == KeptAmong(parts[..i], cur, nodes)
      invariant loads == LoadsOf(assignment, nodes)
      invariant unassigned == OrphansAmong(parts[..i], cur, nodes)
    {
      assert parts[..i + 1][..i] == parts[..i];
      var p := parts[i];
      KeptAmongIs(parts[..i], cur, nodes);
      assert p !in parts[..i];
      if cur[p] in nodes {
        LoadsInsert(assignment, nodes, p, cur[p]);
        assignment := assignment[p := cur[p]];
        loads := loads[cur[p] := loads[cur[p]] + 1];
      } else {
        unassigned := unassigned + [p];
      }
    }
    assert parts[..|parts|] == parts;
  }

  /** The loop of assign_consistent_hash. */
  method HashAll(parts: seq<Partition>, nodes: seq<NodeId>, hash: string -> nat) returns (a: Assignment)
    requires nodes != []
    ensures a == map p | p in parts :: nodes[HashKey(hash)(p) % |nodes|]
  {
    a := map[];
    for i := 0 to |parts|
      invariant a.Keys == Elements(parts[..i])
      invariant forall p :: p in a ==> a[p] == nodes[HashKey(hash)(p) % |nodes|]
    {
      var p := parts[i];
      assert parts[..i + 1] == parts[..i] + [p];
      a := a[p := nodes[hash(p.0 + ":" + Decimal(p.1)) % |nodes|]];
    }
    assert parts[..|parts|] == parts;
  }

  lemma MovesAppend(ms: seq<PartitionMovement>, cur: Assignment, target: Assignment, m: PartitionMovement)
    requires Moves(ms, cur, target) && Move(m, cur, target)
    requires forall i :: 0 <= i < |ms| ==> ms[i].partition != m.partition
    ensures Moves(ms + [m], cur, target)
  {
  }

  lemma OneFewer(misplaced: set<Partition>, rest: set<Partition>, p: Partition)
    requires p in rest
    ensures |rest - {p}| == |rest| - 1 && p !in misplaced - rest
    ensures misplaced - (rest - {p}) == if p in misplaced then misplaced - rest + {p} else misplaced - rest
  {
  }

  /** The loop of assign_round_robin. */
  method DealAll(parts: seq<Partition>, nodes: seq<NodeId>) returns (a: Assignment)
    requires nodes != []
    ensures a == Placement.RoundRobin(parts, nodes)
  {
    a := map[];
    for i := 0 to |parts|
      invariant a == Placement.RoundRobin(parts[..i], nodes)
    {
      assert parts[..i + 1][..i] == parts[..i];
      a := a[parts[i] := nodes[i % |nodes|]];
    }
    assert parts[..|parts|] == parts;
  }

  class PartitionRebalancer {
    const strategy: RebalanceStrategy
    const config: RebalanceConfig
    const hash: string -> nat
    var nodeLoads: map<NodeId, NodeLoad>
    var currentAssignment: Assignment

    constructor (strategy: RebalanceStrategy, config: RebalanceConfig, hash: string -> nat)
      ensures this.strategy == strategy && this.config == config && this.hash == hash
      ensures nodeLoads == map[] && currentAssignment == map[]
    {
      this.strategy, this.config, this.hash := strategy, config, hash;
      nodeLoads, currentAssignment := map[], map[];
    }

    method AddNode(nodeId: NodeId, load: NodeLoad)
      modifies this`nodeLoads
      ensures nodeLoads == old(nodeLoads)[nodeId := load]
    {
      nodeLoads := nodeLoads[nodeId := load];
    }

    method RemoveNode(nodeId: NodeId)
      modifies this`nodeLoads
      ensures nodeLoads == old(nodeLoads) - {nodeId}
    {
      nodeLoads := nodeLoads - {nodeId};
    }

    method SetAssignment(topic: string, partitionId: nat, nodeId: NodeId)
      modifies this`currentAssignment
      ensures currentAssignment == old(currentAssignment)[(topic, partitionId) := nodeId]
    {
      currentAssignment := currentAssignment[(topic, partitionId) := nodeId];
    }

    /** The sorted nodes and the sorted partitions with which every strategy starts. */
    method Listings() returns (nodes: seq<NodeId>, parts: seq<Partition>)
      requires nodeLoads != map[]
      ensures TotalOrder(StringLe) && TotalOrder(PartitionLe)
      ensures nodeLoads.Keys != {} && nodes != [] && nodes == SortedListing(nodeLoads.Keys, StringLe)
      ensures parts == SortedListing(currentAssignment.Keys, PartitionLe)
    {
      StringOrder();
      PartitionOrder();
      assert nodeLoads.Keys != {} by { var n :| n in nodeLoads; }
      nodes := SortedKeys(nodeLoads.Keys, StringLe);
      parts := SortedKeys(currentAssignment.Keys, PartitionLe);
      ListsUnique(nodes, SortedListing(nodeLoads.Keys, StringLe), nodeLoads.Keys, StringLe);
      ListsUnique(parts, SortedListing(currentAssignment.Keys, PartitionLe), currentAssignment.Keys, PartitionLe);
      NonEmptyListing(nodeLoads.Keys);
    }

    method AssignRoundRobin() returns (a: Assignment)
      requires nodeLoads != map[]
      ensures nodeLoads.Keys != {} && a == Turns(currentAssignment.Keys, nodeLoads.Keys)
    {
      var nodes, parts := Listings();
      a := DealAll(parts, nodes);
    }

    method AssignLeastLoaded() returns (a: Assignment)
      requires nodeLoads != map[]
      ensures nodeLoads.Keys != {} && a == Placement.LeastLoaded(currentAssignment.Keys, nodeLoads.Keys)
    {
      var nodes, parts := Listings();
      var loads: map<NodeId, nat> := map n | n in nodeLoads.Keys :: 0;
      assert loads == ZeroLoads(nodeLoads.Keys);
      assert loads != map[] by { var n :| n in nodeLoads; assert n in loads; }
      var placed, _ := PlaceAll(parts, map[], loads);
      a := placed;
    }

    method AssignConsistentHash() returns (a: Assignment)
      requires nodeLoads != map[]
      ensures nodeLoads.Keys != {} && a == Hashed(currentAssignment.Keys, nodeLoads.Keys, HashKey(hash))
      ensures TotalOrder(StringLe) && SortedListing(nodeLoads.Keys, StringLe) != [] && a.Keys == currentAssignment.Keys
      ensures var ns := SortedListing(nodeLoads.Keys, StringLe);
              forall p :: p in a ==> a[p] == ns[hash(p.0 + ":" + Decimal(p.1)) % |ns|]
    {
      var nodes, parts := Listings();
      a := HashAll(parts, nodes, hash);
      assert forall p :: p in parts <==> p in Elements(parts);
    }

    method AssignSticky() returns (a: Assignment)
      requires nodeLoads != map[]
      ensures nodeLoads.Keys != {} && a == Sticky(currentAssignment, nodeLoads.Keys)
    {
      var nodes, parts := Listings();
      assert forall p :: p in parts <==> p in Elements(parts);
      var kept, loads, unassigned := KeepExisting(parts, currentAssignment, nodeLoads.Keys);
      KeptAmongIs(parts, currentAssignment, nodeLoads.Keys);
      assert kept == Kept(currentAssignment, nodeLoads.Keys);
      NonEmptyLoads(kept, nodeLoads.Keys);
      OrphansListed(parts, currentAssignment, nodeLoads.Keys);
      var orphans := Orphans(currentAssignment, nodeLoads.Keys);
      assert Elements(unassigned) == orphans;
      ListsUnique(unassigned, SortedListing(orphans, PartitionLe), orphans, PartitionLe);
      var placed, _ := PlaceAll(unassigned, kept, loads);
      a := placed;
    }

    method Assign() returns (a: Assignment)
      requires nodeLoads != map[]
      ensures nodeLoads.Keys != {} && a == Target(strategy, hash, nodeLoads.Keys, currentAssignment)
    {
      match strategy {
        case RoundRobin => a := AssignRoundRobin();
        case LeastLoaded => a := AssignLeastLoaded();
        case ConsistentHash => a := AssignConsistentHash();
        case StickyAssignment => a := AssignSticky();
      }
    }

    /** compute_rebalance. */
    method ComputeRebalance() returns (plan: RebalancePlan)
      ensures plan.strategy == strategy
      ensures nodeLoads == map[] ==>
                plan == RebalancePlan([], strategy, true, |currentAssignment|, |currentAssignment|)
      ensures nodeLoads != map[] ==>
                && nodeLoads.Keys != {}
                && IsPlan(plan, currentAssignment, Target(strategy, hash, nodeLoads.Keys, currentAssignment), config.maxConcurrentMovements)
    {
      if nodeLoads == map[] {
        return RebalancePlan([], strategy, true, |currentAssignment|, |currentAssignment|);
      }
      var target := Assign();
      var movements, stayed := Difference(currentAssignment, target);
      var wasBalanced := movements == [];
      var n := Min(config.maxConcurrentMovements, |movements|);
      MovesPrefix(movements, currentAssignment, target, n);
      plan := RebalancePlan(movements[..n], strategy, wasBalanced, stayed, |currentAssignment|);
    }

    /** The diff loop, over the new assignment in any order. */
    static method Difference(cur: Assignment, target: Assignment) returns (movements: seq<PartitionMovement>, stayed: nat)
      ensures Moves(movements, cur, target) && |movements| == |Misplaced(cur, target)|
      ensures stayed + |movements| == |target|
    {
      movements, stayed := [], 0;
      var rest := target.Keys;
      ghost var moved: set<Partition> := {};
      while rest != {}
        invariant rest <= target.Keys && moved == Misplaced(cur, target) - rest
        invariant Moves(movements, cur, target) && |movements| == |moved|
        invariant forall i :: 0 <= i < |movements| ==> movements[i].partition !in rest
        invariant stayed + |movements| + |rest| == |target.Keys|
        decreases rest
      {
        var p :| p in rest;
        OneFewer(Misplaced(cur, target), rest, p);
        if p in cur && cur[p] == target[p] {
          stayed := stayed + 1;
        } else {
          var movement := PartitionMovement(p, if p in cur then Some(cur[p]) else None, target[p]);
          MovesAppend(movements, cur, target, movement);
          movements := movements + [movement];
          moved := moved + {p};
        }
        rest := rest - {p};
      }
    }

    /** execute_plan. */
    method ExecutePlan(plan: RebalancePlan)
      modifies this`currentAssignment
      ensures currentAssignment == Executed(old(currentAssignment), plan.movements)
    {
      for i := 0 to |plan.movements|
        invariant currentAssignment == Executed(old(currentAssignment), plan.movements[..i])
      {
        assert plan.movements[..i + 1][..i] == plan.movements[..i];
        currentAssignment := currentAssignment[plan.movements[i].partition := plan.movements[i].toNode];
      }
      assert plan.movements[..|plan.movements|] == plan.movements;
    }
  }

  // ---------- running it ----------

  /** The state of the loop: the assignments so far, the last one current, no earlier one balanced, and the next plan. */
  ghost predicate Underway(run: seq<Assignment>, goal: Goal, k: nat, cur: Assignment, plan: RebalancePlan) {
    && Run(run, goal, k) && run[|run| - 1] == cur
    && (1 < |run| ==> Distance(goal, run[|run| - 2]) != 0)
    && IsPlan(plan, cur, goal(cur), k)
  }

  lemma RunExtended(run: seq<Assignment>, goal: Goal, k: nat, next: Assignment)
    requires Run(run, goal, k) && Round(goal, k, run[|run| - 1], next)
    ensures Run(run + [next], goal, k)
  {
    var run' := run + [next];
    forall i | 0 <= i < |run'| - 1 ensures RoundAt(run', goal, k, i) {
      if i < |run| - 1 { assert RoundAt(run, goal, k, i); }
    }
  }

  /** Executing a plan when something is misplaced. */
  lemma UnderwayStep(run: seq<Assignment>, goal: Goal, sticky: bool, nodes: set<NodeId>, k: nat, cur: Assignment,
                     plan: RebalancePlan, cur': Assignment, next: RebalancePlan)
    requires nodes != {} && Approached(goal, sticky, nodes, k) && 0 < k
    requires Underway(run, goal, k, cur, plan) && !plan.wasBalanced
    requires cur' == Executed(cur, plan.movements) && IsPlan(next, cur', goal(cur'), k)
    ensures Underway(run + [cur'], goal, k, cur', next) && Distance(goal, cur') < Distance(goal, cur)
  {
    assert Round(goal, k, cur, cur');
    assert Progress(goal, sticky, nodes, k, cur, cur');
    RunExtended(run, goal, k, cur');
  }

  lemma RestsBalanced(run: seq<Assignment>, goal: Goal, sticky: bool, nodes: set<NodeId>, k: nat, cur: Assignment, plan: RebalancePlan)
    requires nodes != {} && Approached(goal, sticky, nodes, k) && 0 < k
    requires Underway(run, goal, k, cur, plan) && plan.wasBalanced
    ensures |run| - 1 == CeilDiv(Distance(goal, run[0]), k) && cur.Keys == run[0].Keys
    ensures Distance(goal, cur) == 0 && At(AimOf(goal, sticky, nodes, run[0]), cur, nodes)
  {
    var n := |run| - 1;
    RunProgress(run, goal, sticky, nodes, k, n);
    Balanced(run, goal, sticky, nodes, k, n);
    if 0 < n { Balanced(run, goal, sticky, nodes, k, n - 1); }
  }

  /** Carries out one plan and computes the next. */
  method NextRound(r: PartitionRebalancer, plan: RebalancePlan, ghost goal: Goal) returns (next: RebalancePlan)
    requires r.nodeLoads.Keys != {} && goal == GoalOf(r.strategy, r.hash, r.nodeLoads.Keys)
    modifies r`currentAssignment
    ensures r.currentAssignment == Executed(old(r.currentAssignment), plan.movements)
    ensures IsPlan(next, r.currentAssignment, goal(r.currentAssignment), r.config.maxConcurrentMovements)
  {
    assert r.nodeLoads != map[];
    r.ExecutePlan(plan);
    next := r.ComputeRebalance();
  }

  /**
   Computing and executing plans until one reports that nothing was misplaced: this takes exactly ceil(m / k)
   executions, loses and invents no partition, and ends where the strategy aimed at the start.
   */
  method RebalanceUntilBalanced(r: PartitionRebalancer) returns (rounds: nat)
    requires r.nodeLoads.Keys != {} && 0 < r.config.maxConcurrentMovements
    modifies r`currentAssignment
    ensures r.currentAssignment.Keys == old(r.currentAssignment).Keys
    ensures var goal := GoalOf(r.strategy, r.hash, r.nodeLoads.Keys);
            && rounds == CeilDiv(Distance(goal, old(r.currentAssignment)), r.config.maxConcurrentMovements)
            && Distance(goal, r.currentAssignment) == 0
            && At(AimOf(goal, r.strategy.StickyAssignment?, r.nodeLoads.Keys, old(r.currentAssignment)), r.currentAssignment, r.nodeLoads.Keys)
  {
    StrategiesApproach(r.strategy, r.hash, r.nodeLoads.Keys, r.config.maxConcurrentMovements);
    rounds := RepeatRounds(r, GoalOf(r.strategy, r.hash, r.nodeLoads.Keys));
  }

  /** The loop, for a goal that the rounds approach. */
  method RepeatRounds(r: PartitionRebalancer, ghost goal: Goal) returns (rounds: nat)
    requires r.nodeLoads.Keys != {} && 0 < r.config.maxConcurrentMovements
    requires goal == GoalOf(r.strategy, r.hash, r.nodeLoads.Keys)
    requires Approached(goal, r.strategy.StickyAssignment?, r.nodeLoads.Keys, r.config.maxConcurrentMovements)
    modifies r`currentAssignment
    ensures r.currentAssignment.Keys == old(r.currentAssignment).Keys
    ensures rounds == CeilDiv(Distance(goal, old(r.currentAssignment)), r.config.maxConcurrentMovements)
    ensures Distance(goal, r.currentAssignment) == 0
    ensures At(AimOf(goal, r.strategy.StickyAssignment?, r.nodeLoads.Keys, old(r.currentAssignment)), r.currentAssignment, r.nodeLoads.Keys)
  {
    ghost var sticky, nodes, k, run := r.strategy.StickyAssignment?, r.nodeLoads.Keys, r.config.maxConcurrentMovements, [r.currentAssignment];
    rounds := 0;
    var plan := FirstPlan(r, goal);
    while !plan.wasBalanced
      invariant rounds == |run| - 1 && run[0] == old(r.currentAssignment)
      invariant Underway(run, goal, k, r.currentAssignment, plan)
      decreases Distance(goal, r.currentAssignment)
    {
      ghost var cur := r.currentAssignment;
      var next := NextRound(r, plan, goal);
      UnderwayStep(run, goal, sticky, nodes, k, cur, plan, r.currentAssignment, next);
      run, rounds, plan := run + [r.currentAssignment], rounds + 1, next;
    }
    RestsBalanced(run, goal, sticky, nodes, k, r.currentAssignment, plan);
  }

  method FirstPlan(r: PartitionRebalancer, ghost goal: Goal) returns (plan: RebalancePlan)
    requires r.nodeLoads.Keys != {} && goal == GoalOf(r.strategy, r.hash, r.nodeLoads.Keys)
    ensures IsPlan(plan, r.currentAssignment, goal(r.currentAssignment), r.config.maxConcurrentMovements)
  {
    assert r.nodeLoads != map[];
    plan := r.ComputeRebalance();
  }
}
