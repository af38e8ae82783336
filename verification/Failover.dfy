/**
 Node health in the failover manager (crates/streamhouse-api/src/failover.rs): counters and flags updated one
 check at a time, shown to be a function of the history of checks.
 */
module Failover {
  import opened Ordering

  datatype HealthStatus = Healthy | Degraded | Unhealthy | Unknown {
    predicate IsHealthy() { Healthy? || Degraded? }
  }

  datatype NodeInfo = NodeInfo(health: HealthStatus, lastCheck: Option<int>, lastHealthy: Option<int>, failedChecks: nat)

  datatype Event = HealthChanged(nodeId: string, from: HealthStatus, to: HealthStatus) | NodeUp(nodeId: string) | NodeDown(nodeId: string)

  datatype Check = Check(status: HealthStatus, time: int)

  /** NodeInfo::new. */
  const REGISTERED := NodeInfo(Unknown, None, None, 0)

  datatype Updated = Updated(node: NodeInfo, events: seq<Event>)

  /** update_node_health for a node that is registered. */
  function UpdateNode(id: string, n: NodeInfo, c: Check, threshold: nat): Updated {
    var old' := n.health;
    if c.status.IsHealthy() then
      Updated(NodeInfo(Healthy, Some(c.time), Some(c.time), 0),
              if !old'.IsHealthy() && !old'.Unknown? then [HealthChanged(id, old', Healthy), NodeUp(id)] else [])
    else
      var failed := n.failedChecks + 1;
      if failed >= threshold && old'.IsHealthy() then
        Updated(NodeInfo(Unhealthy, Some(c.time), n.lastHealthy, failed), [HealthChanged(id, old', Unhealthy), NodeDown(id)])
      else
        Updated(n.(lastCheck := Some(c.time), failedChecks := failed), [])
  }

  // ---------- history ----------

  function NodeAfter(id: string, history: seq<Check>, threshold: nat): NodeInfo {
    if history == [] then REGISTERED
    else UpdateNode(id, NodeAfter(id, history[..|history| - 1], threshold), history[|history| - 1], threshold).node
  }

  function EventsAfter(id: string, history: seq<Check>, threshold: nat): seq<Event> {
    if history == [] then []
    else
      var init := history[..|history| - 1];
      EventsAfter(id, init, threshold) + UpdateNode(id, NodeAfter(id, init, threshold), history[|history| - 1], threshold).events
  }

  /** A check passes when it finds the node healthy or degraded. */
  predicate Passed(c: Check) { c.status == Healthy || c.status == Degraded }

  /** The last `k` checks all failed. */
  ghost predicate FailedLast(history: seq<Check>, k: nat) {
    k <= |history| && forall i :: |history| - k <= i < |history| ==> !Passed(history[i])
  }

  /** Exactly the last `k` checks failed: before them came a healthy one, or nothing. */
  ghost predicate FailureRun(history: seq<Check>, k: nat) {
    FailedLast(history, k) && (k < |history| ==> Passed(history[|history| - k - 1]))
  }

  ghost predicate EverHealthy(history: seq<Check>) {
    exists i :: 0 <= i < |history| && Passed(history[i])
  }

  /** A threshold of zero acts as one: the first failure already counts. */
  function Limit(threshold: nat): nat { if threshold == 0 then 1 else threshold }

  /**
   Health is a function of history: Unknown until the first healthy check, then Healthy while fewer than the
   threshold of failures have followed the last healthy one, and Unhealthy from there on.
   */
  lemma {:induction false} HealthOfHistory(id: string, history: seq<Check>, threshold: nat)
    ensures var n := NodeAfter(id, history, threshold);
            && FailureRun(history, n.failedChecks)
            && (EverHealthy(history) <==> n.failedChecks < |history|)
            && n.health == (if !EverHealthy(history) then Unknown else if n.failedChecks < Limit(threshold) then Healthy else Unhealthy)
            && n.lastCheck == (if history == [] then None else Some(history[|history| - 1].time))
            && n.lastHealthy == (if EverHealthy(history) then Some(history[|history| - n.failedChecks - 1].time) else None)
  {
    if history != [] {
      var k := |history| - 1;
      var init := history[..k];
      HealthOfHistory(id, init, threshold);
      var before := NodeAfter(id, init, threshold);
      assert forall i :: 0 <= i < k ==> init[i] == history[i];
      if Passed(history[k]) {
        assert EverHealthy(history);
      } else if i :| 0 <= i < k && Passed(init[i]) {
        assert Passed(history[i]);
        assert EverHealthy(history);
      }
    }
  }

  // ---------- events ----------

  predicate IsUpOrDown(e: Event) { e.NodeUp? || e.NodeDown? }

  function UpsAndDowns(events: seq<Event>): seq<Event> {
    if events == [] then []
    else
      var init := UpsAndDowns(events[..|events| - 1]);
      if IsUpOrDown(events[|events| - 1]) then init + [events[|events| - 1]] else init
  }

  ghost predicate Alternates(s: seq<Event>, id: string) {
    forall i :: 0 <= i < |s| ==> s[i] == if i % 2 == 0 then NodeDown(id) else NodeUp(id)
  }

  lemma UpsAndDownsStep(events: seq<Event>, id: string, from: HealthStatus, to: HealthStatus, e: Event)
    requires IsUpOrDown(e)
    ensures UpsAndDowns(events + [HealthChanged(id, from, to), e]) == UpsAndDowns(events) + [e]
  {
    var s := events + [HealthChanged(id, from, to), e];
    assert s[..|s| - 1] == events + [HealthChanged(id, from, to)];
    assert s[..|s| - 1][..|events|] == events;
  }

  lemma AlternatesStep(s: seq<Event>, id: string, e: Event)
    requires Alternates(s, id) && e == if |s| % 2 == 0 then NodeDown(id) else NodeUp(id)
    ensures Alternates(s + [e], id)
  {
  }

  /** NodeDown and NodeUp strictly alternate, beginning with NodeDown; the last one was NodeDown exactly when the node is Unhealthy. */
  lemma {:induction false} EventsAlternate(id: string, history: seq<Check>, threshold: nat)
    ensures var s := UpsAndDowns(EventsAfter(id, history, threshold));
            Alternates(s, id) && (|s| % 2 == 1 <==> NodeAfter(id, history, threshold).health.Unhealthy?)
  {
    if history != [] {
      var k := |history| - 1;
      var init := history[..k];
      EventsAlternate(id, init, threshold);
      HealthOfHistory(id, init, threshold);
      var before, events := NodeAfter(id, init, threshold), EventsAfter(id, init, threshold);
      AlternatesAfter(id, before, history[k], threshold, events);
    }
  }

  /** One check keeps the alternation, when the last event is in step with the node's status. */
  lemma AlternatesAfter(id: string, before: NodeInfo, c: Check, threshold: nat, events: seq<Event>)
    requires Alternates(UpsAndDowns(events), id) && (|UpsAndDowns(events)| % 2 == 1 <==> before.health.Unhealthy?)
    requires !before.health.Degraded?
    ensures var u := UpdateNode(id, before, c, threshold);
            var s := UpsAndDowns(events + u.events);
            Alternates(s, id) && (|s| % 2 == 1 <==> u.node.health.Unhealthy?)
  {
    var u := UpdateNode(id, before, c, threshold);
    if u.events == [] {
      assert events + [] == events;
    } else {
      UpsAndDownsStep(events, id, before.health, u.node.health, u.events[1]);
      AlternatesStep(UpsAndDowns(events), id, u.events[1]);
    }
  }

  /** A change of status is reported by the check that made it, with the status before and after, unless the node was unknown. */
  lemma ChangesReported(id: string, history: seq<Check>, threshold: nat)
    requires history != []
    ensures var init := history[..|history| - 1];
            var before, after := NodeAfter(id, init, threshold).health, NodeAfter(id, history, threshold).health;
            UpdateNode(id, NodeAfter(id, init, threshold), history[|history| - 1], threshold).events ==
            if before == after || before.Unknown? then []
            else [HealthChanged(id, before, after), if after.Healthy? then NodeUp(id) else NodeDown(id)]
  {
    HealthOfHistory(id, history[..|history| - 1], threshold);
    HealthOfHistory(id, history, threshold);
  }

  /** A NodeDown is sent at exactly the check with which the run of failures after a healthy check reaches the threshold. */
  lemma DownExactlyAtThreshold(id: string, history: seq<Check>, threshold: nat)
    requires history != []
    ensures var init := history[..|history| - 1];
            NodeDown(id) in UpdateNode(id, NodeAfter(id, init, threshold), history[|history| - 1], threshold).events <==>
            EverHealthy(history) && FailureRun(history, Limit(threshold))
  {
    var k := |history| - 1;
    var init := history[..k];
    HealthOfHistory(id, init, threshold);
    HealthOfHistory(id, history, threshold);
    var n := NodeAfter(id, history, threshold);
    if FailureRun(history, Limit(threshold)) && EverHealthy(history) {
      RunUnique(history, n.failedChecks, Limit(threshold));
      assert Passed(init[k - Limit(threshold)]);
    }
    if i :| 0 <= i < k && Passed(init[i]) {
      assert Passed(history[i]);
    }
  }

  lemma RunUnique(history: seq<Check>, a: nat, b: nat)
    requires FailureRun(history, a) && FailureRun(history, b)
    ensures a == b
  {
  }

  /** The events about one node. */
  function About(events: seq<Event>, id: string): seq<Event> {
    if events == [] then []
    else
      var init := About(events[..|events| - 1], id);
      if events[|events| - 1].nodeId == id then init + [events[|events| - 1]] else init
  }

  lemma {:induction false} AboutConcat(a: seq<Event>, b: seq<Event>, id: string)
    ensures About(a + b, id) == About(a, id) + About(b, id)
  {
    if b == [] {
      assert a + b == a;
    } else {
      AboutConcat(a, b[..|b| - 1], id);
      assert (a + b)[..|a + b| - 1] == a + b[..|b| - 1];
    }
  }

  lemma {:induction false} AboutOne(events: seq<Event>, id: string, other: string)
    requires forall i :: 0 <= i < |events| ==> events[i].nodeId == id
    ensures About(events, other) == if other == id then events else []
  {
    if events != [] {
      AboutOne(events[..|events| - 1], id, other);
      assert events == events[..|events| - 1] + [events[|events| - 1]];
    }
  }

  /** One check adds its events to what was sent about its node, and nothing to what was sent about another. */
  lemma UpdateAbout(id: string, n: NodeInfo, c: Check, threshold: nat, events: seq<Event>, other: string)
    ensures var sent := UpdateNode(id, n, c, threshold).events;
            About(events + sent, other) == if other == id then About(events, id) + sent else About(events, other)
  {
    var sent := UpdateNode(id, n, c, threshold).events;
    AboutConcat(events, sent, other);
    AboutOne(sent, id, other);
  }

  // ---------- the code ----------

  class FailoverManager {
    const threshold: nat
    var nodes: map<string, NodeInfo>
    var events: seq<Event>

    constructor (threshold: nat)
      ensures this.threshold == threshold && nodes == map[] && events == []
    {
      this.threshold, nodes, events := threshold, map[], [];
    }

    /** update_node_health; a node that is not registered is ignored. */
    method UpdateNodeHealth(id: string, c: Check)
      modifies this`nodes, this`events
      ensures id !in old(nodes) ==> nodes == old(nodes) && events == old(events)
      ensures id in old(nodes) ==>
                var u := UpdateNode(id, old(nodes)[id], c, threshold);
                nodes == old(nodes)[id := u.node] && events == old(events) + u.events
    {
      if id in nodes {
        var node := nodes[id];
        var oldStatus := node.health;
        node := node.(lastCheck := Some(c.time));
        if c.status.IsHealthy() {
          node := node.(failedChecks := 0, lastHealthy := Some(c.time));
          if !oldStatus.IsHealthy() && !node.health.Unknown? {
            node := node.(health := Healthy);
            events := events + [HealthChanged(id, oldStatus, Healthy), NodeUp(id)];
          }
          node := node.(health := Healthy);
        } else {
          node := node.(failedChecks := node.failedChecks + 1);
          if node.failedChecks >= threshold && oldStatus.IsHealthy() {
            node := node.(health := Unhealthy);
            events := events + [HealthChanged(id, oldStatus, Unhealthy), NodeDown(id)];
          }
        }
        nodes := nodes[id := node];
      }
    }

    /** run_health_checks: every node registered at the start is checked once, in whatever order the map gives them. */
    method RunHealthChecks(check: string -> Check)
      modifies this`nodes, this`events
      ensures nodes.Keys == old(nodes).Keys
      ensures forall id :: id in nodes ==> CheckedOnce(id, old(nodes)[id], old(events), check(id), threshold, nodes[id], events)
    {
      var rest := nodes.Keys;
      while rest != {}
        invariant rest <= nodes.Keys == old(nodes).Keys
        invariant forall id :: id in rest ==> NotYet(id, old(nodes)[id], old(events), nodes[id], events)
        invariant forall id :: id in nodes && id !in rest ==>
                    CheckedOnce(id, old(nodes)[id], old(events), check(id), threshold, nodes[id], events)
        decreases rest
      {
        var id :| id in rest;
        assert NotYet(id, old(nodes)[id], old(events), nodes[id], events);
        ghost var nodes0, events0 := nodes, events;
        UpdateNodeHealth(id, check(id));
        forall other | other in nodes
          ensures other != id ==> nodes[other] == nodes0[other] && About(events, other) == About(events0, other)
          ensures other == id ==> CheckedOnce(id, nodes0[id], events0, check(id), threshold, nodes[id], events)
        {
          UpdateAbout(id, nodes0[id], check(id), threshold, events0, other);
        }
        rest := rest - {id};
      }
    }
  }

  /** The node is as it was, and nothing has been sent about it. */
  ghost predicate NotYet(id: string, n0: NodeInfo, events0: seq<Event>, n: NodeInfo, events: seq<Event>) {
    n == n0 && About(events, id) == About(events0, id)
  }

  /** One check has been applied to the node, and its events are the ones sent about it. */
  ghost predicate CheckedOnce(id: string, n0: NodeInfo, events0: seq<Event>, c: Check, threshold: nat, n: NodeInfo, events: seq<Event>) {
    var u := UpdateNode(id, n0, c, threshold);
    n == u.node && About(events, id) == About(events0, id) + u.events
  }

  // ---------- whole runs ----------

  /** The checks that a node has had. */
  ghost function ChecksOf(rounds: seq<string -> Check>, id: string): seq<Check> {
    if rounds == [] then [] else ChecksOf(rounds[..|rounds| - 1], id) + [rounds[|rounds| - 1](id)]
  }

  /** The node, and what was sent about it, are those of its history. */
  ghost predicate Reflects(id: string, n: NodeInfo, events: seq<Event>, history: seq<Check>, threshold: nat) {
    n == NodeAfter(id, history, threshold) && About(events, id) == EventsAfter(id, history, threshold)
  }

  lemma ReflectsStep(id: string, n0: NodeInfo, events0: seq<Event>, n: NodeInfo, events: seq<Event>,
                     rounds: seq<string -> Check>, check: string -> Check, threshold: nat)
    requires Reflects(id, n0, events0, ChecksOf(rounds, id), threshold)
    requires CheckedOnce(id, n0, events0, check(id), threshold, n, events)
    ensures Reflects(id, n, events, ChecksOf(rounds + [check], id), threshold)
  {
    assert (rounds + [check])[..|rounds|] == rounds;
    var history := ChecksOf(rounds, id);
    assert (history + [check(id)])[..|history|] == history;
  }

  /** Any number of rounds of checks from registration on: the manager is a function of what the checks returned. */
  method RunRounds(m: FailoverManager, rounds: seq<string -> Check>)
    requires m.events == [] && forall id :: id in m.nodes ==> m.nodes[id] == REGISTERED
    modifies m
    ensures m.nodes.Keys == old(m.nodes.Keys)
    ensures forall id :: id in m.nodes ==> Reflects(id, m.nodes[id], m.events, ChecksOf(rounds, id), m.threshold)
  {
    for i := 0 to |rounds|
      invariant m.nodes.Keys == old(m.nodes.Keys)
      invariant forall id :: id in m.nodes ==> Reflects(id, m.nodes[id], m.events, ChecksOf(rounds[..i], id), m.threshold)
    {
      ghost var nodes0, events0 := m.nodes, m.events;
      m.RunHealthChecks(rounds[i]);
      assert rounds[..i + 1] == rounds[..i] + [rounds[i]];
      forall id | id in m.nodes ensures Reflects(id, m.nodes[id], m.events, ChecksOf(rounds[..i + 1], id), m.threshold) {
        ReflectsStep(id, nodes0[id], events0, m.nodes[id], m.events, rounds[..i], rounds[i], m.threshold);
      }
    }
    assert rounds[..|rounds|] == rounds;
  }
}
