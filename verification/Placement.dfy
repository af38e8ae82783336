/**
 The allocation algorithms of crates/streamhouse-agent/src/rebalancer.rs as functions, and what they
 achieve: how many partitions each node ends with, and why no other allocation does better.
 */
module Placement {
  import opened Ordering

  type NodeId = string
  type Assignment = map<Partition, NodeId>

  // ---------- load ----------

  ghost function On(a: Assignment, n: NodeId): set<Partition> {
    set p | p in a && a[p] == n
  }

  ghost function Load(a: Assignment, n: NodeId): nat {
    |On(a, n)|
  }

  ghost predicate Onto(a: Assignment, nodes: set<NodeId>) {
    forall p :: p in a ==> a[p] in nodes
  }

  lemma LoadInsert(a: Assignment, p: Partition, n: NodeId, m: NodeId)
    requires p !in a
    ensures Load(a[p := n], m) == Load(a, m) + if m == n then 1 else 0
  {
    assert On(a[p := n], m) == if m == n then On(a, m) + {p} else On(a, m);
  }

  /** The partitions held by some of the nodes. */
  ghost function Held(a: Assignment, nodes: set<NodeId>): set<Partition> {
    set p | p in a && a[p] in nodes
  }

  lemma HeldSplit(a: Assignment, nodes: set<NodeId>, n: NodeId)
    requires n in nodes
    ensures |Held(a, nodes)| == |Held(a, nodes - {n})| + Load(a, n)
  {
    assert Held(a, nodes) == Held(a, nodes - {n}) + On(a, n);
    assert Held(a, nodes - {n}) !! On(a, n);
  }

  /** Pigeonhole: `k` on every node at most means at most `k` times the nodes in all. */
  lemma {:induction false} AtMost(a: Assignment, nodes: set<NodeId>, k: nat)
    requires forall n :: n in nodes ==> Load(a, n) <= k
    ensures |Held(a, nodes)| <= |nodes| * k
  {
    if nodes == {} {
      assert Held(a, nodes) == {};
    } else {
      var n :| n in nodes;
      AtMost(a, nodes - {n}, k);
      HeldSplit(a, nodes, n);
      assert |nodes| * k == (|nodes - {n}|) * k + k by { assert |nodes| == |nodes - {n}| + 1; }
    }
  }

  lemma {:induction false} AtLeast(a: Assignment, nodes: set<NodeId>, k: nat)
    requires forall n :: n in nodes ==> k <= Load(a, n)
    ensures |nodes| * k <= |Held(a, nodes)|
  {
    if nodes == {} {
    } else {
      var n :| n in nodes;
      AtLeast(a, nodes - {n}, k);
      HeldSplit(a, nodes, n);
      assert |nodes| * k == (|nodes - {n}|) * k + k by { assert |nodes| == |nodes - {n}| + 1; }
    }
  }

  ghost predicate IsHeaviest(a: Assignment, nodes: set<NodeId>, n: NodeId) {
    n in nodes && forall m :: m in nodes ==> Load(a, m) <= Load(a, n)
  }

  lemma {:induction false} HeaviestExists(a: Assignment, nodes: set<NodeId>)
    requires nodes != {}
    ensures exists n :: IsHeaviest(a, nodes, n)
  {
    var n :| n in nodes;
    if nodes == {n} {
      assert IsHeaviest(a, nodes, n);
    } else {
      HeaviestExists(a, nodes - {n});
      var m :| IsHeaviest(a, nodes - {n}, m);
      assert IsHeaviest(a, nodes, if Load(a, m) <= Load(a, n) then n else m);
    }
  }

  /** The heaviest load. */
  ghost function MaxLoad(a: Assignment, nodes: set<NodeId>): (k: nat)
    requires nodes != {}
    ensures forall n :: n in nodes ==> Load(a, n) <= k
    ensures exists n :: n in nodes && Load(a, n) == k
  {
    HeaviestExists(a, nodes);
    var n :| IsHeaviest(a, nodes, n);
    Load(a, n)
  }

  // ---------- the least loaded node ----------

  /** `a` is preferred to `b`: fewer partitions, ties by name. */
  predicate Preferred(loads: map<NodeId, nat>, a: NodeId, b: NodeId)
    requires a in loads && b in loads
  {
    loads[a] < loads[b] || (loads[a] == loads[b] && StringLe(a, b))
  }

  ghost predicate IsLeast(loads: map<NodeId, nat>, n: NodeId) {
    n in loads && forall m :: m in loads ==> Preferred(loads, n, m)
  }

  /** `min_by` over the hash map, in whatever order it iterates. */
  method FindLeast(loads: map<NodeId, nat>) returns (n: NodeId)
    requires loads != map[]
    ensures IsLeast(loads, n)
  {
    StringOrder();
    var rest := loads.Keys;
    assert rest != {} by { var k :| k in loads; }
    n :| n in rest;
    rest := rest - {n};
    while rest != {}
      invariant n in loads && rest <= loads.Keys
      invariant forall m :: m in loads && m !in rest ==> Preferred(loads, n, m)
      decreases rest
    {
      var m :| m in rest;
      if !Preferred(loads, n, m) {
        n := m;
      }
      rest := rest - {m};
    }
  }

  lemma LeastUnique(loads: map<NodeId, nat>, a: NodeId, b: NodeId)
    requires IsLeast(loads, a) && IsLeast(loads, b)
    ensures a == b
  {
    StringLeTotal(a, b);
  }

  lemma {:induction false} LeastExists(loads: map<NodeId, nat>, nodes: set<NodeId>) returns (n: NodeId)
    requires nodes != {} && nodes <= loads.Keys
    ensures n in nodes && forall m :: m in nodes ==> Preferred(loads, n, m)
    decreases |nodes|
  {
    StringOrder();
    n :| n in nodes;
    if nodes != {n} {
      var rest := nodes - {n};
      assert rest != {};
      var r := LeastExists(loads, rest);
      if !Preferred(loads, n, r) {
        n := r;
      }
      assert forall m :: m in nodes ==> m in rest || rest == nodes - {m};
    }
  }

  ghost function Least(loads: map<NodeId, nat>): (n: NodeId)
    requires loads != map[]
    ensures IsLeast(loads, n)
  {
    SomeLeast(loads);
    var n :| IsLeast(loads, n);
    n
  }

  lemma SomeLeast(loads: map<NodeId, nat>)
    requires loads != map[]
    ensures exists n :: IsLeast(loads, n)
  {
    assert loads.Keys != {} by { var k :| k in loads; }
    var n := LeastExists(loads, loads.Keys);
    assert IsLeast(loads, n);
  }

  // ---------- greedy placement ----------

  datatype Placed = Placed(assignment: Assignment, loads: map<NodeId, nat>)

  ghost function Place(st: Placed, p: Partition): Placed
    requires st.loads != map[]
  {
    var n := Least(st.loads);
    Placed(st.assignment[p := n], st.loads[n := st.loads[n] + 1])
  }

  /** Each partition in turn goes to the node that then has the fewest. */
  ghost function Greedy(parts: seq<Partition>, st: Placed): (r: Placed)
    requires st.loads != map[]
    ensures r.loads.Keys == st.loads.Keys
  {
    if parts == [] then st else Place(Greedy(parts[..|parts| - 1], st), parts[|parts| - 1])
  }

  lemma GreedyStep(parts: seq<Partition>, i: nat, st: Placed)
    requires i < |parts| && st.loads != map[] && Greedy(parts[..i], st).loads != map[]
    ensures Greedy(parts[..i + 1], st) == Place(Greedy(parts[..i], st), parts[i])
  {
    assert parts[..i + 1][..i] == parts[..i];
  }

  /** The counters agree with the assignment. */
  ghost predicate Counts(st: Placed, nodes: set<NodeId>) {
    st.loads.Keys == nodes && forall n :: n in nodes ==> st.loads[n] == Load(st.assignment, n)
  }

  /** A node that was given anything is at most one above every other node. */
  ghost predicate Levelled(before: map<NodeId, nat>, after: map<NodeId, nat>) {
    && before.Keys == after.Keys
    && forall x :: x in before ==> before[x] <= after[x] && (before[x] == after[x] || NearLowest(after, x))
  }

  ghost predicate NearLowest(loads: map<NodeId, nat>, x: NodeId)
    requires x in loads
  {
    forall y :: y in loads ==> loads[x] <= loads[y] + 1
  }

  lemma PlaceCounts(st: Placed, p: Partition, nodes: set<NodeId>)
    requires Counts(st, nodes) && nodes != {} && p !in st.assignment
    ensures st.loads != map[] && Counts(Place(st, p), nodes)
  {
    assert st.loads != map[] by { var n :| n in nodes; }
    var n := Least(st.loads);
    forall m | m in nodes ensures Place(st, p).loads[m] == Load(Place(st, p).assignment, m) {
      LoadInsert(st.assignment, p, n, m);
    }
  }

  lemma PlaceLevels(before: map<NodeId, nat>, st: Placed, p: Partition)
    requires st.loads != map[] && Levelled(before, st.loads)
    ensures Levelled(before, Place(st, p).loads)
  {
    var n := Least(st.loads);
    var after := Place(st, p).loads;
    forall x | x in before ensures before[x] <= after[x] && (before[x] == after[x] || NearLowest(after, x)) {
      if x == n {
        forall y | y in after ensures after[x] <= after[y] + 1 {
          assert Preferred(st.loads, n, y);
        }
      } else if before[x] != after[x] {
        assert NearLowest(st.loads, x);
      }
    }
  }

  /** Greedy placement adds exactly the given partitions, on live nodes, and touches nothing else. */
  lemma {:induction false} GreedyExtends(parts: seq<Partition>, st: Placed)
    requires st.loads != map[]
    requires forall p :: p in parts ==> p !in st.assignment
    ensures var r := Greedy(parts, st).assignment;
            && r.Keys == st.assignment.Keys + Elements(parts)
            && (forall p :: p in st.assignment ==> r[p] == st.assignment[p])
            && (forall p :: p in parts ==> r[p] in st.loads)
  {
    if parts != [] {
      var init, p := parts[..|parts| - 1], parts[|parts| - 1];
      assert parts == init + [p];
      GreedyExtends(init, st);
    }
  }

  /** Its counters stay right, and whatever it adds to stays level. */
  lemma {:induction false} GreedyLevels(parts: seq<Partition>, st: Placed, nodes: set<NodeId>)
    requires nodes != {} && Counts(st, nodes) && st.loads != map[]
    requires NoRepeats(parts) && forall p :: p in parts ==> p !in st.assignment
    ensures Counts(Greedy(parts, st), nodes) && Levelled(st.loads, Greedy(parts, st).loads)
  {
    if parts != [] {
      var init, p := parts[..|parts| - 1], parts[|parts| - 1];
      assert forall q :: q in init ==> q in parts;
      assert p !in init;
      GreedyLevels(init, st, nodes);
      var before := Greedy(init, st);
      assert p !in before.assignment by { GreedyExtends(init, st); }
      PlaceCounts(before, p, nodes);
      PlaceLevels(st.loads, before, p);
    }
  }

  // ---------- sticky assignment ----------

  /** The placements that survive: those on live nodes. */
  ghost function Kept(cur: Assignment, nodes: set<NodeId>): Assignment {
    map p | p in cur && cur[p] in nodes :: cur[p]
  }

  ghost function Orphans(cur: Assignment, nodes: set<NodeId>): set<Partition> {
    set p | p in cur && cur[p] !in nodes
  }

  ghost function LoadsOf(a: Assignment, nodes: set<NodeId>): map<NodeId, nat> {
    map n | n in nodes :: Load(a, n)
  }

  ghost function Sticky(cur: Assignment, nodes: set<NodeId>): Assignment
    requires nodes != {}
  {
    PartitionOrder();
    NonEmptyLoads(Kept(cur, nodes), nodes);
    Greedy(SortedListing(Orphans(cur, nodes), PartitionLe), Placed(Kept(cur, nodes), LoadsOf(Kept(cur, nodes), nodes))).assignment
  }

  lemma NonEmptyLoads(a: Assignment, nodes: set<NodeId>)
    requires nodes != {}
    ensures LoadsOf(a, nodes) != map[]
  {
    var n :| n in nodes;
    assert n in LoadsOf(a, nodes);
  }

  /** `a` keeps what survives, moves the rest onto live nodes, and raises no node more than one above another. */
  ghost predicate StickyTo(a: Assignment, cur: Assignment, nodes: set<NodeId>) {
    && a.Keys == cur.Keys && Onto(a, nodes)
    && (forall p :: p in cur ==> (a[p] == cur[p] <==> cur[p] in nodes))
    && (forall x :: x in nodes ==>
          Load(a, x) == Load(Kept(cur, nodes), x) || forall y :: y in nodes ==> Load(a, x) <= Load(a, y) + 1)
  }

  lemma StickyResult(cur: Assignment, nodes: set<NodeId>)
    requires nodes != {}
    ensures StickyTo(Sticky(cur, nodes), cur, nodes)
  {
    PartitionOrder();
    var kept := Kept(cur, nodes);
    var parts := SortedListing(Orphans(cur, nodes), PartitionLe);
    var st := Placed(kept, LoadsOf(kept, nodes));
    NonEmptyLoads(kept, nodes);
    assert forall p :: p in parts <==> p in Orphans(cur, nodes) by {
      assert forall p :: p in parts <==> p in Elements(parts);
    }
    GreedyExtends(parts, st);
    GreedyLevels(parts, st, nodes);
    var r := Greedy(parts, st);
    forall x | x in nodes
      ensures Load(r.assignment, x) == Load(kept, x) || forall y :: y in nodes ==> Load(r.assignment, x) <= Load(r.assignment, y) + 1
    {
      if st.loads[x] != r.loads[x] {
        assert NearLowest(r.loads, x);
      }
    }
    assert r.assignment.Keys == cur.Keys;
  }

  /** An assignment that leaves every surviving placement where it is. */
  ghost predicate KeepsSurvivors(b: Assignment, cur: Assignment, nodes: set<NodeId>) {
    && b.Keys == cur.Keys && Onto(b, nodes)
    && forall p :: p in cur && cur[p] in nodes ==> b[p] == cur[p]
  }

  ghost function Moved(cur: Assignment, b: Assignment): set<Partition> {
    set p | p in cur && p in b && b[p] != cur[p]
  }

  /** Sticky moves exactly the orphans, and no assignment onto live nodes moves fewer. */
  lemma StickyMovesLeast(cur: Assignment, nodes: set<NodeId>, b: Assignment)
    requires nodes != {} && b.Keys == cur.Keys && Onto(b, nodes)
    ensures Moved(cur, Sticky(cur, nodes)) == Orphans(cur, nodes) <= Moved(cur, b)
    ensures |Moved(cur, Sticky(cur, nodes))| <= |Moved(cur, b)|
  {
    StickyResult(cur, nodes);
    SubsetSize(Orphans(cur, nodes), Moved(cur, b));
  }

  lemma SubsetSize<T>(a: set<T>, b: set<T>)
    requires a <= b
    ensures |a| <= |b|
  {
    assert b == a + (b - a);
  }

  lemma KeptLoad(cur: Assignment, nodes: set<NodeId>, b: Assignment, x: NodeId)
    requires KeepsSurvivors(b, cur, nodes) && x in nodes
    ensures Load(Kept(cur, nodes), x) <= Load(b, x)
  {
    SubsetSize(On(Kept(cur, nodes), x), On(b, x));
  }

  /** If `a` has k or more everywhere and more than k somewhere, the same partitions cannot be spread k or fewer each. */
  lemma TooManyToSpread(a: Assignment, b: Assignment, nodes: set<NodeId>, x: NodeId, k: nat)
    requires x in nodes && k < Load(a, x) && (forall y :: y in nodes ==> k <= Load(a, y))
    requires |Held(a, nodes)| == |Held(b, nodes)|
    ensures exists y :: y in nodes && k < Load(b, y)
  {
    AtLeast(a, nodes - {x}, k);
    HeldSplit(a, nodes, x);
    assert |nodes| == |nodes - {x}| + 1;
    assert |nodes| * k == |nodes - {x}| * k + k;
    if forall y :: y in nodes ==> Load(b, y) <= k {
      AtMost(b, nodes, k);
      assert false;
    }
  }

  /** A node given anything by sticky is as light as can be: some node of any other spreading is as heavy. */
  lemma SomeAsHeavy(a: Assignment, cur: Assignment, nodes: set<NodeId>, b: Assignment, x: NodeId)
    requires x in nodes && StickyTo(a, cur, nodes) && KeepsSurvivors(b, cur, nodes)
    ensures exists y :: y in nodes && Load(a, x) <= Load(b, y)
  {
    if Load(a, x) == Load(Kept(cur, nodes), x) {
      KeptLoad(cur, nodes, b, x);
    } else if 0 < Load(a, x) {
      assert Held(a, nodes) == cur.Keys == Held(b, nodes);
      TooManyToSpread(a, b, nodes, x, Load(a, x) - 1);
    }
  }

  lemma StickyToMinimises(a: Assignment, cur: Assignment, nodes: set<NodeId>, b: Assignment)
    requires nodes != {} && StickyTo(a, cur, nodes) && KeepsSurvivors(b, cur, nodes)
    ensures MaxLoad(a, nodes) <= MaxLoad(b, nodes)
  {
    var x :| x in nodes && Load(a, x) == MaxLoad(a, nodes);
    SomeAsHeavy(a, cur, nodes, b, x);
  }

  /** Among all assignments that keep the surviving placements, sticky has the smallest maximum load. */
  lemma StickyMinimisesMaxLoad(cur: Assignment, nodes: set<NodeId>, b: Assignment)
    requires nodes != {} && KeepsSurvivors(b, cur, nodes)
    ensures KeepsSurvivors(Sticky(cur, nodes), cur, nodes)
    ensures MaxLoad(Sticky(cur, nodes), nodes) <= MaxLoad(b, nodes)
  {
    StickyResult(cur, nodes);
    StickyToMinimises(Sticky(cur, nodes), cur, nodes, b);
  }

  // ---------- round robin, least loaded and hashing ----------

  ghost function RoundRobin(parts: seq<Partition>, nodes: seq<NodeId>): Assignment
    requires nodes != []
  {
    if parts == [] then map[]
    else
      var k := |parts| - 1;
      RoundRobin(parts[..k], nodes)[parts[k] := nodes[k % |nodes|]]
  }

  /** Partition `i` of the listing sits on node `i mod n`. */
  lemma RoundRobinAt(parts: seq<Partition>, nodes: seq<NodeId>)
    requires nodes != [] && NoRepeats(parts)
    ensures RoundRobin(parts, nodes).Keys == Elements(parts)
    ensures forall i :: 0 <= i < |parts| ==> parts[i] in RoundRobin(parts, nodes)
                                             && RoundRobin(parts, nodes)[parts[i]] == nodes[i % |nodes|]
  {
    RoundRobinKeys(parts, nodes);
    forall i | 0 <= i < |parts| ensures RoundRobin(parts, nodes)[parts[i]] == nodes[i % |nodes|] {
      RoundRobinSeat(parts, nodes, i);
    }
  }

  lemma {:induction false} RoundRobinKeys(parts: seq<Partition>, nodes: seq<NodeId>)
    requires nodes != []
    ensures RoundRobin(parts, nodes).Keys == Elements(parts)
  {
    if parts != [] {
      var k := |parts| - 1;
      RoundRobinKeys(parts[..k], nodes);
      assert parts == parts[..k] + [parts[k]];
    }
  }

  lemma {:induction false} RoundRobinSeat(parts: seq<Partition>, nodes: seq<NodeId>, i: nat)
    requires nodes != [] && NoRepeats(parts) && i < |parts|
    ensures parts[i] in RoundRobin(parts, nodes) && RoundRobin(parts, nodes)[parts[i]] == nodes[i % |nodes|]
  {
    var k := |parts| - 1;
    if i < k {
      RoundRobinSeat(parts[..k], nodes, i);
    }
  }

  ghost function ZeroLoads(nodes: set<NodeId>): map<NodeId, nat> {
    map n | n in nodes :: 0
  }

  /** After `i` partitions the first `i mod n` nodes have one more than the rest. */
  ghost function Share(i: nat, j: nat, n: nat): nat
    requires 0 < n
  {
    i / n + if j < i % n then 1 else 0
  }

  ghost predicate Shared(loads: map<NodeId, nat>, nodes: seq<NodeId>, i: nat) {
    && nodes != [] && loads.Keys == Elements(nodes)
    && forall j :: 0 <= j < |nodes| ==> nodes[j] in loads && loads[nodes[j]] == Share(i, j, |nodes|)
  }

  lemma DivModStep(i: nat, n: nat)
    requires 0 < n
    ensures if i % n + 1 == n then (i + 1) / n == i / n + 1 && (i + 1) % n == 0
            else (i + 1) / n == i / n && (i + 1) % n == i % n + 1
  {
    var q, r := i / n, i % n;
    assert i == q * n + r;
    if r + 1 == n {
      assert i + 1 == (q + 1) * n;
      QuotientUnique(i + 1, n, q + 1, 0);
    } else {
      assert i + 1 == q * n + (r + 1);
      QuotientUnique(i + 1, n, q, r + 1);
    }
  }

  lemma QuotientUnique(x: nat, n: nat, q: nat, r: nat)
    requires 0 < n && r < n && x == q * n + r
    ensures x / n == q && x % n == r
  {
    NoGreaterQuotient(n, q, r, x / n, x % n);
    NoGreaterQuotient(n, x / n, x % n, q, r);
  }

  lemma NoGreaterQuotient(n: nat, q: nat, r: nat, q': nat, r': nat)
    requires 0 < n && r < n && q * n + r == q' * n + r'
    ensures q' <= q
  {
    if q < q' {
      MultiplesApart(n, q, q');
      assert false;
    }
  }

  lemma MultiplesApart(n: nat, q: nat, q': nat)
    requires q < q'
    ensures q * n + n <= q' * n
  {
    var d := q' - q - 1;
    assert q' * n == q * n + n + d * n;
    assert 0 <= d * n;
  }

  /** With shares so divided, the node preferred next is number `i mod n`. */
  lemma NextInTurn(loads: map<NodeId, nat>, nodes: seq<NodeId>, i: nat)
    requires Shared(loads, nodes, i) && Sorted(nodes, StringLe) && loads != map[]
    ensures Least(loads) == nodes[i % |nodes|]
  {
    var t := i % |nodes|;
    forall m | m in loads ensures Preferred(loads, nodes[t], m) {
      assert m in Elements(nodes);
      var j :| 0 <= j < |nodes| && nodes[j] == m;
      StringLeTotal(m, m);
    }
    LeastUnique(loads, Least(loads), nodes[t]);
  }

  lemma ShareStep(loads: map<NodeId, nat>, nodes: seq<NodeId>, i: nat)
    requires Shared(loads, nodes, i) && NoRepeats(nodes)
    ensures var n := nodes[i % |nodes|];
            Shared(loads[n := loads[n] + 1], nodes, i + 1)
  {
    DivModStep(i, |nodes|);
    var t := i % |nodes|;
    forall j | 0 <= j < |nodes| && j != t ensures nodes[j] != nodes[t] {
      assert j < t || t < j;
    }
  }

  /** Always giving to the least loaded node, starting level, is taking turns. */
  lemma {:induction false} GreedyTakesTurns(parts: seq<Partition>, nodes: seq<NodeId>)
    requires nodes != [] && NoRepeats(nodes) && Sorted(nodes, StringLe)
    ensures ZeroLoads(Elements(nodes)) != map[]
    ensures var r := Greedy(parts, Placed(map[], ZeroLoads(Elements(nodes))));
            r.assignment == RoundRobin(parts, nodes) && Shared(r.loads, nodes, |parts|)
  {
    assert nodes[0] in ZeroLoads(Elements(nodes));
    if parts != [] {
      var k := |parts| - 1;
      GreedyTakesTurns(parts[..k], nodes);
      var st := Greedy(parts[..k], Placed(map[], ZeroLoads(Elements(nodes))));
      assert nodes[0] in st.loads;
      NextInTurn(st.loads, nodes, k);
      ShareStep(st.loads, nodes, k);
    }
  }

  ghost function LeastLoaded(keys: set<Partition>, nodes: set<NodeId>): Assignment
    requires nodes != {}
  {
    PartitionOrder();
    var n :| n in nodes;
    assert n in ZeroLoads(nodes);
    Greedy(SortedListing(keys, PartitionLe), Placed(map[], ZeroLoads(nodes))).assignment
  }

  ghost function Turns(keys: set<Partition>, nodes: set<NodeId>): Assignment
    requires nodes != {}
  {
    PartitionOrder();
    StringOrder();
    NonEmptyListing(nodes);
    RoundRobin(SortedListing(keys, PartitionLe), SortedListing(nodes, StringLe))
  }

  lemma NonEmptyListing(nodes: set<NodeId>)
    requires nodes != {}
    ensures TotalOrder(StringLe) && SortedListing(nodes, StringLe) != []
  {
    StringOrder();
    var n :| n in nodes;
    assert n in Elements(SortedListing(nodes, StringLe));
  }

  lemma SharedIsLevel(loads: map<NodeId, nat>, nodes: seq<NodeId>, i: nat, x: NodeId, y: NodeId)
    requires nodes != [] && Shared(loads, nodes, i) && x in nodes && y in nodes
    ensures x in loads && y in loads && loads[x] <= loads[y] + 1
  {
    var j :| 0 <= j < |nodes| && nodes[j] == x;
    var k :| 0 <= k < |nodes| && nodes[k] == y;
  }

  /** Taking turns uses only the given nodes and leaves their loads within one of each other. */
  lemma TurnsAreLevel(parts: seq<Partition>, nodes: seq<NodeId>)
    requires nodes != [] && NoRepeats(nodes) && Sorted(nodes, StringLe) && NoRepeats(parts)
    ensures Onto(RoundRobin(parts, nodes), Elements(nodes))
    ensures var r := RoundRobin(parts, nodes);
            forall x, y :: x in nodes && y in nodes ==> Load(r, x) <= Load(r, y) + 1
  {
    GreedyTakesTurns(parts, nodes);
    var st := Placed(map[], ZeroLoads(Elements(nodes)));
    assert forall n :: n in nodes ==> On(map[], n) == {};
    GreedyLevels(parts, st, Elements(nodes));
    GreedyExtends(parts, st);
    var r := Greedy(parts, st);
    forall x, y | x in nodes && y in nodes ensures Load(r.assignment, x) <= Load(r.assignment, y) + 1 {
      SharedIsLevel(r.loads, nodes, |parts|, x, y);
    }
  }

  /** Greedy equals round robin: the two strategies compute the same map, and it is level. */
  lemma LeastLoadedIsRoundRobin(keys: set<Partition>, nodes: set<NodeId>)
    requires nodes != {}
    ensures LeastLoaded(keys, nodes) == Turns(keys, nodes)
    ensures Turns(keys, nodes).Keys == keys && Onto(Turns(keys, nodes), nodes)
    ensures forall x, y :: x in nodes && y in nodes ==> Load(Turns(keys, nodes), x) <= Load(Turns(keys, nodes), y) + 1
  {
    PartitionOrder();
    NonEmptyListing(nodes);
    var parts, ns := SortedListing(keys, PartitionLe), SortedListing(nodes, StringLe);
    GreedyTakesTurns(parts, ns);
    RoundRobinAt(parts, ns);
    TurnsAreLevel(parts, ns);
    assert forall n :: n in nodes ==> n in ns;
  }

  /** Each partition goes to the node its hash selects. */
  ghost function Hashed(keys: set<Partition>, nodes: set<NodeId>, hash: Partition -> nat): Assignment
    requires nodes != {}
  {
    NonEmptyListing(nodes);
    var ns := SortedListing(nodes, StringLe);
    map p | p in keys :: ns[hash(p) % |ns|]
  }

  // ---------- hashing when nodes come and go ----------

  /** Going from nodes `a` to nodes `b`, every partition whose node is still there stays on it. */
  ghost predicate SurvivorsStay(keys: set<Partition>, hash: Partition -> nat, a: set<NodeId>, b: set<NodeId>)
    requires a != {} && b != {}
  {
    var before, after := Hashed(keys, a, hash), Hashed(keys, b, hash);
    forall p :: p in keys && before[p] in b ==> after[p] == before[p]
  }

  /** The same for every set of partitions and every hash. */
  ghost predicate HashStable(a: set<NodeId>, b: set<NodeId>)
    requires a != {} && b != {}
  {
    forall keys: set<Partition>, hash: Partition -> nat :: SurvivorsStay(keys, hash, a, b)
  }

  /** The number of nodes afterwards divides the number before, and each survivor keeps its place modulo the new number. */
  ghost predicate PlacesAgree(a: seq<NodeId>, b: seq<NodeId>)
    requires b != []
  {
    |a| % |b| == 0 && forall i :: 0 <= i < |a| && a[i] in b ==> b[i % |b|] == a[i]
  }

  /** One hash value for all: the partition at place `i` of the old list. */
  lemma HashedByConstant(p: Partition, nodes: set<NodeId>, h: nat)
    requires nodes != {}
    ensures TotalOrder(StringLe)
    ensures var ns := SortedListing(nodes, StringLe);
            ns != [] && Hashed({p}, nodes, _ => h) == map[p := ns[h % |ns|]]
  {
    NonEmptyListing(nodes);
  }

  lemma TwoHashes(i: nat, n: nat)
    requires i < n
    ensures i % n == i && (i + n) % n == i
  {
  }

  lemma SumModulo(i: nat, n: nat, m: nat)
    requires 0 < m && (i + n) % m == i % m
    ensures n % m == 0
  {
    var q, q' := i / m, (i + n) / m;
    assert n == m * q' - m * q;
    if q' < q { MultiplesApart(m, q', q); }
    assert n == m * (q' - q) + 0;
    QuotientUnique(n, m, q' - q, 0);
  }

  /** Stability, read at one hash value. */
  lemma StableAt(a: set<NodeId>, b: set<NodeId>, h: nat)
    requires a != {} && b != {} && HashStable(a, b) && TotalOrder(StringLe)
    ensures var (ns, ms) := (SortedListing(a, StringLe), SortedListing(b, StringLe));
            ns != [] && ms != [] && (ns[h % |ns|] in b ==> ms[h % |ms|] == ns[h % |ns|])
  {
    var p: Partition := ("", 0);
    HashedByConstant(p, a, h);
    HashedByConstant(p, b, h);
    assert SurvivorsStay({p}, _ => h, a, b);
    assert p in {p};
  }

  /** A survivor forces the new number of nodes to divide the old one: its place and the place one round on must agree. */
  lemma SurvivorForces(a: set<NodeId>, b: set<NodeId>, i: nat)
    requires a != {} && b != {} && HashStable(a, b)
    requires TotalOrder(StringLe)
    requires var (ns, ms) := (SortedListing(a, StringLe), SortedListing(b, StringLe));
             ms != [] && i < |ns| && ns[i] in b
    ensures var (ns, ms) := (SortedListing(a, StringLe), SortedListing(b, StringLe));
            |ns| % |ms| == 0 && ms[i % |ms|] == ns[i]
  {
    var (ns, ms) := (SortedListing(a, StringLe), SortedListing(b, StringLe));
    var j := i + |ns|;
    TwoHashes(i, |ns|);
    StableAt(a, b, i);
    StableAt(a, b, j);
    assert i % |ms| == j % |ms|;
    SumModulo(i, |ns|, |ms|);
  }

  /**
   When hashing modulo the number of nodes is stable across a change of nodes: exactly when no node
   survives, or the survivors' places agree modulo the new number (as they do whenever one node is left).
   */
  lemma HashStableIff(a: set<NodeId>, b: set<NodeId>)
    requires a != {} && b != {}
    ensures TotalOrder(StringLe) && SortedListing(b, StringLe) != []
    ensures HashStable(a, b) <==> a !! b || PlacesAgree(SortedListing(a, StringLe), SortedListing(b, StringLe))
  {
    NonEmptyListing(a);
    NonEmptyListing(b);
    var (ns, ms) := (SortedListing(a, StringLe), SortedListing(b, StringLe));
    assert forall n :: (n in a <==> n in ns) && (n in b <==> n in ms);
    if HashStable(a, b) && !(a !! b) {
      var n :| n in a && n in b;
      var i :| 0 <= i < |ns| && ns[i] == n;
      SurvivorForces(a, b, i);
      forall i | 0 <= i < |ns| && ns[i] in ms ensures ms[i % |ms|] == ns[i] {
        SurvivorForces(a, b, i);
      }
    }
    if a !! b || PlacesAgree(ns, ms) {
      forall keys: set<Partition>, hash: Partition -> nat ensures SurvivorsStay(keys, hash, a, b) {
        PlacesSuffice(keys, hash, a, b);
      }
    }
  }

  lemma ModuloTwice(h: nat, n: nat, m: nat)
    requires 0 < m && 0 < n && n % m == 0
    ensures (h % n) % m == h % m
  {
    var q, k, x := n / m, h / n, h % n;
    assert n == m * q && h == n * k + x;
    Regroup(m, q, k, x / m);
    assert h == m * (q * k + x / m) + x % m;
    QuotientUnique(h, m, q * k + x / m, x % m);
  }

  lemma Regroup(m: nat, q: nat, k: nat, y: nat)
    ensures m * q * k + m * y == m * (q * k + y)
  {
  }

  lemma PlacesSuffice(keys: set<Partition>, hash: Partition -> nat, a: set<NodeId>, b: set<NodeId>)
    requires a != {} && b != {}
    requires TotalOrder(StringLe) && SortedListing(b, StringLe) != []
    requires a !! b || PlacesAgree(SortedListing(a, StringLe), SortedListing(b, StringLe))
    ensures SurvivorsStay(keys, hash, a, b)
  {
    NonEmptyListing(a);
    var (ns, ms) := (SortedListing(a, StringLe), SortedListing(b, StringLe));
    var before, after := Hashed(keys, a, hash), Hashed(keys, b, hash);
    forall p | p in keys && before[p] in b ensures after[p] == before[p] {
      var i := hash(p) % |ns|;
      assert ns[i] in Elements(ns) && ns[i] in Elements(ms);
      ModuloTwice(hash(p), |ns|, |ms|);
    }
  }

  /** So adding nodes is never stable: some hash moves a partition off a node that is still there. */
  lemma AddingNodesNeverStable(a: set<NodeId>, b: set<NodeId>)
    requires a != {} && a < b
    ensures !HashStable(a, b)
  {
    HashStableIff(a, b);
    ListingSize(a);
    ListingSize(b);
    ProperSubsetSize(a, b);
    SmallRemainder(|a|, |b|);
  }

  lemma ListingSize(nodes: set<NodeId>)
    requires nodes != {}
    ensures TotalOrder(StringLe) && |SortedListing(nodes, StringLe)| == |nodes| > 0
  {
    NonEmptyListing(nodes);
    NoRepeatsSize(SortedListing(nodes, StringLe));
  }

  lemma ProperSubsetSize<T>(a: set<T>, b: set<T>)
    requires a < b
    ensures |a| < |b|
  {
    var x :| x in b && x !in a;
    SubsetSize(a + {x}, b);
  }

  lemma SmallRemainder(x: nat, n: nat)
    requires 0 < x < n
    ensures x % n != 0
  {
  }
}
