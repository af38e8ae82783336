/**
 Conflict resolution between regions (crates/streamhouse-api/src/active_active.rs), and why replicas that
 merge the same writes in different orders end with the same one.
 */
module ActiveActive {
  import opened Ordering

  datatype Write = Write(region: string, timestamp: nat, value: seq<bv8>)

  /** A conflict record: the local write and the remote one. */
  datatype Conflict = Conflict(local: Write, remote: Write)

  datatype Resolution = KeepLocal | KeepRemote

  /** The strategy: last writer wins, or a list of regions in order of priority. */
  datatype Resolver = LastWriterWins | RegionPriority(priority: seq<string>)

  /** `iter().position(..)`. */
  function Position(priority: seq<string>, region: string): (r: Option<nat>)
    ensures r.Some? ==> r.value < |priority| && priority[r.value] == region && region !in priority[..r.value]
    ensures r.None? ==> region !in priority
  {
    if priority == [] then None
    else if priority[0] == region then Some(0)
    else
      assert priority == [priority[0]] + priority[1..];
      match Position(priority[1..], region)
      case Some(i) =>
        assert priority[..i + 1] == [priority[0]] + priority[1..][..i];
        Some(i + 1)
      case None => None
  }

  function ByTime(c: Conflict): Resolution {
    if c.local.timestamp >= c.remote.timestamp then KeepLocal else KeepRemote
  }

  /** resolve. */
  function Resolve(resolver: Resolver, c: Conflict): Resolution {
    match resolver
    case LastWriterWins => ByTime(c)
    case RegionPriority(priority) =>
      match (Position(priority, c.local.region), Position(priority, c.remote.region))
      case (Some(l), Some(r)) => if l <= r then KeepLocal else KeepRemote
      case (Some(_), None) => KeepLocal
      case (None, Some(_)) => KeepRemote
      case (None, None) => ByTime(c)
  }

  /** The write that a replica holding `local` keeps on hearing of `remote`. */
  function Merge(resolver: Resolver, local: Write, remote: Write): Write {
    if Resolve(resolver, Conflict(local, remote)).KeepLocal? then local else remote
  }

  // ---------- rank ----------

  /** Lower is better: place in the list (after it, if unlisted), and among the unlisted the later write first. */
  datatype Rank = Rank(place: nat, age: int)

  function RankOf(resolver: Resolver, w: Write): Rank {
    match resolver
    case LastWriterWins => Rank(0, -(w.timestamp as int))
    case RegionPriority(priority) =>
      match Position(priority, w.region)
      case Some(i) => Rank(i, 0)
      case None => Rank(|priority|, -(w.timestamp as int))
  }

  predicate RankLe(a: Rank, b: Rank) {
    a.place < b.place || (a.place == b.place && a.age <= b.age)
  }

  /** The resolvers compare ranks, with ties kept local. */
  lemma ResolveIsRank(resolver: Resolver, local: Write, remote: Write)
    ensures Resolve(resolver, Conflict(local, remote)).KeepLocal? <==> RankLe(RankOf(resolver, local), RankOf(resolver, remote))
  {
  }

  /** As an order on writes, "the local one is kept" is total and transitive, whatever the resolver. */
  lemma ResolutionIsPreorder(resolver: Resolver, a: Write, b: Write, c: Write)
    ensures Resolve(resolver, Conflict(a, b)).KeepLocal? || Resolve(resolver, Conflict(b, a)).KeepLocal?
    ensures Resolve(resolver, Conflict(a, b)).KeepLocal? && Resolve(resolver, Conflict(b, c)).KeepLocal? ==>
              Resolve(resolver, Conflict(a, c)).KeepLocal?
  {
    ResolveIsRank(resolver, a, b);
    ResolveIsRank(resolver, b, a);
    ResolveIsRank(resolver, b, c);
    ResolveIsRank(resolver, a, c);
  }

  /** Two replicas that hear of each other's write agree exactly when the ranks differ or the writes are equal. */
  lemma PairAgreesIff(resolver: Resolver, a: Write, b: Write)
    ensures Merge(resolver, a, b) == Merge(resolver, b, a) <==> a == b || RankOf(resolver, a) != RankOf(resolver, b)
  {
    ResolveIsRank(resolver, a, b);
    ResolveIsRank(resolver, b, a);
  }

  // ---------- any order of merging ----------

  /** A history of merges: a replica's own write, or the outcome of one history merged into another. */
  datatype Merges = Own(write: Write) | Merged(local: Merges, remote: Merges)

  function Outcome(resolver: Resolver, m: Merges): Write {
    match m
    case Own(w) => w
    case Merged(l, r) => Merge(resolver, Outcome(resolver, l), Outcome(resolver, r))
  }

  ghost function Writes(m: Merges): set<Write> {
    match m
    case Own(w) => {w}
    case Merged(l, r) => Writes(l) + Writes(r)
  }

  ghost predicate Best(resolver: Resolver, w: Write, ws: set<Write>) {
    w in ws && forall v :: v in ws ==> RankLe(RankOf(resolver, w), RankOf(resolver, v))
  }

  /** At most one write of best rank; ties among the others do not matter. */
  ghost predicate UniqueBest(resolver: Resolver, ws: set<Write>) {
    forall a, b :: Best(resolver, a, ws) && Best(resolver, b, ws) ==> a == b
  }

  /** Whatever the order of merging, the outcome is one of the writes and none ranks better. */
  lemma {:induction false} OutcomeIsBest(resolver: Resolver, m: Merges)
    ensures Best(resolver, Outcome(resolver, m), Writes(m))
  {
    match m
    case Own(_) =>
    case Merged(l, r) =>
      OutcomeIsBest(resolver, l);
      OutcomeIsBest(resolver, r);
      ResolveIsRank(resolver, Outcome(resolver, l), Outcome(resolver, r));
  }

  /** The region comes no later in the list than the other, and is listed if the other is. */
  ghost predicate NoLater(priority: seq<string>, region: string, other: string) {
    other in priority ==> exists i :: 0 <= i < |priority| && priority[i] == region && other !in priority[..i]
  }

  lemma PositionsNoLater(priority: seq<string>, region: string, other: string)
    requires Position(priority, other).Some? ==>
               Position(priority, region).Some? && Position(priority, region).value <= Position(priority, other).value
    ensures NoLater(priority, region, other)
  {
    if other in priority {
      var i, j := Position(priority, region).value, Position(priority, other).value;
      assert forall k :: 0 <= k < i ==> priority[..i][k] == priority[..j][k];
    }
  }

  /**
   Who wins, in the resolvers' own terms and whatever the order of merging. Last writer wins: nobody wrote
   later. Region priority: no region before the winner's in the list has written; and an unlisted winner means
   that no listed region has, and that nobody wrote later.
   */
  lemma WinnerMeaning(resolver: Resolver, m: Merges)
    ensures var w := Outcome(resolver, m);
            && w in Writes(m)
            && match resolver
               case LastWriterWins => forall v :: v in Writes(m) ==> v.timestamp <= w.timestamp
               case RegionPriority(priority) =>
                 forall v :: v in Writes(m) ==>
                   && NoLater(priority, w.region, v.region)
                   && (w.region !in priority ==> v.timestamp <= w.timestamp)
  {
    OutcomeIsBest(resolver, m);
    var w := Outcome(resolver, m);
    if resolver.RegionPriority? {
      forall v | v in Writes(m) ensures NoLater(resolver.priority, w.region, v.region) {
        assert RankLe(RankOf(resolver, w), RankOf(resolver, v));
        PositionsNoLater(resolver.priority, w.region, v.region);
      }
    }
  }

  /** Any non-empty set of writes can be merged. */
  lemma {:induction false} AllMerged(ws: set<Write>) returns (m: Merges)
    requires ws != {}
    ensures Writes(m) == ws
    decreases |ws|
  {
    var w :| w in ws;
    if ws == {w} {
      m := Own(w);
    } else {
      var rest := AllMerged(ws - {w});
      m := Merged(Own(w), rest);
      assert Writes(Own(w)) == {w};
    }
  }

  /** A best write held first is kept through everything else. */
  lemma BestHeldFirst(resolver: Resolver, w: Write, rest: Merges)
    requires Best(resolver, w, Writes(rest))
    ensures Writes(Merged(Own(w), rest)) == Writes(rest)
    ensures Outcome(resolver, Merged(Own(w), rest)) == w
  {
    OutcomeIsBest(resolver, rest);
    ResolveIsRank(resolver, w, Outcome(resolver, rest));
    assert Writes(Own(w)) == {w} && Outcome(resolver, Own(w)) == w;
  }

  /** Replicas that have merged the same writes hold the same one, whatever order each merged them in. */
  ghost predicate Converges(resolver: Resolver, ws: set<Write>) {
    forall m, m' :: Writes(m) == ws && Writes(m') == ws ==> Outcome(resolver, m) == Outcome(resolver, m')
  }

  /** Convergence: every order of merging agrees exactly when no two writes share the best rank. */
  lemma ReplicasConvergeIff(resolver: Resolver, ws: set<Write>)
    requires ws != {}
    ensures Converges(resolver, ws) <==> UniqueBest(resolver, ws)
  {
    if UniqueBest(resolver, ws) {
      forall m, m' | Writes(m) == ws && Writes(m') == ws ensures Outcome(resolver, m) == Outcome(resolver, m') {
        OutcomeIsBest(resolver, m);
        OutcomeIsBest(resolver, m');
      }
    } else {
      var a, b :| Best(resolver, a, ws) && Best(resolver, b, ws) && a != b;
      var rest := AllMerged(ws);
      BestHeldFirst(resolver, a, rest);
      BestHeldFirst(resolver, b, rest);
    }
  }

  /** Distinct ranks are enough; they are not needed. */
  lemma DistinctRanksConverge(resolver: Resolver, ws: set<Write>)
    requires ws != {} && forall a, b :: a in ws && b in ws && a != b ==> RankOf(resolver, a) != RankOf(resolver, b)
    ensures Converges(resolver, ws)
  {
    ReplicasConvergeIff(resolver, ws);
  }
}
