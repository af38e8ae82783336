# StreamHouse coordination layer: a Dafny model

This project models the coordination layer of StreamHouse and proves what its parts promise over whole
runs, all inputs and all orders of events. Nine state machines and algorithms are covered:

| file | models | main results |
|---|---|---|
| `SystemState.dfy`, `WalLayout.dfy`, `OrderedMap.dfy`, `Pitr.dfy` | point-in-time recovery | recovery equals replay of the whole history through rotation, eviction and expiry; what every kind of entity looks like after a log; exactly which targets are safe; retention safety; integrity verification |
| `Placement.dfy`, `Rebalancer.dfy` | partition rebalancer | sticky assignment moves least and minimises the maximum load; least-loaded equals round robin; convergence in exactly ceil(m/k) rounds; exactly when hashing is stable across a change of nodes |
| `Leader.dfy` | leader election with fencing | the fencing invariant over all runs of N nodes on one record; issued tokens increase; what a renewal protects and how a leader stays; lapsed guards stay lapsed; what is left of it when each instance has its own record |
| `LeaseCache.dfy` | partition leases, caches over the metadata store | at most one agent passes validation; exactly when completing a transfer is safe, and when it moves the lease; exactly which steps keep epochs increasing, and epoch fencing over runs of those |
| `AuditChain.dfy`, `AuditStore.dfy` | audit trail | chain binding without assumptions on the hash; rotation and reopening; streaming query equals the simple one |
| `Assigner.dfy` | partition assigner | agreement without communication, up to what the tasks hold; exactly when shares are disjoint |
| `Acl.dfy` | access control lists | the decision cache is invisible; exactly which patterns mean what their wildcards say, and what an entry covers |
| `Failover.dfy` | node health | health and events as a function of the history of checks |
| `ActiveActive.dfy` | conflict resolution | convergence under any order of merging, exactly when the best-ranked write is unique |

`Ordering.dfy` holds the string and partition orders and the sort that several parts use.

## How to read it

State that the program updates in place is a class (`PitrManager`, `PartitionRebalancer`, `LeaderElection`,
`LeaseManager`, `MetadataStore`, `AuditStore`, `RebalanceTask`, `AclChecker`, `FailoverManager`); its methods
keep the program's loops and branches, and each is proved against a function or a predicate on values. The
theorems are then lemmas about those functions, or clauses of the methods that only read. A hash map's
iteration order is an arbitrary choice. Every public method is one atomic step.

What the model takes from outside:

- SHA-256, the JSON size of an entry or a snapshot, a snapshot's checksum, the string hash, the byte size of a
  file and the earliest time that can be represented are arbitrary and passed at construction; nothing is
  assumed of them, except injectivity in `AuditChain.GoodHashBinds`.
- The clock is an argument of each call. It does not go back, and in `Leader.dfy` it starts at or after 0.
- Identifiers (UUIDs), health check results, topic look-ups and the reachability of the store are arguments.
- Numbers are unbounded: 64-bit LSNs, epochs and tokens and 32-bit counters are taken not to overflow.

## Findings

Where the code does not do what it is meant to do, the model follows the code, shows the failing case and
proves exactly when the code is right:

- Recovery keeps one snapshot, that of the newest backup, and pairs it with whichever backup a target
  selects. Targets from the newest backup on recover exactly (`Pitr.PitrManager.Recover`); for every earlier
  target and every configuration there is a run of the manager that recovers a wrong state, or finds no backup
  when only one is retained (`Pitr.EarlierTargetRecoversWrongly`, `Pitr.TargetBeforeNewestUnsafe`). Recovery to
  a backup by id is right exactly for the newest one (`Pitr.BackupTargetExact`).
- On SQLite `complete_lease_transfer` overwrites the lease row whoever holds it, and on both stores it can
  shorten the row below the target's cached lease. Two agents can then both validate, even when the
  transfer's own source makes the call (`LeaseCache.LateCompletionSplitsBrain` on SQLite,
  `LeaseCache.ShortenedRowSplitsBrain` on Postgres). `LeaseCache.CompletionSafeIff`
  gives the exact condition, `LeaseCache.RowSafeIff` tells it from the lease row alone, and a caller that
  looks at the row first is safe (`LeaseCache.RowChecksKeepExclusive`).
- On Postgres completing a transfer never moves a lease: the call acquires on the target's behalf, which
  succeeds exactly when the target holds the lease already, and by then the transfer is recorded as completed
  (`LeaseCache.CompletionMovesIff`, with the run `LeaseCache.CompletedNotMoved`). On SQLite the call succeeds
  even when there is no row left to move (`LeaseCache.CompletedNothingMoved`).
- Epochs do not always increase. A release deletes the row, so they start again at 1
  (`LeaseCache.ReleaseReusesEpoch`), and a SQLite completion writes the epoch after the one at initiation,
  although renewals may have passed it (`LeaseCache.CompletionReusesEpoch`). `LeaseCache.EpochAdvancesIff`
  says that these are the only steps that do so. `LeaseCache.RewindReusesEpoch` says that each lets the epoch
  in force be granted to a second agent, unless a completion finds the target holding the row already.
  `LeaseCache.OneAgentPerEpoch` and `LeaseCache.EpochsFence` say that without them epochs fence as they should.
- The election record is a field of each instance, and the Postgres backend falls back to it. The shared record
  of the runs in `Leader.dfy` is the intended deployment; as written, instances exclude nobody: two that try
  to acquire both lead, with the same token 1 (`Leader.OwnRecordsExcludeNobody`). The fencing theorems hold of
  the code as written for one node, and for N nodes once they share a record.
- On a shared record that outlives an instance, one started under the id of an unexpired lease becomes leader with
  token 0, and only such a one (`Leader.FreshTokenZeroIff`); within runs of distinct nodes, and while each
  instance has a record of its own, this cannot happen.
- Only default denials are ever cached by the ACL checker, so the "Cached allow" answer is dead code
  (`Acl.AclChecker.Check`). A star in the middle of a pattern lets prefix and suffix overlap, and a second
  star is compared as a character (`Acl.PatternSurprises`, `Acl.SecondStarMisses`); `Acl.MeansWildcardIff`
  says exactly which patterns are right.
- Cutting records off the end of the audit log goes unnoticed by verification (`AuditChain.ChainPrefix`); a
  query limit of 0 returns one record from files and none from memory (`AuditChain.QueriesAgree`).
- Reopening takes the last number and hash from the newest audit file alone. If that file holds no readable
  record while earlier ones do, the store starts again from 0 and the next append breaks the chain;
  `AuditStore.LastOfNewest` and `AuditStore.FirstAppendChainsIff` say exactly when.
- Expiry subtracts the retention from the clock; for retentions that fit a duration but reach back before the
  earliest time the program panics (`Pitr.PitrManager.CleanupExpiredWal`).
- A topic with partitions configured twice gives two agents the same partitions (`Assigner.SharesDisjointIff`).
- The module text of the rebalancer calls `ConsistentHash` stable across topology changes; the code takes
  the hash modulo the number of nodes. Adding a node is never stable (`Placement.AddingNodesNeverStable`), and
  `Placement.HashStableIff` says exactly which changes are: no node survives, or the new number of nodes
  divides the old one and every survivor keeps its place modulo the new number.
- Two replicas disagree for some order of merging exactly when two writes share the best rank
  (`ActiveActive.ReplicasConvergeIff`).
- The lease duration is commented as 30 seconds in the lease manager; the constant, and the model, is 5 minutes.

## Model

| member | source | states |
|---|---|---|
| `SystemState.ReplaySplit` | crates/streamhouse-api/src/pitr.rs:648-652 | replaying the rest of a log onto the state after its first k entries gives the state after n |
| `Ordering.DecimalReads` | crates/streamhouse-api/src/pitr.rs:861 | a printed number is digits and reads back as the number |
| `Ordering.NumberedNameInjective` | crates/streamhouse-api/src/pitr.rs:861-911 | a name and a number printed with a separator between can be told apart again |
| `Ordering.StringLeIs` | crates/streamhouse-agent/src/rebalancer.rs:263-267 | the order of strings is decided by the first difference, a prefix first |
| `SystemState.UsersAfter` | crates/streamhouse-api/src/pitr.rs:894-905 | a user exists after a log iff a creation was not followed by a deletion, and shows the id and name last given |
| `SystemState.TopicsAfter` | crates/streamhouse-api/src/pitr.rs:804-835 | a topic exists iff a creation was not followed by a deletion, and shows, field by field, that creation with the configuration last written since |
| `SystemState.OffsetsAfter` | crates/streamhouse-api/src/pitr.rs:836-869 | a group shows an offset for a topic and partition iff a commit is the latest word on it since the group was created, and shows that offset |
| `SystemState.GroupsAfter` | crates/streamhouse-api/src/pitr.rs:836-873 | a group exists iff a creation was not followed by a deletion, and shows the id and name last given |
| `SystemState.AclsAfter` | crates/streamhouse-api/src/pitr.rs:870-893 | the access control entries are, in log order, one for each grant that no later deletion of the same resource and principal revokes, with its fields |
| `SystemState.SchemasAfter` | crates/streamhouse-api/src/pitr.rs:906-920 | a schema version is known iff it was registered, and shows the id last registered |
| `SystemState.StampedAfter` | crates/streamhouse-api/src/pitr.rs:934-935 | the state carries the number and time of the last entry |
| `OrderedMap.InsertContents` | crates/streamhouse-api/src/pitr.rs:446-449 | insertion into an ordered map keeps key order and changes exactly the entry under the key |
| `OrderedMap.LastAtMost` | crates/streamhouse-api/src/pitr.rs:699-703 | the entry with the greatest key not above the bound, or none |
| `OrderedMap.LastAfterInsert` | crates/streamhouse-api/src/pitr.rs:597-703 | after an insertion the look-up finds the new entry where it is the nearest, and elsewhere what it found before |
| `WalLayout.NewEntry` | crates/streamhouse-api/src/pitr.rs:222-252 | a new entry passes its own verification |
| `WalLayout.ChainedAppend` | crates/streamhouse-api/src/pitr.rs:489-501 | an entry carrying the next LSN and the last hash continues the chain |
| `WalLayout.CollisionIsReal` | crates/streamhouse-api/src/pitr.rs:222-262 | two verifying entries that share a hash and differ in anything hashed are a collision of the hash function |
| `WalLayout.WalBinds` | crates/streamhouse-api/src/pitr.rs:484-501 | two chained logs ending in the same hash are the same log, or contain such a collision |
| `WalLayout.SegmentBounds` | crates/streamhouse-api/src/pitr.rs:446-447 | contiguous segments are in key order and within their stretch of the history |
| `WalLayout.FlattenHistory` | crates/streamhouse-api/src/pitr.rs:759-767 | archived segments in key order hold a gap-free, duplicate-free stretch of the history |
| `WalLayout.StoresAppended` | crates/streamhouse-api/src/pitr.rs:503-506 | logging keeps archive plus active segment equal to the stored suffix of the history |
| `WalLayout.StoresRotated` | crates/streamhouse-api/src/pitr.rs:525-559 | rotation files the active segment last and keeps the stored suffix |
| `WalLayout.RetainedIsSuffix` | crates/streamhouse-api/src/pitr.rs:995-1003 | expiry removes a prefix of the archive |
| `WalLayout.VerifyEntries` | crates/streamhouse-api/src/pitr.rs:1022-1039 | one loop of verification: count, last hash and the list of errors, each with its LSN, are those of exactly the entries at or above the start |
| `WalLayout.VerifySegments` | crates/streamhouse-api/src/pitr.rs:1014-1067 | on any segments, the errors that the entries from the start on deserve, in order and by LSN; valid iff those entries form an intact chain; and how many there are |
| `WalLayout.NoErrorsIff` | crates/streamhouse-api/src/pitr.rs:1024-1036 | there is nothing to complain of iff the entries form an intact chain |
| `WalLayout.ErrorsExact` | crates/streamhouse-api/src/pitr.rs:1024-1036 | exactly the entries with a wrong hash, and those that do not name their predecessor, are reported, each under its LSN |
| `WalLayout.FromHistory` | crates/streamhouse-api/src/pitr.rs:1021-1023 | on the stored stretch, filtering by LSN takes a suffix |
| `WalLayout.StretchIntact` | crates/streamhouse-api/src/pitr.rs:1024-1036 | any stretch of a chained history is intact |
| `Pitr.UpToIsPrefix` | crates/streamhouse-api/src/pitr.rs:719-726 | entries stamped at or before a time are exactly a prefix of the history |
| `Pitr.TotalSizeSums` | crates/streamhouse-api/src/pitr.rs:508-518 | the size that decides rotation is the sum over the entries |
| `Pitr.FaithfulGrows` | crates/streamhouse-api/src/pitr.rs:484-506 | entries logged after a backup do not disturb the state at it |
| `Pitr.BackupFaithful` | crates/streamhouse-api/src/pitr.rs:597-605 | after a backup the kept snapshot is the replay up to it iff the snapshot passed in was |
| `Pitr.BackupFiled` | crates/streamhouse-api/src/pitr.rs:597-629 | filing a backup and evicting keeps every backup's log, and the newest backup is never evicted |
| `Pitr.ExpiryIsSafe` | crates/streamhouse-api/src/pitr.rs:985-1003 | expiry removes exactly the segments that are past retention and end before every backup, so no backup loses log it needs |
| `Pitr.RetainSegments` | crates/streamhouse-api/src/pitr.rs:995-1003 | the retain loop keeps what the rule keeps |
| `Pitr.RecoveryIsReplay` | crates/streamhouse-api/src/pitr.rs:632-669 | newest snapshot plus the entries after it equals replay of everything up to the target |
| `Pitr.BackupTargetExact` | crates/streamhouse-api/src/pitr.rs:685-696 | recovery to a backup by id returns that backup's state iff it is the newest |
| `Pitr.TargetBeforeNewestUnsafe` | crates/streamhouse-api/src/pitr.rs:699-715 | before the newest backup the recovered state is wrong at a backup itself, and whenever a user unknown at the target was created since and the replay does not delete it |
| `Pitr.EarlierTargetRecoversWrongly` | crates/streamhouse-api/src/pitr.rs:632-716 | for every target before the newest backup and every configuration, a run whose recovery returns another state than the replay up to the target, or no backup when one is retained |
| `Pitr.PitrManager.Create` | crates/streamhouse-api/src/pitr.rs:458-481 | a manager is made iff the interval and the retained count are not zero and the interval is within the retention, with an empty log |
| `Pitr.PitrManager.LogChange` | crates/streamhouse-api/src/pitr.rs:484-522 | the history grows by exactly the new chained entry; the segment is rotated iff its size has reached the limit; the invariant is kept |
| `Pitr.PitrManager.AppendEntry` | crates/streamhouse-api/src/pitr.rs:485-506 | the entry joins the history and the active segment |
| `Pitr.PitrManager.RotateSegment` | crates/streamhouse-api/src/pitr.rs:525-559 | the active segment moves to the end of the archive, unless empty, and a fresh one starts |
| `Pitr.PitrManager.CreateBaseBackup` | crates/streamhouse-api/src/pitr.rs:562-617 | a checkpoint is logged, the backup is filed complete under the LSN before it, and the newest backups up to the count are kept |
| `Pitr.PitrManager.EvictOldBackups` | crates/streamhouse-api/src/pitr.rs:620-629 | the newest backups up to the count remain |
| `Pitr.PitrManager.CleanupExpiredWal` | crates/streamhouse-api/src/pitr.rs:977-1011 | exactly the expired prefix of segments goes; a retention too long for a duration is refused and one that reaches before the earliest time panics, both changing nothing |
| `Pitr.PitrManager.VerifyWalIntegrity` | crates/streamhouse-api/src/pitr.rs:1014-1067 | in every reachable state verification from any LSN is valid and counts exactly the stored entries at or above it |
| `Pitr.PitrManager.StoredEntries` | crates/streamhouse-api/src/pitr.rs:759-775 | archive then active segment is exactly the history not yet expired, numbered by LSN |
| `Pitr.PitrManager.FindLsnForTimestamp` | crates/streamhouse-api/src/pitr.rs:719-742 | the number of entries stamped at or before the time, unless all of those have expired |
| `Pitr.PitrManager.SearchSegment` | crates/streamhouse-api/src/pitr.rs:721-736 | one backward loop: found means the answer for the whole history, not found means all its entries are later |
| `Pitr.PitrManager.TimestampCovered` | crates/streamhouse-api/src/pitr.rs:719-742 | any time not before the newest backup's last entry resolves, and the entries up to the result are exactly those at or before it |
| `Pitr.PitrManager.CollectEntries` | crates/streamhouse-api/src/pitr.rs:759-775 | exactly the entries above the start and up to the target, in order |
| `Pitr.PitrManager.CollectWalEntries` | crates/streamhouse-api/src/pitr.rs:745-786 | the same for every target; the sort is the identity and the chain check passes |
| `Pitr.PitrManager.WindowSorted` | crates/streamhouse-api/src/pitr.rs:777-783 | what is collected is already sorted and verifies |
| `Pitr.PitrManager.VerifyWalChain` | crates/streamhouse-api/src/pitr.rs:789-799 | succeeds iff every entry verifies |
| `Pitr.PitrManager.FindBaseBackup` | crates/streamhouse-api/src/pitr.rs:672-716 | the named backup or the last at or before the target, with the kept snapshot, and each error case |
| `Pitr.PitrManager.ReplayEntries` | crates/streamhouse-api/src/pitr.rs:648-652 | the replay loop computes the replay |
| `Pitr.PitrManager.Recover` | crates/streamhouse-api/src/pitr.rs:632-669 | the result or error for every target; from the newest backup on, to an LSN, a time or the latest, it is the fold of the whole history up to there |
| `Pitr.RunCommands` | crates/streamhouse-api/src/pitr.rs:456-629 | after any program of changes, backups and expiry the log is intact and holds exactly what was logged, in order, the snapshot is faithful, and the state is the replay of everything |
| `Placement.FindLeast` | crates/streamhouse-agent/src/rebalancer.rs:289-294 | in any iteration order, the node with the fewest partitions, ties by name |
| `Placement.LeastUnique` | crates/streamhouse-agent/src/rebalancer.rs:289-294 | there is only one such node |
| `Placement.GreedyExtends` | crates/streamhouse-agent/src/rebalancer.rs:347-357 | greedy placement adds exactly the given partitions, on live nodes |
| `Placement.GreedyLevels` | crates/streamhouse-agent/src/rebalancer.rs:347-357 | its counters equal the true loads and a node given anything is at most one above any other |
| `Placement.StickyResult` | crates/streamhouse-agent/src/rebalancer.rs:324-360 | sticky keeps every partition, changes exactly those on dead nodes, and levels what it adds |
| `Placement.StickyMovesLeast` | crates/streamhouse-agent/src/rebalancer.rs:322-345 | sticky moves exactly the orphans, and no assignment onto live nodes moves fewer |
| `Placement.StickyMinimisesMaxLoad` | crates/streamhouse-agent/src/rebalancer.rs:324-360 | among all assignments that keep the surviving placements its maximum load is minimal |
| `Placement.RoundRobinAt` | crates/streamhouse-agent/src/rebalancer.rs:261-275 | partition i of the sorted listing sits on node i mod n |
| `Placement.GreedyTakesTurns` | crates/streamhouse-agent/src/rebalancer.rs:278-301 | giving to the least loaded, starting level, is taking turns, with the exact share of every node |
| `Placement.LeastLoadedIsRoundRobin` | crates/streamhouse-agent/src/rebalancer.rs:261-301 | the two strategies return the same map, and any two loads differ by at most one |
| `Placement.HashStableIff` | crates/streamhouse-agent/src/rebalancer.rs:304-320 | for every hash, partitions on surviving nodes stay there iff no node survives or the survivors' places agree modulo a number of nodes that divides the old one |
| `Placement.SurvivorForces` | crates/streamhouse-agent/src/rebalancer.rs:315-316 | one survivor is enough to force both: two hash values one round apart must pick it |
| `Placement.AddingNodesNeverStable` | crates/streamhouse-agent/src/rebalancer.rs:304-320 | adding nodes always moves some partition off a node that is still there, for some hash |
| `Rebalancer.TargetKeys` | crates/streamhouse-agent/src/rebalancer.rs:197-202 | every strategy assigns exactly the known partitions, to live nodes |
| `Rebalancer.HashedTextInjective` | crates/streamhouse-agent/src/rebalancer.rs:313-314 | the text that is hashed tells partitions apart |
| `Rebalancer.ExecutedMoves` | crates/streamhouse-agent/src/rebalancer.rs:245-258 | execution moves the named partitions to their targets and nothing else, losing and inventing none |
| `Rebalancer.StickyRound` | crates/streamhouse-agent/src/rebalancer.rs:186-258 | a sticky round cuts the orphans by its movements and leaves the best maximum load unchanged |
| `Rebalancer.RoundProgress` | crates/streamhouse-agent/src/rebalancer.rs:186-258 | a round, under every strategy and in any map order, loses and invents no partition, cuts the misplaced ones by min(k, misplaced) and keeps the aim |
| `Rebalancer.Convergence` | crates/streamhouse-agent/src/rebalancer.rs:186-258 | after i rounds exactly max(0, m - ik) partitions are misplaced, in every run, with the same partitions and the same aim |
| `Rebalancer.BalancedAfter` | crates/streamhouse-agent/src/rebalancer.rs:222-258 | a run is balanced iff ceil(m/k) rounds have passed, and then rests at the target of the start, or for sticky at the maximum load of an untruncated run |
| `Rebalancer.PlaceAll` | crates/streamhouse-agent/src/rebalancer.rs:288-298 | the placement loop computes greedy placement |
| `Rebalancer.KeepExisting` | crates/streamhouse-agent/src/rebalancer.rs:334-345 | phase 1: survivors kept, true counts, orphans set aside in order |
| `Rebalancer.HashAll` | crates/streamhouse-agent/src/rebalancer.rs:312-317 | each partition on the node its hash selects |
| `Rebalancer.PartitionRebalancer.AssignRoundRobin` | crates/streamhouse-agent/src/rebalancer.rs:261-275 | computes round robin over the sorted listings |
| `Rebalancer.PartitionRebalancer.AssignLeastLoaded` | crates/streamhouse-agent/src/rebalancer.rs:278-301 | computes greedy placement from level |
| `Rebalancer.PartitionRebalancer.AssignConsistentHash` | crates/streamhouse-agent/src/rebalancer.rs:304-320 | each partition goes to the sorted node at the hash of its topic:partition text modulo the number of nodes |
| `Rebalancer.PartitionRebalancer.AssignSticky` | crates/streamhouse-agent/src/rebalancer.rs:324-360 | computes the sticky assignment |
| `Rebalancer.PartitionRebalancer.Difference` | crates/streamhouse-agent/src/rebalancer.rs:204-220 | in any order, one movement for each misplaced partition, and a count of the rest |
| `Rebalancer.PartitionRebalancer.ComputeRebalance` | crates/streamhouse-agent/src/rebalancer.rs:186-242 | a plan of min(k, misplaced) movements towards the target; balanced iff nothing is misplaced; no nodes means nothing to do |
| `Rebalancer.PartitionRebalancer.ExecutePlan` | crates/streamhouse-agent/src/rebalancer.rs:245-258 | the movements are carried out in order |
| `Rebalancer.RebalanceUntilBalanced` | crates/streamhouse-agent/src/rebalancer.rs:186-258 | computing and executing until a plan reports balance takes exactly ceil(m/k) executions, keeps every partition and ends where the strategy aimed |
| `Leader.StepInv` | crates/streamhouse-api/src/leader.rs:347-569 | every step keeps: tokens at most the record's, equal exactly for its owner, and no live lease for an owner that stepped down |
| `Leader.RunInv` | crates/streamhouse-api/src/leader.rs:347-662 | the fencing invariant in every reachable state of N nodes |
| `Leader.StepRecord` | crates/streamhouse-api/src/leader.rs:410-569 | a step leaves the record, or, by a leading owner in time, renews it for the whole lease, or, by one that gives up, ends it, or, by a campaigning node that does not lead, starts the next term of a lapsed lease |
| `Leader.DeposedChangesNothing` | crates/streamhouse-api/src/leader.rs:462-569 | a deposed node's renew, release, stop or tick while leading leaves the record and every other node as they were |
| `Leader.CampaignSucceedsIff` | crates/streamhouse-api/src/leader.rs:410-441 | a node that does not lead and campaigns ends up leading iff there is no record or its lease has run out, with the next term and a full lease |
| `Leader.TickKeepsLeadingIff` | crates/streamhouse-api/src/leader.rs:632-650 | a leader's tick keeps it leading iff the record is its own and has not lapsed, with a full lease from then on |
| `Leader.RenewalProtects` | crates/streamhouse-api/src/leader.rs:474-506 | after a renewal, until its lease is over, no steps of others change the record or make anyone lead, and a further renewal succeeds |
| `Leader.LeaderStays` | crates/streamhouse-api/src/leader.rs:632-654 | a leader that keeps renewing in time leads on in the same term, under the same token, and nobody else becomes leader |
| `Leader.GivingUpFrees` | crates/streamhouse-api/src/leader.rs:520-569 | after a leader gives up, whoever campaigns next succeeds, at any time, in the next term |
| `Leader.TermsIncrease` | crates/streamhouse-api/src/leader.rs:427-438 | terms never go back and a term keeps its owner, over every run |
| `Leader.StepTokens` | crates/streamhouse-api/src/leader.rs:347-386 | only the stepping node changes, and becoming leader always brings the token after the record's |
| `Leader.NewGuardValidIff` | crates/streamhouse-api/src/leader.rs:697-714 | a guard is handed out iff the node leads, and is valid at once |
| `Leader.IssuedTokensIncrease` | crates/streamhouse-api/src/leader.rs:427-438 | over every run, the token of a later acquisition is above that of an earlier one, whoever acquires |
| `Leader.TokenHolders` | crates/streamhouse-api/src/leader.rs:427-429 | no two nodes ever hold the same token |
| `Leader.TokenNeverFalls` | crates/streamhouse-api/src/leader.rs:427-429 | a node's token never goes back |
| `Leader.GuardsAreFenced` | crates/streamhouse-api/src/leader.rs:695-720 | valid guards hold distinct tokens, at most the record's, equal exactly for the owner |
| `Leader.LapsedGuardStaysLapsed` | crates/streamhouse-api/src/leader.rs:695-714 | a guard that has lapsed is never valid again |
| `Leader.AcquiredTokenIsRecords` | crates/streamhouse-api/src/leader.rs:415-429 | a new leader holds the record's token iff it did not find its own id on a live record under another token |
| `Leader.FreshTokenZeroIff` | crates/streamhouse-api/src/leader.rs:415-429 | a fresh instance leads with token 0 iff it finds its own id on an unexpired record |
| `Leader.LoneNodeAlwaysAcquires` | crates/streamhouse-api/src/leader.rs:410-441 | alone with its record, a node that tries to acquire ends up leading, from every reachable state |
| `Leader.OwnRecordsExcludeNobody` | crates/streamhouse-api/src/leader.rs:289-317 | two instances with records of their own both lead after trying, with token 1 each if neither has led |
| `Leader.LeaderElection.TryAcquireMemory` | crates/streamhouse-api/src/leader.rs:410-441 | the record and token afterwards, whether the record is the instance's own or shared |
| `Leader.LeaderElection.TryAcquire` | crates/streamhouse-api/src/leader.rs:347-386 | the step of the runs above, and whether the node leads |
| `Leader.LeaderElection.Renew` | crates/streamhouse-api/src/leader.rs:462-506 | extends its own unexpired lease or fails with the right error and no change |
| `Leader.LeaderElection.Release` | crates/streamhouse-api/src/leader.rs:520-569 | ends its own lease, keeping the token on record |
| `Leader.LeaderElection.RunTick` | crates/streamhouse-api/src/leader.rs:632-654 | renew when leading and step down on failure, else try to acquire |
| `Leader.LeaderElection.RunStop` | crates/streamhouse-api/src/leader.rs:627-659 | release, then stopped |
| `LeaseCache.InvIsExclusive` | crates/streamhouse-agent/src/lease_manager.rs:771-788 | if live cached leases are backed by their own rows, at most one agent validates at any time from now on |
| `LeaseCache.StepInv` | crates/streamhouse-agent/src/lease_manager.rs:144-248 | every step by any agent keeps the backing, completions when safe |
| `LeaseCache.LeasesAreExclusive` | crates/streamhouse-agent/src/lease_manager.rs:144-248 | in every run whose completions are safe, at most one agent validates for a partition |
| `LeaseCache.GrantedIff` | crates/streamhouse-metadata/src/store.rs:1225-1299 | the store grants iff the lease is free, lapsed or the caller's own, for the duration, under the next epoch; each refusal with its error |
| `LeaseCache.EnsuredEpochValidates` | crates/streamhouse-agent/src/lease_manager.rs:144-225 | ensure_lease answers iff the lease is cached or can be granted; the epoch answered validates until the lease ends, and when newly granted is that of the agent's own row |
| `LeaseCache.AcquiredEpochValidates` | crates/streamhouse-agent/src/lease_manager.rs:170-225 | the same for acquire_lease: the epoch answered is the row's and validates for the whole lease |
| `LeaseCache.RenewedOrEvicted` | crates/streamhouse-agent/src/lease_manager.rs:639-689 | a renewal is a fresh grant, or changes no row and evicts iff the cached lease has expired |
| `LeaseCache.RowSafeIff` | crates/streamhouse-metadata/src/store.rs:3010-3025 | whether a completion is safe whatever the agents have cached, told from the lease row alone |
| `LeaseCache.RowChecksKeepExclusive` | crates/streamhouse-agent/src/lease_manager.rs:379-414 | in every run whose completions look at the row first, at most one agent validates for a partition |
| `LeaseCache.HolderCompletesSafely` | crates/streamhouse-agent/src/lease_manager.rs:379-414 | a completion by the agent that holds the lease is safe |
| `LeaseCache.CompletionKeeps` | crates/streamhouse-metadata/src/store.rs:2971-3054 | a safe completion keeps every agent's backing |
| `LeaseCache.UnsafeCompletion` | crates/streamhouse-metadata/src/store.rs:3010-3025 | after an unsafe completion one call of ensure_lease makes two agents validate |
| `LeaseCache.CompletionSafeIff` | crates/streamhouse-metadata/src/postgres.rs:2029-2083 | on either store, safe iff no next ensure_lease can produce two holders |
| `LeaseCache.LateCompletionSplitsBrain` | crates/streamhouse-metadata/src/store.rs:3010-3025 | a run in which the transfer's own source completes too late and two agents end up validating |
| `LeaseCache.ShortenedRowSplitsBrain` | crates/streamhouse-metadata/src/postgres.rs:2051-2080 | a Postgres run in which the source completes late, the target's row is cut to the handoff time, and two agents end up validating |
| `LeaseCache.CompletionMovesIff` | crates/streamhouse-metadata/src/postgres.rs:2029-2083 | an accepted transfer is recorded as completed in every case; on SQLite the target then holds the lease iff there was a row, on Postgres the call succeeds and the target holds it iff it did already |
| `LeaseCache.PostgresLeaseStays` | crates/streamhouse-metadata/src/postgres.rs:2051-2080 | on Postgres no step but its holder's release takes an unexpired lease away |
| `LeaseCache.CompletedNotMoved` | crates/streamhouse-metadata/src/postgres.rs:2051-2080 | a Postgres run that ends completed with the source still holding the lease |
| `LeaseCache.CompletedNothingMoved` | crates/streamhouse-metadata/src/store.rs:3010-3032 | a SQLite run that ends completed, successfully, with no lease at all |
| `LeaseCache.TransferStep` | crates/streamhouse-metadata/src/store.rs:2839-3110 | the only ways a transfer moves on, each with the agent and time that may do it |
| `LeaseCache.AcceptedByTarget` | crates/streamhouse-metadata/src/store.rs:2916-2969 | over every run only its target, in time on SQLite, makes a transfer accepted, so only then is it completed |
| `LeaseCache.OfferedByHolder` | crates/streamhouse-metadata/src/store.rs:2839-2914 | over every run a transfer was offered by the holder of the unexpired lease, whose epoch it carries |
| `LeaseCache.OneTransferAtATime` | crates/streamhouse-metadata/src/store.rs:2839-2914 | over every SQLite run a partition has at most one transfer on its way |
| `LeaseCache.EpochAdvancesIff` | crates/streamhouse-metadata/src/store.rs:1265-1269 | a step moves a partition's epoch on iff it is neither its holder's release nor a SQLite completion whose epoch has been passed |
| `LeaseCache.RowsAdvance` | crates/streamhouse-metadata/src/store.rs:1246-1270 | over every run without such steps a partition's row stays or changes under a higher epoch |
| `LeaseCache.CachedFromRow` | crates/streamhouse-agent/src/lease_manager.rs:170-225 | every cached lease was granted at some point of the run and has been cached since |
| `LeaseCache.OneAgentPerEpoch` | crates/streamhouse-agent/src/lease_manager.rs:6-12 | over such runs no epoch of a partition is granted to two agents |
| `LeaseCache.EpochsFence` | crates/streamhouse-agent/src/lease_manager.rs:771-788 | over such runs with safe completions, an agent that validates after another one did has the higher epoch |
| `LeaseCache.EpochStaysValidIff` | crates/streamhouse-agent/src/lease_manager.rs:771-788 | a valid epoch stays valid through a step iff the step is not its agent's renewal, release, successful completion or restart |
| `LeaseCache.RewindReusesEpoch` | crates/streamhouse-metadata/src/store.rs:1338-1354 | after any step that rewinds, the epoch in force before it can be granted to another agent: anyone after a release, the target after a completion |
| `LeaseCache.CompletionReusesEpoch` | crates/streamhouse-metadata/src/store.rs:3010-3025 | a SQLite run of safe completions and no release in which one epoch validates for two agents |
| `LeaseCache.ReleaseReusesEpoch` | crates/streamhouse-metadata/src/store.rs:1338-1354 | a run in which a release lets epoch 1 validate for two agents |
| `LeaseCache.MetadataStore.AcquirePartitionLease` | crates/streamhouse-metadata/src/store.rs:1225-1299 | a free, lapsed or own lease is granted with the next epoch, any other refused |
| `LeaseCache.MetadataStore.ReleasePartitionLease` | crates/streamhouse-metadata/src/store.rs:1338-1364 | deletes the agent's own row, else not found |
| `LeaseCache.MetadataStore.CompleteLeaseTransfer` | crates/streamhouse-metadata/src/store.rs:2971-3054 | the rows and the transfer after completion, on either store |
| `LeaseCache.LeaseManager.EnsureLease` | crates/streamhouse-agent/src/lease_manager.rs:144-167 | succeeds iff the lease is cached or can be granted, and the epoch returned then validates |
| `LeaseCache.LeaseManager.AcquireLease` | crates/streamhouse-agent/src/lease_manager.rs:170-225 | the granted row is the agent's own, with the epoch returned, which validates; a refusal changes nothing |
| `LeaseCache.LeaseManager.ReleaseLease` | crates/streamhouse-agent/src/lease_manager.rs:228-248 | the cache entry goes first, then the row if the store answers; the store's refusal is returned |
| `LeaseCache.LeaseManager.ValidateEpoch` | crates/streamhouse-agent/src/lease_manager.rs:771-788 | succeeds iff a live cached lease has the expected epoch |
| `LeaseCache.LeaseManager.CompleteTransfer` | crates/streamhouse-agent/src/lease_manager.rs:379-414 | the tables, the cache and the result afterwards |
| `LeaseCache.LeaseManager.RenewLease` | crates/streamhouse-agent/src/lease_manager.rs:639-689 | renewal, evicting on failure only what has expired |
| `LeaseCache.LeaseManager.RenewalCycle` | crates/streamhouse-agent/src/lease_manager.rs:614-689 | exactly the leases live at the start are renewed, each once, in some order |
| `AuditChain.NewRecord` | crates/streamhouse-api/src/audit_store.rs:231-255 | a new record passes its own verification |
| `AuditChain.ChainStep` | crates/streamhouse-api/src/audit_store.rs:702-726 | a log with one more record is a chain iff it was and the record names the last hash and verifies |
| `AuditChain.ChainPrefix` | crates/streamhouse-api/src/audit_store.rs:665-736 | a chain cut short is still a chain |
| `AuditChain.ChainBinds` | crates/streamhouse-api/src/audit_store.rs:231-255 | two chains ending in the same hash are equal in every hashed field, or exhibit a collision or an empty hash |
| `AuditChain.GoodHashBinds` | crates/streamhouse-api/src/audit_store.rs:231-255 | with an injective hash that is never empty they are equal |
| `AuditChain.WriteGoesLast` | crates/streamhouse-api/src/audit_store.rs:553-563 | a line written to the newest file, new or not, comes last in the directory |
| `AuditChain.WrittenIs` | crates/streamhouse-api/src/audit_store.rs:553-573 | a line goes to the end of its own file and no other file changes |
| `AuditChain.QueriesAgree` | crates/streamhouse-api/src/audit_store.rs:610-654 | file and memory queries agree iff the limit is positive or nothing matches beyond the offset |
| `AuditChain.TimeFilters` | crates/streamhouse-api/src/audit_store.rs:341-351 | since includes its bound, until excludes it, and without filters everything matches |
| `AuditChain.FieldFilters` | crates/streamhouse-api/src/audit_store.rs:352-377 | each other filter asks for its field of the entry, whatever the rest ask |
| `AuditChain.ContainsIff` | crates/streamhouse-api/src/audit_store.rs:367-371 | the path contains the pattern iff the pattern stands somewhere in it |
| `AuditChain.FilterExact` | crates/streamhouse-api/src/audit_store.rs:642-654 | what passes the filter is exactly the matching records, in log order |
| `AuditChain.QueryReturns` | crates/streamhouse-api/src/audit_store.rs:642-654 | how many records a query returns and which, with and without limit and offset |
| `AuditStore.VerdictExact` | crates/streamhouse-api/src/audit_store.rs:665-736 | valid iff every line can be read and the records form a chain |
| `AuditStore.CheckLine` | crates/streamhouse-api/src/audit_store.rs:696-727 | one line against the chain so far |
| `AuditStore.VerifyFiles` | crates/streamhouse-api/src/audit_store.rs:665-736 | on any directory, the verdict of its first bad line with the right complaint, or valid with the number of records |
| `AuditStore.VerifyMemory` | crates/streamhouse-api/src/audit_store.rs:739-776 | valid iff the log is a chain; otherwise the length of its longest good prefix, the record after it and what is wrong with it |
| `AuditStore.QueryFile` | crates/streamhouse-api/src/audit_store.rs:619-635 | one file's loop: what is found so far is the page of the log so far |
| `AuditStore.QueryFiles` | crates/streamhouse-api/src/audit_store.rs:592-639 | with early exit across files, still filter, skip and take over the whole log |
| `AuditStore.WriteKeeps` | crates/streamhouse-api/src/audit_store.rs:511-573 | writing the next record to the newest file keeps the directory one chain |
| `AuditStore.LastOfNewest` | crates/streamhouse-api/src/audit_store.rs:465-502 | on any directory, the newest file tells the last number and hash of the log iff it holds a record or there is none to tell |
| `AuditStore.FirstAppendChainsIff` | crates/streamhouse-api/src/audit_store.rs:465-519 | the first append after reopening continues the chain iff the newest file holds a record or the log ends in no hash |
| `AuditStore.AuditStore.LoadFileState` | crates/streamhouse-api/src/audit_store.rs:482-502 | the number and hash of a file's last record, past blank and unreadable lines |
| `AuditStore.AuditStore.InitFileBackend` | crates/streamhouse-api/src/audit_store.rs:447-479 | on any directory, the state of the newest file, or a first file; one left by this store gives back the true last number and hash |
| `AuditStore.AuditStore.Open` | crates/streamhouse-api/src/audit_store.rs:411-444 | such a directory opens; with verification on, one that does not verify is refused, and only that |
| `AuditStore.AuditStore.Append` | crates/streamhouse-api/src/audit_store.rs:511-581 | the log grows by exactly the next record, at the end of the file that the size limit decides |
| `AuditStore.AuditStore.VerifyChain` | crates/streamhouse-api/src/audit_store.rs:657-736 | on a store in use always valid, counting every record |
| `AuditStore.RunCommands` | crates/streamhouse-api/src/audit_store.rs:411-581 | after any appends and reopenings, one chain that holds the appended entries in order |
| `Assigner.SharesAgree` | crates/streamhouse-agent/src/assigner.rs:381-394 | lists in any order give the same share |
| `Assigner.SharesPartition` | crates/streamhouse-agent/src/assigner.rs:358-394 | without repeats, shares are disjoint, cover every partition, and have floor(P/N) or ceil(P/N) members |
| `Assigner.TakenSize` | crates/streamhouse-agent/src/assigner.rs:388-394 | the exact size of each agent's share |
| `Assigner.ShareIs` | crates/streamhouse-agent/src/assigner.rs:388-394 | partition i of the sorted list is the turn of agent i mod n of the sorted agents |
| `Assigner.PartitionsIn` | crates/streamhouse-agent/src/assigner.rs:362-379 | the partitions listed are exactly those below the count of each topic found |
| `Assigner.RepeatsFromTopics` | crates/streamhouse-agent/src/assigner.rs:362-379 | the partition list has repeats iff a topic with partitions is named twice |
| `Assigner.SharesDisjointIff` | crates/streamhouse-agent/src/assigner.rs:358-394 | shares are disjoint iff there is one agent or no topic with partitions is named twice |
| `Assigner.RepeatIsNoOp` | crates/streamhouse-agent/src/assigner.rs:290-343 | a successful rebalance repeated on the same report changes nothing |
| `Assigner.RebalanceOutcome` | crates/streamhouse-agent/src/assigner.rs:273-493 | success leaves the task holding its share and every agent at its place; failure means a failed look-up and changes nothing; only changes are counted |
| `Assigner.RebalanceAll` | crates/streamhouse-agent/src/assigner.rs:288-482 | when every agent's task has rebalanced on the same report, what they hold is disjoint, covers every partition and is fair |
| `Assigner.RunConserves` | crates/streamhouse-agent/src/assigner.rs:466-482 | over every run gained minus lost is the number of partitions assigned |
| `Assigner.CollectPartitions` | crates/streamhouse-agent/src/assigner.rs:362-379 | the partitions of the topics found, and whether a look-up failed |
| `Assigner.TakeTurns` | crates/streamhouse-agent/src/assigner.rs:388-394 | the round-robin loop computes the share |
| `Assigner.RebalanceTask.PerformRebalance` | crates/streamhouse-agent/src/assigner.rs:273-493 | the share held, the topology, the counts and the answer, from any state; the state of the runs above |
| `Acl.PatternMeaning` | crates/streamhouse-api/src/acl.rs:241-263 | for every pattern, a match is a wildcard match or a value too short for both ends of a middle star; with at most one star every wildcard match is found |
| `Acl.MeansWildcardIff` | crates/streamhouse-api/src/acl.rs:241-263 | a pattern accepts exactly what its wildcards stand for iff it has no star, one star at an end, or one star inside whose two ends cannot overlap |
| `Acl.SecondStarMisses` | crates/streamhouse-api/src/acl.rs:241-263 | with two stars or more, the text without the stars is a wildcard match and is refused |
| `Acl.ManyStars` | crates/streamhouse-api/src/acl.rs:241-263 | with two stars or more, exactly one star at an end stands for any text and every other for itself |
| `Acl.PatternSurprises` | crates/streamhouse-api/src/acl.rs:241-263 | an overlapping match, and a two-star pattern that misses |
| `Acl.KeyInjective` | crates/streamhouse-api/src/acl.rs:110-177 | different requests print different cache keys |
| `Acl.FindMatch` | crates/streamhouse-api/src/acl.rs:433-450 | the first matching entry with the permission, or none |
| `Acl.ResourceMatchesIff` | crates/streamhouse-api/src/acl.rs:65-82 | a resource pattern covers everything, or resources of the same kind: the cluster, or those whose names it matches |
| `Acl.ActionMatchesIff` | crates/streamhouse-api/src/acl.rs:139-144 | an action pattern covers every action or its own |
| `Acl.EntryMeaning` | crates/streamhouse-api/src/acl.rs:233-263 | for patterns that mean their wildcards, who, what and which action an entry speaks of |
| `Acl.BesideIgnored` | crates/streamhouse-api/src/acl.rs:433-450 | entries about other kinds of resource or other actions, wherever they stand, never change an answer |
| `Acl.AclChecker.AddEntry` | crates/streamhouse-api/src/acl.rs:339-347 | the entry is added and no stale answer stays cached |
| `Acl.AclChecker.RemoveEntry` | crates/streamhouse-api/src/acl.rs:350-365 | entries with the id go; keeping the cache when nothing went is sound |
| `Acl.RetainTakes` | crates/streamhouse-api/src/acl.rs:350-365 | removal takes every entry with the id, wherever it stands, and keeps the others in place |
| `Acl.AclChecker.Clear` | crates/streamhouse-api/src/acl.rs:471-478 | no entries and no stale answer |
| `Acl.AclChecker.Check` | crates/streamhouse-api/src/acl.rs:401-463 | the decision, the deciding entry and the reason are those of the current entries, cached or not |
| `Acl.RunCommands` | crates/streamhouse-api/src/acl.rs:339-478 | over every run of additions, removals, clearings and checks, each answer is that of the entries of its time |
| `Acl.DecisionUnique` | crates/streamhouse-api/src/acl.rs:433-463 | the entries fix the decision and the entry it rests on |
| `Acl.AnswersUnique` | crates/streamhouse-api/src/acl.rs:401-463 | any two runs of the same commands give the same answers, whatever is cached |
| `Failover.HealthOfHistory` | crates/streamhouse-api/src/failover.rs:561-612 | status, failure count and times as functions of the history of checks |
| `Failover.EventsAlternate` | crates/streamhouse-api/src/failover.rs:574-607 | NodeDown and NodeUp alternate from NodeDown, the last being NodeDown iff the node is Unhealthy |
| `Failover.ChangesReported` | crates/streamhouse-api/src/failover.rs:574-607 | a change of status is reported by the check that made it, with the status before and after, unless the node was unknown |
| `Failover.DownExactlyAtThreshold` | crates/streamhouse-api/src/failover.rs:590-607 | NodeDown is sent exactly when the run of failures after a healthy check reaches the threshold |
| `Failover.FailoverManager.UpdateNodeHealth` | crates/streamhouse-api/src/failover.rs:561-612 | the node and the events after one check; unknown nodes are ignored |
| `Failover.FailoverManager.RunHealthChecks` | crates/streamhouse-api/src/failover.rs:544-550 | each node is checked exactly once, with exactly its events, in any order |
| `Failover.RunRounds` | crates/streamhouse-api/src/failover.rs:544-612 | after any rounds of checks from registration, every node and the events about it are those of its history |
| `ActiveActive.Position` | crates/streamhouse-api/src/active_active.rs:193-200 | the first place of a region in the list, or none |
| `ActiveActive.ResolveIsRank` | crates/streamhouse-api/src/active_active.rs:168-222 | both resolvers compare ranks, with ties kept local |
| `ActiveActive.ResolutionIsPreorder` | crates/streamhouse-api/src/active_active.rs:168-222 | which of two writes is kept is total and transitive |
| `ActiveActive.PairAgreesIff` | crates/streamhouse-api/src/active_active.rs:168-222 | two replicas agree on each other's writes iff the ranks differ or the writes are equal |
| `ActiveActive.OutcomeIsBest` | crates/streamhouse-api/src/active_active.rs:168-222 | any order of merging keeps a write of best rank |
| `ActiveActive.WinnerMeaning` | crates/streamhouse-api/src/active_active.rs:168-222 | in any order of merging nobody wrote later than the winner, or no region before the winner's has written |
| `ActiveActive.ReplicasConvergeIff` | crates/streamhouse-api/src/active_active.rs:168-222 | replicas that merged the same writes hold the same one, in any order of merging, iff no two writes share the best rank |
| `ActiveActive.BestHeldFirst` | crates/streamhouse-api/src/active_active.rs:171-175 | a best write held first is kept through everything else, ties included |
| `ActiveActive.DistinctRanksConverge` | crates/streamhouse-api/src/active_active.rs:168-222 | distinct ranks are enough for agreement |

## Left out

- Interleavings inside one public method: several take their locks more than once; each method is one step here.
- File system and database failures, lock poisoning, tracing, metrics, task spawning, shutdown signals and event delivery.
- Segment ids and the actual compression of backups: never read back by the modelled code.
- `Pitr.PitrManager.LogChange`: the check of a freshly built entry when `verify_wal` is set cannot fail with a deterministic hash and is not a branch.
- `Leader.LeaderElection.TryAcquire`: the record is an object of its own here, so that instances may share it as the design intends; in the code each instance has one. The Postgres backend is not modelled apart; the code falls back to the in-memory record. Instants kept for reporting are dropped.
- Initiating, accepting, rejecting and timing out lease transfers are steps of the runs in `LeaseCache.dfy` as functions, without a class method each; on Postgres a rejection is open to anyone here.
- `AuditStore.AuditStore.Append`: file names are the seconds they print; that the printed form sorts like the time is assumed.
- `Assigner.RebalanceTask.PerformRebalance`: the lease calls it makes do not enter the recorded state and are not modelled; failed acquisitions stay recorded as assigned.
- Failover triggering after a health check, and the region registry and counters of the active-active coordinator: they add only easy members.
- Node load metrics and the rack and imbalance settings of the rebalancer: no strategy reads them.
- Transactions, connection pools, authentication, routing, storage, SQL and the protocol servers: separate subsystems.
