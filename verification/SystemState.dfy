/**
 The metadata that point-in-time recovery protects: the logged operations, the snapshot they
 act on, and replay of a log onto a snapshot (crates/streamhouse-api/src/pitr.rs).
 */
module SystemState {
  import opened Ordering

  /** serde_json::Value, with integer numbers (the only ones the operations write). */
  datatype Json =
    | JNull
    | JBool(b: bool)
    | JNumber(n: int)
    | JString(s: string)
    | JArray(items: seq<Json>)
    | JObject(fields: map<string, Json>)

  datatype WalOperation =
    | TopicCreated(topicId: string, topicName: string, partitions: nat, replicationFactor: nat, config: Json)
    | TopicDeleted(topicId: string, topicName: string)
    | TopicConfigUpdated(topicId: string, oldConfig: Json, newConfig: Json)
    | ConsumerGroupCreated(groupId: string, groupName: string)
    | ConsumerGroupOffsetCommitted(groupId: string, topic: string, partition: nat, offset: int)
    | ConsumerGroupDeleted(groupId: string)
    | AclCreated(resourceType: string, resourceName: string, principal: string, permission: string)
    | AclDeleted(resourceType: string, resourceName: string, principal: string)
    | UserCreated(userId: string, username: string)
    | UserDeleted(userId: string)
    | SchemaRegistered(subject: string, version: nat, schemaId: nat)
    | Custom(operationType: string, data: Json)
    | Checkpoint(backupId: string)

  datatype WalEntry = WalEntry(lsn: nat, timestamp: int, operation: WalOperation, prevHash: string, hash: string)

  datatype SystemSnapshot = SystemSnapshot(
    topics: map<string, Json>,
    consumerGroups: map<string, Json>,
    acls: seq<Json>,
    users: map<string, Json>,
    schemas: map<string, Json>,
    lsn: nat,
    timestamp: int)

  /** SystemSnapshot::default(). */
  const EMPTY := SystemSnapshot(map[], map[], [], map[], map[], 0, 0)

  /** `format!("{}-{}", name, n)`, the key of an offset and of a schema version. */
  function DashKey(name: string, n: nat): string {
    name + "-" + Decimal(n)
  }

  /** `value.get(key).and_then(as_str)`. */
  function StringField(j: Json, key: string): Option<string> {
    if j.JObject? && key in j.fields && j.fields[key].JString? then Some(j.fields[key].s) else None
  }

  function TopicJson(id: string, name: string, partitions: nat, replicationFactor: nat, config: Json): Json {
    JObject(map["id" := JString(id), "name" := JString(name), "partitions" := JNumber(partitions),
                "replication_factor" := JNumber(replicationFactor), "config" := config])
  }

  function GroupJson(id: string, name: string): Json {
    JObject(map["id" := JString(id), "name" := JString(name), "offsets" := JObject(map[])])
  }

  function AclJson(resourceType: string, resourceName: string, principal: string, permission: string): Json {
    JObject(map["resource_type" := JString(resourceType), "resource_name" := JString(resourceName),
                "principal" := JString(principal), "permission" := JString(permission)])
  }

  function UserJson(id: string, name: string): Json {
    JObject(map["id" := JString(id), "username" := JString(name)])
  }

  function SchemaJson(subject: string, version: nat, schemaId: nat): Json {
    JObject(map["subject" := JString(subject), "version" := JNumber(version), "schema_id" := JNumber(schemaId)])
  }

  /** A group with one more committed offset; a group that is not an object is left as it is. */
  function CommitOffset(group: Json, key: string, offset: int): Json {
    if !group.JObject? then group
    else
      var offsets := if "offsets" in group.fields then group.fields["offsets"] else JObject(map[]);
      var updated := if offsets.JObject? then JObject(offsets.fields[key := JNumber(offset)]) else offsets;
      JObject(group.fields["offsets" := updated])
  }

  predicate AclNames(acl: Json, resourceType: string, resourceName: string, principal: string) {
    && StringField(acl, "resource_type") == Some(resourceType)
    && StringField(acl, "resource_name") == Some(resourceName)
    && StringField(acl, "principal") == Some(principal)
  }

  function RetainAcls(acls: seq<Json>, resourceType: string, resourceName: string, principal: string): seq<Json> {
    if acls == [] then []
    else
      var rest := RetainAcls(acls[1..], resourceType, resourceName, principal);
      if AclNames(acls[0], resourceType, resourceName, principal) then rest else [acls[0]] + rest
  }

  function ApplyOperation(s: SystemSnapshot, op: WalOperation): SystemSnapshot {
    match op
    case TopicCreated(id, name, partitions, replicationFactor, config) =>
      s.(topics := s.topics[id := TopicJson(id, name, partitions, replicationFactor, config)])
    case TopicDeleted(id, _) =>
      s.(topics := s.topics - {id})
    case TopicConfigUpdated(id, _, newConfig) =>
      if id in s.topics && s.topics[id].JObject?
      then s.(topics := s.topics[id := JObject(s.topics[id].fields["config" := newConfig])])
      else s
    case ConsumerGroupCreated(id, name) =>
      s.(consumerGroups := s.consumerGroups[id := GroupJson(id, name)])
    case ConsumerGroupOffsetCommitted(id, topic, partition, offset) =>
      if id in s.consumerGroups
      then s.(consumerGroups := s.consumerGroups[id := CommitOffset(s.consumerGroups[id], DashKey(topic, partition), offset)])
      else s
    case ConsumerGroupDeleted(id) =>
      s.(consumerGroups := s.consumerGroups - {id})
    case AclCreated(resourceType, resourceName, principal, permission) =>
      s.(acls := s.acls + [AclJson(resourceType, resourceName, principal, permission)])
    case AclDeleted(resourceType, resourceName, principal) =>
      s.(acls := RetainAcls(s.acls, resourceType, resourceName, principal))
    case UserCreated(id, name) =>
      s.(users := s.users[id := UserJson(id, name)])
    case UserDeleted(id) =>
      s.(users := s.users - {id})
    case SchemaRegistered(subject, version, schemaId) =>
      s.(schemas := s.schemas[DashKey(subject, version) := SchemaJson(subject, version, schemaId)])
    case Custom(_, _) => s
    case Checkpoint(_) => s
  }

  function Apply(s: SystemSnapshot, e: WalEntry): SystemSnapshot {
    ApplyOperation(s, e.operation).(lsn := e.lsn, timestamp := e.timestamp)
  }

  /** The reference semantics of a log: apply its entries in order. */
  function Replay(s: SystemSnapshot, log: seq<WalEntry>): SystemSnapshot {
    if log == [] then s else Apply(Replay(s, log[..|log| - 1]), log[|log| - 1])
  }

  predicate OnTopics(op: WalOperation) { op.TopicCreated? || op.TopicDeleted? || op.TopicConfigUpdated? }

  predicate OnGroups(op: WalOperation) { op.ConsumerGroupCreated? || op.ConsumerGroupOffsetCommitted? || op.ConsumerGroupDeleted? }

  predicate OnUsers(op: WalOperation) { op.UserCreated? || op.UserDeleted? }

  predicate OnAcls(op: WalOperation) { op.AclCreated? || op.AclDeleted? }

  /** What an operation is not about it leaves alone. */
  lemma TopicsUntouched(s: SystemSnapshot, op: WalOperation)
    requires !OnTopics(op)
    ensures ApplyOperation(s, op).topics == s.topics
  {
  }

  lemma GroupsUntouched(s: SystemSnapshot, op: WalOperation)
    requires !OnGroups(op)
    ensures ApplyOperation(s, op).consumerGroups == s.consumerGroups
  {
  }

  lemma UsersUntouched(s: SystemSnapshot, op: WalOperation)
    requires !OnUsers(op)
    ensures ApplyOperation(s, op).users == s.users
  {
  }

  lemma AclsUntouched(s: SystemSnapshot, op: WalOperation)
    requires !OnAcls(op)
    ensures ApplyOperation(s, op).acls == s.acls
  {
  }

  lemma SchemasUntouched(s: SystemSnapshot, op: WalOperation)
    requires !op.SchemaRegistered?
    ensures ApplyOperation(s, op).schemas == s.schemas
  {
  }

  lemma {:induction false} ReplayConcat(s: SystemSnapshot, a: seq<WalEntry>, b: seq<WalEntry>)
    ensures Replay(s, a + b) == Replay(Replay(s, a), b)
  {
    if b == [] {
      assert a + b == a;
    } else {
      var c := b[..|b| - 1];
      ReplayConcat(s, a, c);
      assert (a + b)[..|a + b| - 1] == a + c;
    }
  }

  /** Replaying the rest of a log onto the state after its first `k` entries gives the state after `n`. */
  lemma ReplaySplit(s: SystemSnapshot, log: seq<WalEntry>, k: nat, n: nat)
    requires k <= n <= |log|
    ensures Replay(Replay(s, log[..k]), log[k..n]) == Replay(s, log[..n])
  {
    ReplayConcat(s, log[..k], log[k..n]);
    assert log[..k] + log[k..n] == log[..n];
  }

  // ---------- what a replayed log means, entity by entity ----------

  ghost predicate CreatesUser(e: WalEntry, id: string) {
    e.operation.UserCreated? && e.operation.userId == id
  }

  ghost predicate DeletesUser(e: WalEntry, id: string) {
    e.operation.UserDeleted? && e.operation.userId == id
  }

  /** The user as an entry describes it, field by field. */
  ghost predicate ShowsUser(j: Json, e: WalEntry)
    requires e.operation.UserCreated?
  {
    && j.JObject? && j.fields.Keys == {"id", "username"}
    && j.fields["id"] == JString(e.operation.userId) && j.fields["username"] == JString(e.operation.username)
  }

  /** Entry `i` creates the user and nothing later creates or deletes it. */
  ghost predicate LatestUser(log: seq<WalEntry>, id: string, i: int) {
    && 0 <= i < |log| && CreatesUser(log[i], id)
    && forall j :: i < j < |log| ==> !CreatesUser(log[j], id) && !DeletesUser(log[j], id)
  }

  /** How one entry changes a user. */
  lemma UserEffect(s: SystemSnapshot, e: WalEntry, id: string)
    ensures id in Apply(s, e).users <==> CreatesUser(e, id) || (id in s.users && !DeletesUser(e, id))
    ensures CreatesUser(e, id) ==> ShowsUser(Apply(s, e).users[id], e)
    ensures !CreatesUser(e, id) && !DeletesUser(e, id) && id in s.users ==> Apply(s, e).users[id] == s.users[id]
  {
    var op := e.operation;
    if op.UserCreated? {
      assert Apply(s, e).users == s.users[op.userId := UserJson(op.userId, op.username)];
    } else if op.UserDeleted? {
      assert Apply(s, e).users == s.users - {op.userId};
    } else {
      UsersUntouched(s, op);
    }
  }

  lemma UserStep(log: seq<WalEntry>, id: string, i: int)
    requires log != [] && !CreatesUser(log[|log| - 1], id) && !DeletesUser(log[|log| - 1], id)
    ensures LatestUser(log, id, i) <==> LatestUser(log[..|log| - 1], id, i)
  {
    if 0 <= i < |log| - 1 {
      assert log[..|log| - 1][i] == log[i];
      if LatestUser(log[..|log| - 1], id, i) {
        assert LatestUser(log, id, i);
      }
    }
  }

  /** A user exists after a log exactly when some creation was not followed by a deletion, with the name last given. */
  lemma {:induction false} UsersAfter(log: seq<WalEntry>, id: string)
    ensures id in Replay(EMPTY, log).users <==> exists i :: LatestUser(log, id, i)
    ensures forall i :: LatestUser(log, id, i) ==> ShowsUser(Replay(EMPTY, log).users[id], log[i])
  {
    if log != [] {
      var k := |log| - 1;
      var init := log[..k];
      UsersAfter(init, id);
      UserEffect(Replay(EMPTY, init), log[k], id);
      if CreatesUser(log[k], id) {
        assert LatestUser(log, id, k);
      } else if !DeletesUser(log[k], id) {
        forall i ensures LatestUser(log, id, i) <==> LatestUser(init, id, i) {
          UserStep(log, id, i);
        }
        if i :| LatestUser(init, id, i) {
          assert LatestUser(log, id, i);
        }
      }
    }
  }

  ghost predicate CreatesTopic(e: WalEntry, id: string) {
    e.operation.TopicCreated? && e.operation.topicId == id
  }

  ghost predicate DeletesTopic(e: WalEntry, id: string) {
    e.operation.TopicDeleted? && e.operation.topicId == id
  }

  ghost predicate ConfiguresTopic(e: WalEntry, id: string) {
    e.operation.TopicConfigUpdated? && e.operation.topicId == id
  }

  /** Entry `i` is the creation of the topic as it now stands: nothing later creates or deletes it. */
  ghost predicate LatestTopic(log: seq<WalEntry>, id: string, i: int) {
    && 0 <= i < |log| && CreatesTopic(log[i], id)
    && forall j :: i < j < |log| ==> !CreatesTopic(log[j], id) && !DeletesTopic(log[j], id)
  }

  /** The last word on the configuration of the topic created by entry `i`. */
  ghost predicate LatestConfig(log: seq<WalEntry>, id: string, i: int, c: int) {
    && 0 <= i <= c < |log| && LatestTopic(log, id, i)
    && (c == i || ConfiguresTopic(log[c], id))
    && forall j :: c < j < |log| ==> !ConfiguresTopic(log[j], id)
  }

  ghost function ConfigOf(op: WalOperation): Json
    requires op.TopicCreated? || op.TopicConfigUpdated?
  {
    if op.TopicCreated? then op.config else op.newConfig
  }

  /** The topic as its latest creation and its latest configuration describe it, field by field. */
  ghost predicate TopicIs(j: Json, log: seq<WalEntry>, id: string, i: int, c: int)
    requires LatestConfig(log, id, i, c)
  {
    var op := log[i].operation;
    && j.JObject? && j.fields.Keys == {"id", "name", "partitions", "replication_factor", "config"}
    && j.fields["id"] == JString(id) && j.fields["name"] == JString(op.topicName)
    && j.fields["partitions"] == JNumber(op.partitions) && j.fields["replication_factor"] == JNumber(op.replicationFactor)
    && j.fields["config"] == ConfigOf(log[c].operation)
  }

  /**
   A topic exists after a log exactly when some creation was not followed by a deletion; it keeps
   that creation's name, partitions and replication factor, and the configuration last written since.
   */
  lemma {:induction false} TopicsAfter(log: seq<WalEntry>, id: string)
    ensures id in Replay(EMPTY, log).topics <==> exists i :: LatestTopic(log, id, i)
    ensures forall i :: LatestTopic(log, id, i) ==>
              exists c :: LatestConfig(log, id, i, c) && TopicIs(Replay(EMPTY, log).topics[id], log, id, i, c)
  {
    if log != [] {
      var k := |log| - 1;
      var before := Replay(EMPTY, log[..k]);
      TopicsAfter(log[..k], id);
      TopicEffect(before, log[k], id);
      TopicGoesOn(before.topics, Apply(before, log[k]).topics, log, id);
    }
  }

  /** What the log says of a topic is what the map shows. */
  ghost predicate TopicTold(topics: map<string, Json>, log: seq<WalEntry>, id: string) {
    && (id in topics <==> exists i :: LatestTopic(log, id, i))
    && forall i :: LatestTopic(log, id, i) ==> exists c :: LatestConfig(log, id, i, c) && TopicIs(topics[id], log, id, i, c)
  }

  /** One more entry leaves the account of the topic right. */
  lemma TopicGoesOn(topics: map<string, Json>, topics': map<string, Json>, log: seq<WalEntry>, id: string)
    requires log != [] && TopicTold(topics, log[..|log| - 1], id) && TopicChange(topics, topics', log[|log| - 1], id)
    ensures TopicTold(topics', log, id)
  {
    var k := |log| - 1;
    if CreatesTopic(log[k], id) {
      assert LatestTopic(log, id, k) && LatestConfig(log, id, k, k);
    } else if !DeletesTopic(log[k], id) {
      forall i ensures LatestTopic(log, id, i) <==> LatestTopic(log[..k], id, i) {
        TopicStep(log, id, i);
      }
      if i :| LatestTopic(log[..k], id, i) {
        var c :| LatestConfig(log[..k], id, i, c) && TopicIs(topics[id], log[..k], id, i, c);
        TopicValueStep(topics[id], topics'[id], log, id, i, c);
      }
    }
  }

  lemma TopicStep(log: seq<WalEntry>, id: string, i: int)
    requires log != [] && !CreatesTopic(log[|log| - 1], id) && !DeletesTopic(log[|log| - 1], id)
    ensures LatestTopic(log, id, i) <==> LatestTopic(log[..|log| - 1], id, i)
  {
    if 0 <= i < |log| - 1 {
      assert log[..|log| - 1][i] == log[i];
      if LatestTopic(log[..|log| - 1], id, i) {
        assert LatestTopic(log, id, i);
      }
    }
  }

  /** How one entry changes a topic. */
  ghost predicate TopicChange(topics: map<string, Json>, topics': map<string, Json>, e: WalEntry, id: string) {
    if CreatesTopic(e, id) then
      var op := e.operation;
      id in topics' && topics'[id] == TopicJson(id, op.topicName, op.partitions, op.replicationFactor, op.config)
    else if DeletesTopic(e, id) || id !in topics then id !in topics'
    else id in topics' && (topics[id].JObject? ==> topics'[id] == Configured(topics[id], e, id))
  }

  ghost function Configured(topic: Json, e: WalEntry, id: string): Json
    requires topic.JObject?
  {
    if ConfiguresTopic(e, id) then JObject(topic.fields["config" := e.operation.newConfig]) else topic
  }

  lemma TopicEffect(s: SystemSnapshot, e: WalEntry, id: string)
    ensures TopicChange(s.topics, Apply(s, e).topics, e, id)
  {
    var op := e.operation;
    if op.TopicCreated? {
      assert Apply(s, e).topics == s.topics[op.topicId := TopicJson(op.topicId, op.topicName, op.partitions, op.replicationFactor, op.config)];
    } else if op.TopicDeleted? {
      assert Apply(s, e).topics == s.topics - {op.topicId};
    } else if !op.TopicConfigUpdated? {
      TopicsUntouched(s, op);
    }
  }

  lemma LatestConfigStep(log: seq<WalEntry>, id: string, i: int, c: int)
    requires log != [] && !CreatesTopic(log[|log| - 1], id) && !DeletesTopic(log[|log| - 1], id)
    requires LatestConfig(log[..|log| - 1], id, i, c)
    ensures LatestConfig(log, id, i, if ConfiguresTopic(log[|log| - 1], id) then |log| - 1 else c)
  {
    TopicStep(log, id, i);
  }

  lemma TopicValueStep(j: Json, j': Json, log: seq<WalEntry>, id: string, i: int, c: int)
    requires log != [] && !CreatesTopic(log[|log| - 1], id) && !DeletesTopic(log[|log| - 1], id)
    requires LatestConfig(log[..|log| - 1], id, i, c) && TopicIs(j, log[..|log| - 1], id, i, c)
    requires j.JObject? ==> j' == Configured(j, log[|log| - 1], id)
    ensures var d := if ConfiguresTopic(log[|log| - 1], id) then |log| - 1 else c;
            LatestConfig(log, id, i, d) && TopicIs(j', log, id, i, d)
  {
    var k := |log| - 1;
    LatestConfigStep(log, id, i, c);
    assert log[..k][i] == log[i] && log[..k][c] == log[c];
  }

  ghost predicate CreatesGroup(e: WalEntry, id: string) {
    e.operation.ConsumerGroupCreated? && e.operation.groupId == id
  }

  ghost predicate DeletesGroup(e: WalEntry, id: string) {
    e.operation.ConsumerGroupDeleted? && e.operation.groupId == id
  }

  /** Entry `i` creates the group and nothing later creates or deletes it. */
  ghost predicate LatestGroup(log: seq<WalEntry>, id: string, i: int) {
    && 0 <= i < |log| && CreatesGroup(log[i], id)
    && forall j :: i < j < |log| ==> !CreatesGroup(log[j], id) && !DeletesGroup(log[j], id)
  }

  ghost predicate GroupStands(log: seq<WalEntry>, id: string) {
    exists i :: LatestGroup(log, id, i)
  }

  /** The group as an entry describes it, whatever its offsets. */
  ghost predicate ShowsGroup(j: Json, e: WalEntry)
    requires e.operation.ConsumerGroupCreated?
  {
    && j.JObject? && j.fields.Keys == {"id", "name", "offsets"}
    && j.fields["id"] == JString(e.operation.groupId) && j.fields["name"] == JString(e.operation.groupName)
  }

  ghost predicate Commits(e: WalEntry, id: string, topic: string, partition: nat) {
    && e.operation.ConsumerGroupOffsetCommitted? && e.operation.groupId == id
    && e.operation.topic == topic && e.operation.partition == partition
  }

  /** Entry `i` commits an offset for a group that exists from then on, and nothing later supersedes it. */
  ghost predicate LatestCommit(log: seq<WalEntry>, id: string, topic: string, partition: nat, i: int) {
    && 0 <= i < |log| && Commits(log[i], id, topic, partition)
    && (forall j :: i < j < |log| ==>
          !Commits(log[j], id, topic, partition) && !CreatesGroup(log[j], id) && !DeletesGroup(log[j], id))
    && GroupStands(log[..i], id)
  }

  /** What the group shows as its offsets, if it has the shape that creation gives it. */
  ghost function OffsetsOf(group: Json): Option<map<string, Json>> {
    if group.JObject? && "offsets" in group.fields && group.fields["offsets"].JObject?
    then Some(group.fields["offsets"].fields) else None
  }

  lemma CommitOffsets(group: Json, key: string, offset: int)
    requires OffsetsOf(group).Some?
    ensures OffsetsOf(CommitOffset(group, key, offset)) == Some(OffsetsOf(group).value[key := JNumber(offset)])
    ensures CommitOffset(group, key, offset).JObject? && CommitOffset(group, key, offset).fields.Keys == group.fields.Keys
    ensures forall k :: k in group.fields && k != "offsets" ==> CommitOffset(group, key, offset).fields[k] == group.fields[k]
  {
    assert CommitOffset(group, key, offset).fields.Keys == group.fields.Keys + {"offsets"};
  }

  /** How one entry changes a group that is shown as `g` (and then has offsets) to `g'`. */
  ghost predicate GroupChange(g: map<string, Json>, g': map<string, Json>, e: WalEntry, id: string) {
    var op := e.operation;
    if CreatesGroup(e, id) then id in g' && ShowsGroup(g'[id], e) && OffsetsOf(g'[id]) == Some(map[])
    else if DeletesGroup(e, id) || id !in g then id !in g'
    else if op.ConsumerGroupOffsetCommitted? && op.groupId == id then
      && id in g'
      && (OffsetsOf(g[id]).Some? ==>
            && OffsetsOf(g'[id]) == Some(OffsetsOf(g[id]).value[op.topic + "-" + Decimal(op.partition) := JNumber(op.offset)])
            && g'[id].JObject? && g'[id].fields.Keys == g[id].fields.Keys
            && forall k :: k in g[id].fields && k != "offsets" ==> g'[id].fields[k] == g[id].fields[k])
    else id in g' && g'[id] == g[id]
  }

  lemma GroupCreated(id: string, name: string)
    ensures OffsetsOf(GroupJson(id, name)) == Some(map[])
    ensures GroupJson(id, name).fields.Keys == {"id", "name", "offsets"}
    ensures GroupJson(id, name).fields["id"] == JString(id) && GroupJson(id, name).fields["name"] == JString(name)
  {
  }

  lemma GroupStep(s: SystemSnapshot, e: WalEntry, id: string)
    ensures GroupChange(s.consumerGroups, Apply(s, e).consumerGroups, e, id)
  {
    var op := e.operation;
    if op.ConsumerGroupCreated? {
      GroupCreated(op.groupId, op.groupName);
      assert Apply(s, e).consumerGroups == s.consumerGroups[op.groupId := GroupJson(op.groupId, op.groupName)];
    } else if op.ConsumerGroupDeleted? {
      assert Apply(s, e).consumerGroups == s.consumerGroups - {op.groupId};
    } else if op.ConsumerGroupOffsetCommitted? {
      CommitEffect(s, e, id);
    } else {
      GroupsUntouched(s, op);
    }
  }

  lemma CommitEffect(s: SystemSnapshot, e: WalEntry, id: string)
    requires e.operation.ConsumerGroupOffsetCommitted?
    ensures GroupChange(s.consumerGroups, Apply(s, e).consumerGroups, e, id)
  {
    var op := e.operation;
    if op.groupId == id && id in s.consumerGroups && OffsetsOf(s.consumerGroups[id]).Some? {
      CommitOffsets(s.consumerGroups[id], DashKey(op.topic, op.partition), op.offset);
    }
  }

  /** What the log says of a group is what the map shows. */
  ghost predicate GroupTold(groups: map<string, Json>, log: seq<WalEntry>, id: string) {
    && (id in groups <==> exists i :: LatestGroup(log, id, i))
    && (id in groups ==> OffsetsOf(groups[id]).Some?)
    && forall i :: LatestGroup(log, id, i) ==> ShowsGroup(groups[id], log[i])
  }

  lemma LatestGroupStep(log: seq<WalEntry>, id: string, i: int)
    requires log != [] && !CreatesGroup(log[|log| - 1], id) && !DeletesGroup(log[|log| - 1], id)
    ensures LatestGroup(log, id, i) <==> LatestGroup(log[..|log| - 1], id, i)
  {
    if 0 <= i < |log| - 1 {
      assert log[..|log| - 1][i] == log[i];
      if LatestGroup(log[..|log| - 1], id, i) {
        assert LatestGroup(log, id, i);
      }
    }
  }

  lemma GroupGoesOn(g: map<string, Json>, g': map<string, Json>, log: seq<WalEntry>, id: string)
    requires log != [] && GroupTold(g, log[..|log| - 1], id) && GroupChange(g, g', log[|log| - 1], id)
    ensures GroupTold(g', log, id)
  {
    var k := |log| - 1;
    if CreatesGroup(log[k], id) {
      assert LatestGroup(log, id, k);
    } else if !DeletesGroup(log[k], id) {
      forall i ensures LatestGroup(log, id, i) <==> LatestGroup(log[..k], id, i) {
        LatestGroupStep(log, id, i);
      }
      if i :| LatestGroup(log[..k], id, i) {
        assert LatestGroup(log, id, i) && log[..k][i] == log[i];
      }
    }
  }

  /** A group exists after a log exactly when some creation was not followed by a deletion, with the name last given. */
  lemma {:induction false} GroupsAfter(log: seq<WalEntry>, id: string)
    ensures var groups := Replay(EMPTY, log).consumerGroups;
            && (id in groups <==> exists i :: LatestGroup(log, id, i))
            && (id in groups ==> OffsetsOf(groups[id]).Some?)
            && forall i :: LatestGroup(log, id, i) ==> ShowsGroup(groups[id], log[i])
  {
    if log != [] {
      var k := |log| - 1;
      var before := Replay(EMPTY, log[..k]);
      GroupsAfter(log[..k], id);
      assert GroupTold(before.consumerGroups, log[..k], id);
      GroupStep(before, log[k], id);
      GroupGoesOn(before.consumerGroups, Apply(before, log[k]).consumerGroups, log, id);
      assert Replay(EMPTY, log) == Apply(before, log[k]);
    }
  }

  /** What the log says of a group's offset is what the map shows, under the name of the partition. */
  ghost predicate OffsetTold(groups: map<string, Json>, log: seq<WalEntry>, id: string, topic: string, partition: nat) {
    id in groups && OffsetsOf(groups[id]).Some? ==>
      var offsets, key := OffsetsOf(groups[id]).value, topic + "-" + Decimal(partition);
      && (key in offsets <==> exists i :: LatestCommit(log, id, topic, partition, i))
      && forall i :: LatestCommit(log, id, topic, partition, i) ==> offsets[key] == JNumber(log[i].operation.offset)
  }

  lemma OffsetGoesOn(g: map<string, Json>, g': map<string, Json>, log: seq<WalEntry>, id: string, topic: string, partition: nat)
    requires log != [] && GroupTold(g, log[..|log| - 1], id)
    requires OffsetTold(g, log[..|log| - 1], id, topic, partition) && GroupChange(g, g', log[|log| - 1], id)
    ensures OffsetTold(g', log, id, topic, partition)
  {
    var k := |log| - 1;
    var op := log[k].operation;
    if !CreatesGroup(log[k], id) && !DeletesGroup(log[k], id) && id in g {
      forall i
        ensures LatestCommit(log, id, topic, partition, i) <==>
                (if Commits(log[k], id, topic, partition) then i == k else LatestCommit(log[..k], id, topic, partition, i))
      {
        CommitStepAt(log, id, topic, partition, i);
      }
      if Commits(log[k], id, topic, partition) {
        assert LatestCommit(log, id, topic, partition, k);
      } else {
        OtherKey(op, id, topic, partition);
        if i :| LatestCommit(log[..k], id, topic, partition, i) {
          assert LatestCommit(log, id, topic, partition, i);
        }
      }
    }
  }

  /** A commit for another partition goes under another key. */
  lemma OtherKey(op: WalOperation, id: string, topic: string, partition: nat)
    requires op.ConsumerGroupOffsetCommitted? && op.groupId == id ==> op.topic != topic || op.partition != partition
    ensures op.ConsumerGroupOffsetCommitted? && op.groupId == id ==>
              op.topic + "-" + Decimal(op.partition) != topic + "-" + Decimal(partition)
  {
    if op.ConsumerGroupOffsetCommitted? && op.groupId == id
       && op.topic + "-" + Decimal(op.partition) == topic + "-" + Decimal(partition) {
      NumberedNameInjective(op.topic, op.partition, topic, partition, '-');
    }
  }

  lemma CommitStepAt(log: seq<WalEntry>, id: string, topic: string, partition: nat, i: int)
    requires log != [] && !CreatesGroup(log[|log| - 1], id) && !DeletesGroup(log[|log| - 1], id)
    requires GroupStands(log[..|log| - 1], id)
    ensures LatestCommit(log, id, topic, partition, i) <==>
            (if Commits(log[|log| - 1], id, topic, partition) then i == |log| - 1
             else LatestCommit(log[..|log| - 1], id, topic, partition, i))
  {
    var k := |log| - 1;
    var init := log[..k];
    if 0 <= i < k {
      assert init[..i] == log[..i];
      assert init[i] == log[i];
      if LatestCommit(init, id, topic, partition, i) && !Commits(log[k], id, topic, partition) {
        assert LatestCommit(log, id, topic, partition, i);
      }
    }
  }

  /** A group shows an offset for a partition exactly when a commit for it is the latest word, and shows that offset. */
  lemma {:induction false} OffsetsAfter(log: seq<WalEntry>, id: string, topic: string, partition: nat)
    ensures var groups := Replay(EMPTY, log).consumerGroups;
            id in groups ==>
              && OffsetsOf(groups[id]).Some?
              && var offsets, key := OffsetsOf(groups[id]).value, topic + "-" + Decimal(partition);
                 && (key in offsets <==> exists i :: LatestCommit(log, id, topic, partition, i))
                 && forall i :: LatestCommit(log, id, topic, partition, i) ==> offsets[key] == JNumber(log[i].operation.offset)
  {
    GroupsAfter(log, id);
    if log != [] {
      var k := |log| - 1;
      var before := Replay(EMPTY, log[..k]);
      OffsetsAfter(log[..k], id, topic, partition);
      GroupsAfter(log[..k], id);
      assert OffsetTold(before.consumerGroups, log[..k], id, topic, partition);
      GroupStep(before, log[k], id);
      OffsetGoesOn(before.consumerGroups, Apply(before, log[k]).consumerGroups, log, id, topic, partition);
      assert Replay(EMPTY, log) == Apply(before, log[k]);
    }
  }

  // ---------- access control entries ----------

  /** Entry `d` revokes what entry `c` granted: the same resource and principal, whatever the permission. */
  ghost predicate Revokes(d: WalEntry, c: WalEntry) {
    && d.operation.AclDeleted? && c.operation.AclCreated?
    && d.operation.resourceType == c.operation.resourceType && d.operation.resourceName == c.operation.resourceName
    && d.operation.principal == c.operation.principal
  }

  /** Entry `i` grants, and no later entry revokes it. */
  ghost predicate StillGranted(log: seq<WalEntry>, i: nat) {
    i < |log| && log[i].operation.AclCreated? && forall j :: i < j < |log| ==> !Revokes(log[j], log[i])
  }

  ghost predicate ShowsAcl(j: Json, e: WalEntry) {
    && e.operation.AclCreated? && j.JObject?
    && j.fields.Keys == {"resource_type", "resource_name", "principal", "permission"}
    && j.fields["resource_type"] == JString(e.operation.resourceType) && j.fields["resource_name"] == JString(e.operation.resourceName)
    && j.fields["principal"] == JString(e.operation.principal) && j.fields["permission"] == JString(e.operation.permission)
  }

  ghost predicate Increasing(at: seq<nat>) {
    forall j, k :: 0 <= j < k < |at| ==> at[j] < at[k]
  }

  /** The listed entries are shown, one for one and in order. */
  ghost predicate ShownAt(acls: seq<Json>, log: seq<WalEntry>, at: seq<nat>) {
    |acls| == |at| && forall k :: 0 <= k < |at| ==> at[k] < |log| && ShowsAcl(acls[k], log[at[k]])
  }

  /** The listed positions without those of grants that `d` revokes. */
  ghost function Unrevoked(at: seq<nat>, log: seq<WalEntry>, d: WalEntry): seq<nat> {
    if at == [] then []
    else
      var rest := Unrevoked(at[1..], log, d);
      if at[0] < |log| && Revokes(d, log[at[0]]) then rest else [at[0]] + rest
  }

  lemma {:induction false} UnrevokedIn(at: seq<nat>, log: seq<WalEntry>, d: WalEntry, i: nat)
    ensures i in Unrevoked(at, log, d) <==> i in at && !(i < |log| && Revokes(d, log[i]))
  {
    if at != [] {
      UnrevokedIn(at[1..], log, d, i);
      assert at == [at[0]] + at[1..];
    }
  }

  lemma {:induction false} UnrevokedIncreasing(at: seq<nat>, log: seq<WalEntry>, d: WalEntry)
    requires Increasing(at)
    ensures Increasing(Unrevoked(at, log, d))
  {
    if at != [] {
      var rest := Unrevoked(at[1..], log, d);
      UnrevokedIncreasing(at[1..], log, d);
      forall k | 0 <= k < |rest| ensures at[0] < rest[k] {
        assert rest[k] in rest;
        UnrevokedIn(at[1..], log, d, rest[k]);
      }
    }
  }

  lemma NamedIff(acl: Json, c: WalEntry, d: WalEntry)
    requires ShowsAcl(acl, c) && d.operation.AclDeleted?
    ensures AclNames(acl, d.operation.resourceType, d.operation.resourceName, d.operation.principal) <==> Revokes(d, c)
  {
  }

  /** `retain` drops exactly what the deletion names. */
  lemma {:induction false} RetainedAcls(acls: seq<Json>, log: seq<WalEntry>, at: seq<nat>, d: WalEntry)
    requires ShownAt(acls, log, at) && d.operation.AclDeleted?
    ensures ShownAt(RetainAcls(acls, d.operation.resourceType, d.operation.resourceName, d.operation.principal), log, Unrevoked(at, log, d))
  {
    if acls != [] {
      ShownTail(acls, log, at);
      RetainedAcls(acls[1..], log, at[1..], d);
      NamedIff(acls[0], log[at[0]], d);
      var op := d.operation;
      ShownPrepend(acls[0], RetainAcls(acls[1..], op.resourceType, op.resourceName, op.principal), log, at[0], Unrevoked(at[1..], log, d));
    }
  }

  lemma ShownTail(acls: seq<Json>, log: seq<WalEntry>, at: seq<nat>)
    requires ShownAt(acls, log, at) && acls != []
    ensures ShownAt(acls[1..], log, at[1..]) && at[0] < |log| && ShowsAcl(acls[0], log[at[0]])
  {
  }

  lemma ShownPrepend(acl: Json, acls: seq<Json>, log: seq<WalEntry>, i: nat, at: seq<nat>)
    requires i < |log| && ShowsAcl(acl, log[i])
    ensures ShownAt(acls, log, at) ==> ShownAt([acl] + acls, log, [i] + at)
  {
  }

  /** How one entry changes the list. */
  ghost predicate AclChange(acls: seq<Json>, acls': seq<Json>, e: WalEntry) {
    var op := e.operation;
    if op.AclCreated? then |acls'| == |acls| + 1 && acls'[..|acls|] == acls && ShowsAcl(acls'[|acls|], e)
    else if op.AclDeleted? then acls' == RetainAcls(acls, op.resourceType, op.resourceName, op.principal)
    else acls' == acls
  }

  lemma AclEffect(s: SystemSnapshot, e: WalEntry)
    ensures AclChange(s.acls, Apply(s, e).acls, e)
  {
    var op := e.operation;
    if op.AclCreated? {
      assert Apply(s, e).acls == s.acls + [AclJson(op.resourceType, op.resourceName, op.principal, op.permission)];
    } else if op.AclDeleted? {
      assert Apply(s, e).acls == RetainAcls(s.acls, op.resourceType, op.resourceName, op.principal);
    } else {
      AclsUntouched(s, op);
    }
  }

  lemma GrantedStep(log: seq<WalEntry>, i: nat)
    requires log != []
    ensures StillGranted(log, i) <==>
            if i == |log| - 1 then log[i].operation.AclCreated?
            else i < |log| && StillGranted(log[..|log| - 1], i) && !Revokes(log[|log| - 1], log[i])
  {
    if i < |log| - 1 {
      assert log[..|log| - 1][i] == log[i];
      assert forall j :: i < j < |log| - 1 ==> log[..|log| - 1][j] == log[j];
    }
  }

  /** The positions of the standing grants. */
  ghost predicate GrantsAt(log: seq<WalEntry>, at: seq<nat>) {
    forall i: nat :: i in at <==> StillGranted(log, i)
  }

  lemma GrantAdded(log: seq<WalEntry>, at: seq<nat>)
    requires log != [] && GrantsAt(log[..|log| - 1], at) && Increasing(at) && log[|log| - 1].operation.AclCreated?
    ensures GrantsAt(log, at + [|log| - 1]) && Increasing(at + [|log| - 1])
  {
    forall i: nat ensures i in at + [|log| - 1] <==> StillGranted(log, i) {
      GrantedStep(log, i);
    }
    assert forall j :: 0 <= j < |at| ==> at[j] in at;
  }

  lemma GrantsRevoked(log: seq<WalEntry>, at: seq<nat>)
    requires log != [] && GrantsAt(log[..|log| - 1], at) && !log[|log| - 1].operation.AclCreated?
    ensures GrantsAt(log, Unrevoked(at, log, log[|log| - 1]))
  {
    forall i: nat ensures i in Unrevoked(at, log, log[|log| - 1]) <==> StillGranted(log, i) {
      GrantedStep(log, i);
      UnrevokedIn(at, log, log[|log| - 1], i);
    }
  }

  lemma {:induction false} NothingRevoked(at: seq<nat>, log: seq<WalEntry>, d: WalEntry)
    requires !d.operation.AclDeleted?
    ensures Unrevoked(at, log, d) == at
  {
    if at != [] { NothingRevoked(at[1..], log, d); }
  }

  lemma ShownStill(acls: seq<Json>, log: seq<WalEntry>, at: seq<nat>)
    requires log != [] && ShownAt(acls, log[..|log| - 1], at)
    ensures ShownAt(acls, log, at)
  {
    forall k | 0 <= k < |at| ensures at[k] < |log| && ShowsAcl(acls[k], log[at[k]]) {
      assert log[..|log| - 1][at[k]] == log[at[k]];
    }
  }

  lemma AclsGoOn(acls: seq<Json>, acls': seq<Json>, log: seq<WalEntry>, at: seq<nat>) returns (at': seq<nat>)
    requires log != [] && Increasing(at) && ShownAt(acls, log[..|log| - 1], at) && AclChange(acls, acls', log[|log| - 1])
    requires GrantsAt(log[..|log| - 1], at)
    ensures Increasing(at') && ShownAt(acls', log, at') && GrantsAt(log, at')
  {
    var k := |log| - 1;
    ShownStill(acls, log, at);
    if log[k].operation.AclCreated? {
      at' := at + [k];
      GrantAdded(log, at);
      assert forall j :: 0 <= j < |acls| ==> acls'[..|acls|][j] == acls'[j];
    } else {
      at' := Unrevoked(at, log, log[k]);
      GrantsRevoked(log, at);
      UnrevokedIncreasing(at, log, log[k]);
      if log[k].operation.AclDeleted? { RetainedAcls(acls, log, at, log[k]); } else { NothingRevoked(at, log, log[k]); }
    }
  }

  /**
   The access control entries after a log are, in the order of the log, one for each grant that nothing later
   revoked, each with the resource, principal and permission of its grant; `at` is where those grants stand.
   */
  lemma {:induction false} AclsAfter(log: seq<WalEntry>) returns (at: seq<nat>)
    ensures Increasing(at) && GrantsAt(log, at)
    ensures ShownAt(Replay(EMPTY, log).acls, log, at)
  {
    if log == [] {
      at := [];
    } else {
      var k := |log| - 1;
      var before := Replay(EMPTY, log[..k]);
      var init := AclsAfter(log[..k]);
      AclEffect(before, log[k]);
      at := AclsGoOn(before.acls, Apply(before, log[k]).acls, log, init);
    }
  }

  // ---------- schemas ----------

  ghost predicate Registers(e: WalEntry, subject: string, version: nat) {
    e.operation.SchemaRegistered? && e.operation.subject == subject && e.operation.version == version
  }

  ghost predicate LatestSchema(log: seq<WalEntry>, subject: string, version: nat, i: int) {
    && 0 <= i < |log| && Registers(log[i], subject, version)
    && forall j :: i < j < |log| ==> !Registers(log[j], subject, version)
  }

  ghost predicate ShowsSchema(j: Json, e: WalEntry)
    requires e.operation.SchemaRegistered?
  {
    && j.JObject? && j.fields.Keys == {"subject", "version", "schema_id"}
    && j.fields["subject"] == JString(e.operation.subject) && j.fields["version"] == JNumber(e.operation.version)
    && j.fields["schema_id"] == JNumber(e.operation.schemaId)
  }

  lemma SchemaEffect(s: SystemSnapshot, e: WalEntry, subject: string, version: nat)
    ensures var key, schemas := subject + "-" + Decimal(version), Apply(s, e).schemas;
            if Registers(e, subject, version) then key in schemas && ShowsSchema(schemas[key], e)
            else (key in schemas <==> key in s.schemas) && (key in schemas ==> schemas[key] == s.schemas[key])
  {
    var op := e.operation;
    if op.SchemaRegistered? {
      assert Apply(s, e).schemas == s.schemas[DashKey(op.subject, op.version) := SchemaJson(op.subject, op.version, op.schemaId)];
      if !Registers(e, subject, version) && DashKey(op.subject, op.version) == subject + "-" + Decimal(version) {
        NumberedNameInjective(op.subject, op.version, subject, version, '-');
      }
    } else {
      SchemasUntouched(s, op);
    }
  }

  /** A schema version is known after a log exactly when it was registered, with the id last registered. */
  lemma {:induction false} SchemasAfter(log: seq<WalEntry>, subject: string, version: nat)
    ensures var key, schemas := subject + "-" + Decimal(version), Replay(EMPTY, log).schemas;
            && (key in schemas <==> exists i :: LatestSchema(log, subject, version, i))
            && forall i :: LatestSchema(log, subject, version, i) ==> ShowsSchema(schemas[key], log[i])
  {
    if log != [] {
      var k := |log| - 1;
      SchemasAfter(log[..k], subject, version);
      SchemaEffect(Replay(EMPTY, log[..k]), log[k], subject, version);
      SchemaStep(log, subject, version);
      if Registers(log[k], subject, version) {
        assert LatestSchema(log, subject, version, k);
      } else if i :| LatestSchema(log[..k], subject, version, i) {
        assert LatestSchema(log, subject, version, i);
      }
    }
  }

  lemma SchemaStep(log: seq<WalEntry>, subject: string, version: nat)
    requires log != []
    ensures forall i :: LatestSchema(log, subject, version, i) <==>
              if Registers(log[|log| - 1], subject, version) then i == |log| - 1
              else LatestSchema(log[..|log| - 1], subject, version, i)
    ensures forall i :: 0 <= i < |log| - 1 ==> log[..|log| - 1][i] == log[i]
  {
    var k := |log| - 1;
    forall i ensures LatestSchema(log, subject, version, i) <==>
                     if Registers(log[k], subject, version) then i == k else LatestSchema(log[..k], subject, version, i)
    {
      if 0 <= i < k {
        assert log[..k][i] == log[i];
        if LatestSchema(log[..k], subject, version, i) && !Registers(log[k], subject, version) {
          assert LatestSchema(log, subject, version, i);
        }
      }
    }
  }

  // ---------- position ----------

  /** The state carries the number and the time of the last entry. */
  lemma StampedAfter(log: seq<WalEntry>)
    ensures var s := Replay(EMPTY, log);
            if log == [] then s.lsn == 0 && s.timestamp == 0
            else s.lsn == log[|log| - 1].lsn && s.timestamp == log[|log| - 1].timestamp
  {
  }
}
