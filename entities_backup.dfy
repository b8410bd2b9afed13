/**
  The node backup of entities_backup.py: which states belong to a Z-Wave node, the record kept for
  each, and the backup document with its file name.

  The Home Assistant instance is replaced by plain inputs: the state list, the entity registry as a
  map from entity id to entry, and the `customize` table of `hass.data` as a map (an absent table
  reads as an empty one).
*/
module EntitiesBackup {
  import opened Wrappers
  import opened Text

  type EntityId = string

  /** An attribute value; only the string case is told apart by the scripts. */
  datatype AttrValue = StrValue(s: string) | IntValue(n: int) | BoolValue(b: bool) | NullValue

  /** A state object: entity id, state string and attributes. */
  datatype HaState = HaState(entityId: EntityId, state: string, attributes: map<string, AttrValue>)

  /** The entity-registry fields the scripts read and write. */
  datatype RegistryEntry = RegistryEntry(name: Option<string>, icon: Option<string>, disabled: bool,
                                         deviceId: Option<string>, areaId: Option<string>, platform: string)

  /** One entity's customisation dict. */
  type Customization = map<string, AttrValue>

  /** The registry fields a record gets only when the entity has a registry entry. */
  datatype RegistryFields = RegistryFields(registryName: Option<string>, registryIcon: Option<string>,
                                           disabled: bool, deviceId: Option<string>, areaId: Option<string>,
                                           platform: string)

  /** The record kept for one entity (`entity_data`). */
  datatype BackupRecord = BackupRecord(
    entityId: EntityId, domain: string, objectId: string, state: string,
    attributes: map<string, AttrValue>, friendlyName: AttrValue, icon: Option<AttrValue>,
    deviceClass: Option<AttrValue>, unitOfMeasurement: Option<AttrValue>,
    customizations: Customization, nodeId: int, registry: Option<RegistryFields>)

  /** `entity_id.split('.')[1]` on an id without a `.` raises IndexError, which aborts the backup. */
  datatype BackupError = IndexError(entityId: EntityId)

  /** The backup document (its float timestamp is not modelled) and where it is written. */
  datatype BackupData = BackupData(backupFile: string, nodeId: int, entityCount: nat, entities: seq<BackupRecord>)

  /** `d.get(k)` */
  function Get<V>(m: map<string, V>, k: string): Option<V> {
    if k in m then Some(m[k]) else None
  }

  // ---------------------------------------------------------------------------
  // Paths

  /** `config_path / "backups" / "entity_backups"` */
  function BackupDir(configPath: string): string {
    configPath + "/backups/entity_backups"
  }

  /** `f'node_{node_id}_backup.json'` */
  function BackupFileName(nodeId: int): string {
    NodePattern(nodeId) + "_backup.json"
  }

  function BackupFile(configPath: string, nodeId: int): string {
    BackupDir(configPath) + "/" + BackupFileName(nodeId)
  }

  /** Different nodes are backed up to different files. */
  lemma BackupFileDistinct(configPath: string, n: int, m: int)
    requires BackupFile(configPath, n) == BackupFile(configPath, m)
    ensures n == m
  {
    BackupFileAround(configPath, n);
    BackupFileAround(configPath, m);
    CancelAffixes(BackupDir(configPath) + "/node_", IntToString(n), IntToString(m), "_backup.json");
    IntToStringInjective(n, m);
  }

  /** The node id is the only part of the file name that depends on the node. */
  lemma BackupFileAround(configPath: string, n: int)
    ensures BackupFile(configPath, n) == (BackupDir(configPath) + "/node_") + IntToString(n) + "_backup.json"
  {
  }

  /** Equal strings with the same prefix and suffix have equal middles. */
  lemma CancelAffixes(pre: string, x: string, y: string, suf: string)
    requires pre + x + suf == pre + y + suf
    ensures x == y
  {
    var a, b := pre + x + suf, pre + y + suf;
    assert |x| == |y|;
    assert x == a[|pre|..|pre| + |x|];
    assert y == b[|pre|..|pre| + |y|];
  }

  // ---------------------------------------------------------------------------
  // Selecting the node's states

  /** `f"node_{node_id}"` */
  function NodePattern(nodeId: int): string {
    "node_" + IntToString(nodeId)
  }

  /** The pattern occurs in the entity id or in some string-valued attribute. */
  predicate Selects(st: HaState, pattern: string) {
    || Contains(st.entityId, pattern)
    || exists k :: k in st.attributes && st.attributes[k].StrValue? && Contains(st.attributes[k].s, pattern)
  }

  /** Non-string attributes play no part in the selection. */
  lemma NonStringAttributeIgnored(st: HaState, pattern: string, k: string, v: AttrValue)
    requires !v.StrValue? && k !in st.attributes
    ensures Selects(st.(attributes := st.attributes[k := v]), pattern) == Selects(st, pattern)
  {
    var st' := st.(attributes := st.attributes[k := v]);
    if Selects(st', pattern) && !Contains(st.entityId, pattern) {
      var j :| j in st'.attributes && st'.attributes[j].StrValue? && Contains(st'.attributes[j].s, pattern);
      assert j != k && st.attributes[j] == st'.attributes[j];
    }
    if Selects(st, pattern) && !Contains(st.entityId, pattern) {
      var j :| j in st.attributes && st.attributes[j].StrValue? && Contains(st.attributes[j].s, pattern);
      assert j != k && st.attributes[j] == st'.attributes[j];
    }
  }

  /** Appending a digit to a positive node id extends the pattern. */
  lemma {:induction false} PatternOfLongerId(n: nat, d: nat)
    requires n > 0 && d < 10
    ensures NodePattern(10 * n + d) == NodePattern(n) + [Digit(d)]
  {
    assert (10 * n + d) / 10 == n && (10 * n + d) % 10 == d;
    assert NatToString(10 * n + d) == NatToString(n) + [Digit(d)];
  }

  /** The match is a plain substring test: a state of node `10 * n + d` (node 15, say) is also
      selected for node `n` (node 1). */
  lemma {:induction false} LongerIdAlsoSelects(st: HaState, n: nat, d: nat)
    requires n > 0 && d < 10
    requires Selects(st, NodePattern(10 * n + d))
    ensures Selects(st, NodePattern(n))
  {
    PatternOfLongerId(n, d);
    var p, q := NodePattern(n), [Digit(d)];
    if Contains(st.entityId, p + q) {
      ContainsPrefix(st.entityId, p, q);
    } else {
      var k :| k in st.attributes && st.attributes[k].StrValue? && Contains(st.attributes[k].s, p + q);
      ContainsPrefix(st.attributes[k].s, p, q);
    }
  }

  // ---------------------------------------------------------------------------
  // The record of one entity

  /** The record for state `st` (`entity_data`, with the registry fields added by `update` when the
      entity has a registry entry). */
  function MakeRecord(st: HaState, nodeId: int, registry: map<EntityId, RegistryEntry>,
                      customize: map<EntityId, Customization>): Result<BackupRecord, BackupError>
  {
    var parts := Split(st.entityId, '.');
    if |parts| < 2 then Err(IndexError(st.entityId))
    else
      var entry := Get(registry, st.entityId);
      Ok(BackupRecord(
        st.entityId, parts[0], parts[1], st.state, st.attributes,
        Get(st.attributes, "friendly_name").GetOr(StrValue(st.entityId)),
        Get(st.attributes, "icon"), Get(st.attributes, "device_class"), Get(st.attributes, "unit_of_measurement"),
        Get(customize, st.entityId).GetOr(map[]),
        nodeId,
        if entry.Some? then
          Some(RegistryFields(entry.value.name, entry.value.icon, entry.value.disabled,
                              entry.value.deviceId, entry.value.areaId, entry.value.platform))
        else None))
  }

  /** What a record holds: it fails exactly for an id without a `.`; otherwise `domain` is the text
      before the first `.` and `object_id` the text after it up to the next `.`, the friendly name
      falls back to the entity id, customisations default to empty, and the registry fields are
      present exactly when the entity has a registry entry, copied from it. */
  lemma MakeRecordFields(st: HaState, nodeId: int, registry: map<EntityId, RegistryEntry>,
                         customize: map<EntityId, Customization>)
    ensures MakeRecord(st, nodeId, registry, customize).Err? <==> '.' !in st.entityId
    ensures MakeRecord(st, nodeId, registry, customize).Ok? ==>
      var r := MakeRecord(st, nodeId, registry, customize).value;
      && r.entityId == st.entityId && r.state == st.state && r.attributes == st.attributes && r.nodeId == nodeId
      && '.' !in r.domain && '.' !in r.objectId
      && (exists rest :: st.entityId == r.domain + "." + r.objectId + rest && (rest == "" || rest[0] == '.'))
      && r.friendlyName == (if "friendly_name" in st.attributes then st.attributes["friendly_name"] else StrValue(st.entityId))
      && r.icon == Get(st.attributes, "icon") && r.deviceClass == Get(st.attributes, "device_class")
      && r.unitOfMeasurement == Get(st.attributes, "unit_of_measurement")
      && r.customizations == (if st.entityId in customize then customize[st.entityId] else map[])
      && (r.registry.Some? <==> st.entityId in registry)
      && (r.registry.Some? ==>
            var e := registry[st.entityId];
            r.registry.value == RegistryFields(e.name, e.icon, e.disabled, e.deviceId, e.areaId, e.platform))
  {
    SplitMany(st.entityId, '.');
    if '.' in st.entityId {
      SplitFirstTwo(st.entityId, '.');
    }
  }

  // ---------------------------------------------------------------------------
  // The loop over the states

  /** The selected states, in state-list order. */
  function SelectedStates(states: seq<HaState>, pattern: string): seq<HaState>
    decreases |states|
  {
    if states == [] then []
    else
      var st := states[|states| - 1];
      SelectedStates(states[..|states| - 1], pattern) + (if Selects(st, pattern) then [st] else [])
  }

  /** The records of the loop, or the error of the first selected id without a `.`. */
  function NodeRecords(states: seq<HaState>, nodeId: int, registry: map<EntityId, RegistryEntry>,
                       customize: map<EntityId, Customization>): Result<seq<BackupRecord>, BackupError>
    decreases |states|
  {
    if states == [] then Ok([])
    else
      match NodeRecords(states[..|states| - 1], nodeId, registry, customize)
      case Err(e) => Err(e)
      case Ok(rs) =>
        var st := states[|states| - 1];
        if !Selects(st, NodePattern(nodeId)) then Ok(rs)
        else
          match MakeRecord(st, nodeId, registry, customize)
          case Err(e) => Err(e)
          case Ok(r) => Ok(rs + [r])
  }

  /** backup_entities: the backup document for node `nodeId`, or the IndexError that aborts it. */
  method BackupEntities(configPath: string, nodeId: int, states: seq<HaState>,
                        registry: map<EntityId, RegistryEntry>, customize: map<EntityId, Customization>)
    returns (result: Result<BackupData, BackupError>)
    ensures var recs := NodeRecords(states, nodeId, registry, customize);
      && (recs.Err? ==> result == Err(recs.error))
      && (recs.Ok? ==> result.Ok? && result.value.entities == recs.value)
    ensures result.Ok? ==>
      && result.value.entityCount == |result.value.entities|
      && result.value.nodeId == nodeId
      && result.value.backupFile == BackupFile(configPath, nodeId)
  {
    var nodeEntities: seq<BackupRecord> := [];
    var pattern := NodePattern(nodeId);
    var n := 0;
    while n < |states|
      invariant 0 <= n <= |states|
      invariant NodeRecords(states[..n], nodeId, registry, customize) == Ok(nodeEntities)
    {
      var st := states[n];
      assert states[..n + 1][..n] == states[..n];
      if Selects(st, pattern) {
        var entityData := MakeRecord(st, nodeId, registry, customize);
        if entityData.Err? {
          NodeRecordsErrSticks(states, n + 1, nodeId, registry, customize);
          return Err(entityData.error);
        }
        nodeEntities := nodeEntities + [entityData.value];
      }
      n := n + 1;
    }
    assert states[..n] == states;
    var backupFile := BackupFile(configPath, nodeId);
    result := Ok(BackupData(backupFile, nodeId, |nodeEntities|, nodeEntities));
  }

  /** Once a prefix fails, the whole list fails with the same error. */
  lemma {:induction false} NodeRecordsErrSticks(states: seq<HaState>, n: nat, nodeId: int,
                                                registry: map<EntityId, RegistryEntry>,
                                                customize: map<EntityId, Customization>)
    requires n <= |states|
    requires NodeRecords(states[..n], nodeId, registry, customize).Err?
    ensures NodeRecords(states, nodeId, registry, customize) == NodeRecords(states[..n], nodeId, registry, customize)
    decreases |states| - n
  {
    if n < |states| {
      assert states[..n + 1][..n] == states[..n];
      NodeRecordsErrSticks(states, n + 1, nodeId, registry, customize);
    } else {
      assert states[..n] == states;
    }
  }

  /** Some state of `sel` has an id without a `.`. */
  predicate HasUndottedId(sel: seq<HaState>) {
    exists i :: 0 <= i < |sel| && '.' !in sel[i].entityId
  }

  /** One record per selected state, in order, each built from its state; the run fails exactly when
      some selected state has an id without a `.`. */
  lemma {:induction false} NodeRecordsShape(states: seq<HaState>, nodeId: int,
                                            registry: map<EntityId, RegistryEntry>,
                                            customize: map<EntityId, Customization>)
    ensures NodeRecords(states, nodeId, registry, customize).Err?
            <==> HasUndottedId(SelectedStates(states, NodePattern(nodeId)))
    ensures NodeRecords(states, nodeId, registry, customize).Ok? ==>
      var sel := SelectedStates(states, NodePattern(nodeId));
      var recs := NodeRecords(states, nodeId, registry, customize).value;
      && |recs| == |sel|
      && forall k :: 0 <= k < |sel| ==> MakeRecord(sel[k], nodeId, registry, customize) == Ok(recs[k])
    decreases |states|
  {
    if states != [] {
      var init := states[..|states| - 1];
      var st := states[|states| - 1];
      NodeRecordsShape(init, nodeId, registry, customize);
      MakeRecordFields(st, nodeId, registry, customize);
      var sel0 := SelectedStates(init, NodePattern(nodeId));
      var sel := SelectedStates(states, NodePattern(nodeId));
      forall i | 0 <= i < |sel0| ensures sel[i] == sel0[i] { }
      var recs0 := NodeRecords(init, nodeId, registry, customize);
      var recs := NodeRecords(states, nodeId, registry, customize);
      if recs0.Err? {
        var i :| 0 <= i < |sel0| && '.' !in sel0[i].entityId;
        assert sel[i] == sel0[i];
        assert recs == Err(recs0.error);
        assert 0 <= i < |sel| && '.' !in sel[i].entityId;

      } else if Selects(st, NodePattern(nodeId)) {
        assert sel == sel0 + [st];
        if '.' !in st.entityId {
          assert sel[|sel0|] == st;
        } else {
          forall i | 0 <= i < |sel| ensures '.' in sel[i].entityId {
            if i < |sel0| { assert sel[i] == sel0[i]; }
          }
        }
      } else {
        assert sel == sel0;
      }
    }
  }

  /** Every selected state belongs to the list and matches; every matching state of the list is selected. */
  lemma {:induction false} SelectedStatesMembers(states: seq<HaState>, pattern: string)
    ensures forall st :: st in SelectedStates(states, pattern) <==> st in states && Selects(st, pattern)
    decreases |states|
  {
    if states != [] {
      var init := states[..|states| - 1];
      SelectedStatesMembers(init, pattern);
      assert states == init + [states[|states| - 1]];
    }
  }
}
