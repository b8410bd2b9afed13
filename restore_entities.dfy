/**
  The entity restore of restore_entities.py: walking the entries of a node backup, counting those
  whose entity currently has a state, rewriting their customisations and renaming their registry
  entries; and the checks restore_main makes before it starts.
*/
module RestoreEntities {
  import opened Wrappers
  import opened EntitiesBackup

  /** The pieces of a running Home Assistant that the restore touches: which entities have a state
      (fixed during the restore), the `customize` table and the entity registry. */
  class HassInstance {
    const states: set<EntityId>
    var customize: map<EntityId, Customization>
    var registry: map<EntityId, RegistryEntry>

    constructor (states: set<EntityId>, customize: map<EntityId, Customization>,
                 registry: map<EntityId, RegistryEntry>)
      ensures this.states == states && this.customize == customize && this.registry == registry
    {
      this.states := states;
      this.customize := customize;
      this.registry := registry;
    }

    /** HAEntityRestore.restore_entities, from the loop over the backup entries on. */
    method RestoreEntities(entries: seq<BackupRecord>) returns (restoredCount: nat)
      modifies this
      ensures customize == RestoredCustomize(old(customize), states, entries)
      ensures registry == RestoredRegistry(old(registry), states, entries)
      ensures restoredCount == CountExisting(entries, states)
    {
      restoredCount := 0;
      var i := 0;
      while i < |entries|
        invariant 0 <= i <= |entries|
        invariant customize == RestoredCustomize(old(customize), states, entries[..i])
        invariant registry == RestoredRegistry(old(registry), states, entries[..i])
        invariant restoredCount == CountExisting(entries[..i], states)
      {
        var entityData := entries[i];
        var entityId := entityData.entityId;
        assert entries[..i + 1][..i] == entries[..i];
        if entityId in states {
          if entityData.customizations != map[] {
            customize := customize[entityId := entityData.customizations];
          }
          var name := RegistryName(entityData);
          if entityId in registry && name.Some? {
            registry := registry[entityId := registry[entityId].(name := name, icon := RegistryIcon(entityData))];
          }
          restoredCount := restoredCount + 1;
        }
        i := i + 1;
      }
      assert entries[..i] == entries;
    }
  }

  // ---------------------------------------------------------------------------
  // The effect of one entry and of the whole loop

  /** `entity_data.get('registry_name')` when it is truthy (present, not None, not empty). */
  function RegistryName(e: BackupRecord): Option<string> {
    if e.registry.Some? && e.registry.value.registryName.Some? && e.registry.value.registryName.value != "" then
      e.registry.value.registryName
    else None
  }

  /** `entity_data.get('registry_icon')` */
  function RegistryIcon(e: BackupRecord): Option<string> {
    if e.registry.Some? then e.registry.value.registryIcon else None
  }

  /** The entry writes its customisations: its entity exists and they are non-empty. */
  predicate WritesCustomize(e: BackupRecord, states: set<EntityId>) {
    e.entityId in states && e.customizations != map[]
  }

  /** The entry renames its registry entry: its entity exists, has a registry entry and the backup
      holds a truthy registry name. */
  predicate UpdatesRegistry(e: BackupRecord, states: set<EntityId>, registry: map<EntityId, RegistryEntry>) {
    e.entityId in states && e.entityId in registry && RegistryName(e).Some?
  }

  function CustomizeStep(c: map<EntityId, Customization>, states: set<EntityId>, e: BackupRecord): map<EntityId, Customization> {
    if WritesCustomize(e, states) then c[e.entityId := e.customizations] else c
  }

  function RegistryStep(r: map<EntityId, RegistryEntry>, states: set<EntityId>, e: BackupRecord): map<EntityId, RegistryEntry> {
    if UpdatesRegistry(e, states, r) then r[e.entityId := r[e.entityId].(name := RegistryName(e), icon := RegistryIcon(e))]
    else r
  }

  function RestoredCustomize(c: map<EntityId, Customization>, states: set<EntityId>, entries: seq<BackupRecord>): map<EntityId, Customization>
    decreases |entries|
  {
    if entries == [] then c
    else CustomizeStep(RestoredCustomize(c, states, entries[..|entries| - 1]), states, entries[|entries| - 1])
  }

  function RestoredRegistry(r: map<EntityId, RegistryEntry>, states: set<EntityId>, entries: seq<BackupRecord>): map<EntityId, RegistryEntry>
    decreases |entries|
  {
    if entries == [] then r
    else RegistryStep(RestoredRegistry(r, states, entries[..|entries| - 1]), states, entries[|entries| - 1])
  }

  /** The number of entries whose entity currently has a state. */
  function CountExisting(entries: seq<BackupRecord>, states: set<EntityId>): nat
    decreases |entries|
  {
    if entries == [] then 0
    else CountExisting(entries[..|entries| - 1], states) + (if entries[|entries| - 1].entityId in states then 1 else 0)
  }

  // ---------------------------------------------------------------------------
  // Properties of the restore

  /** The count is at most the number of entries; it is all of them exactly when every entry's entity
      exists, and none exactly when no entry's entity does. */
  lemma {:induction false} CountExistingBounds(entries: seq<BackupRecord>, states: set<EntityId>)
    ensures CountExisting(entries, states) <= |entries|
    ensures CountExisting(entries, states) == |entries| <==> forall i :: 0 <= i < |entries| ==> entries[i].entityId in states
    ensures CountExisting(entries, states) == 0 <==> forall i :: 0 <= i < |entries| ==> entries[i].entityId !in states
    decreases |entries|
  {
    if entries != [] {
      var init := entries[..|entries| - 1];
      CountExistingBounds(init, states);
      assert forall i :: 0 <= i < |init| ==> init[i] == entries[i];
    }
  }

  /** Running over `xs + ys` is running over `xs`, then over `ys` from there. */
  lemma {:induction false} RestoredAppend(c: map<EntityId, Customization>, r: map<EntityId, RegistryEntry>,
                                          states: set<EntityId>, xs: seq<BackupRecord>, ys: seq<BackupRecord>)
    ensures RestoredCustomize(c, states, xs + ys) == RestoredCustomize(RestoredCustomize(c, states, xs), states, ys)
    ensures RestoredRegistry(r, states, xs + ys) == RestoredRegistry(RestoredRegistry(r, states, xs), states, ys)
    ensures CountExisting(xs + ys, states) == CountExisting(xs, states) + CountExisting(ys, states)
    decreases |ys|
  {
    if ys == [] {
      assert xs + ys == xs;
    } else {
      assert (xs + ys)[..|xs + ys| - 1] == xs + ys[..|ys| - 1];
      RestoredAppend(c, r, states, xs, ys[..|ys| - 1]);
    }
  }

  /** An entry whose entity has no state changes neither the customise table, nor the registry, nor
      the count, wherever it stands in the backup. */
  lemma AbsentEntryIgnored(c: map<EntityId, Customization>, r: map<EntityId, RegistryEntry>,
                           states: set<EntityId>, xs: seq<BackupRecord>, e: BackupRecord, ys: seq<BackupRecord>)
    requires e.entityId !in states
    ensures RestoredCustomize(c, states, xs + [e] + ys) == RestoredCustomize(c, states, xs + ys)
    ensures RestoredRegistry(r, states, xs + [e] + ys) == RestoredRegistry(r, states, xs + ys)
    ensures CountExisting(xs + [e] + ys, states) == CountExisting(xs + ys, states)
  {
    RestoredAppend(c, r, states, xs + [e], ys);
    RestoredAppend(c, r, states, xs, ys);
    assert (xs + [e])[..|xs + [e]| - 1] == xs;
  }

  /** A key that no entry writes keeps its customisations (present or absent as before). */
  lemma {:induction false} CustomizeUntouched(c: map<EntityId, Customization>, states: set<EntityId>,
                                              entries: seq<BackupRecord>, k: EntityId)
    requires forall i :: 0 <= i < |entries| && entries[i].entityId == k ==> !WritesCustomize(entries[i], states)
    ensures k in RestoredCustomize(c, states, entries) <==> k in c
    ensures k in c ==> RestoredCustomize(c, states, entries)[k] == c[k]
    decreases |entries|
  {
    if entries != [] {
      var init := entries[..|entries| - 1];
      assert forall i :: 0 <= i < |init| ==> init[i] == entries[i];
      CustomizeUntouched(c, states, init, k);
    }
  }

  /** Customisations are keyed by entity id and the last entry that writes a key wins. */
  lemma {:induction false} CustomizeLastWins(c: map<EntityId, Customization>, states: set<EntityId>, entries: seq<BackupRecord>, i: nat)
    requires i < |entries| && WritesCustomize(entries[i], states)
    requires forall j :: i < j < |entries| && entries[j].entityId == entries[i].entityId ==> !WritesCustomize(entries[j], states)
    ensures entries[i].entityId in RestoredCustomize(c, states, entries)
    ensures RestoredCustomize(c, states, entries)[entries[i].entityId] == entries[i].customizations
  {
    var xs, ys := entries[..i + 1], entries[i + 1..];
    assert entries == xs + ys;
    assert xs[..|xs| - 1] == entries[..i];
    RestoredAppend(c, map[], states, xs, ys);
    CustomizeUntouched(RestoredCustomize(c, states, xs), states, ys, entries[i].entityId);
  }

  /** The restore never adds or removes registry entries, and changes nothing in an entry but its
      name and icon. */
  lemma {:induction false} RegistryShape(r: map<EntityId, RegistryEntry>, states: set<EntityId>, entries: seq<BackupRecord>)
    ensures RestoredRegistry(r, states, entries).Keys == r.Keys
    ensures forall k :: k in r ==>
      var e := RestoredRegistry(r, states, entries)[k];
      e == r[k].(name := e.name, icon := e.icon)
    decreases |entries|
  {
    if entries != [] {
      RegistryShape(r, states, entries[..|entries| - 1]);
    }
  }

  /** A registry entry that no entry renames is left as it was. */
  lemma {:induction false} RegistryUntouched(r: map<EntityId, RegistryEntry>, states: set<EntityId>,
                                             entries: seq<BackupRecord>, k: EntityId)
    requires k in r
    requires forall i :: 0 <= i < |entries| && entries[i].entityId == k ==> entries[i].entityId !in states || RegistryName(entries[i]).None?
    ensures k in RestoredRegistry(r, states, entries) && RestoredRegistry(r, states, entries)[k] == r[k]
    decreases |entries|
  {
    if entries != [] {
      var init := entries[..|entries| - 1];
      assert forall i :: 0 <= i < |init| ==> init[i] == entries[i];
      RegistryUntouched(r, states, init, k);
      RegistryShape(r, states, init);
    }
  }

  /** The last entry that renames an existing registry entry sets its name (a non-empty string) and
      its icon (which may be None). */
  lemma RegistryLastWins(r: map<EntityId, RegistryEntry>, states: set<EntityId>, entries: seq<BackupRecord>, i: nat)
    requires i < |entries| && entries[i].entityId in states && entries[i].entityId in r && RegistryName(entries[i]).Some?
    requires forall j :: i < j < |entries| && entries[j].entityId == entries[i].entityId ==>
               entries[j].entityId !in states || RegistryName(entries[j]).None?
    ensures entries[i].entityId in RestoredRegistry(r, states, entries)
    ensures var e := RestoredRegistry(r, states, entries)[entries[i].entityId];
      && e.name == entries[i].registry.value.registryName && e.name.value != ""
      && e.icon == entries[i].registry.value.registryIcon
  {
    var xs, ys := entries[..i + 1], entries[i + 1..];
    assert entries == xs + ys;
    assert xs[..|xs| - 1] == entries[..i];
    RegistryShape(r, states, entries[..i]);
    RestoredAppend(map[], r, states, xs, ys);
    RegistryUntouched(RestoredRegistry(r, states, xs), states, ys, entries[i].entityId);
  }

  // ---------------------------------------------------------------------------
  // Backup followed by restore

  /** Restoring a node backup into the instance it was just taken from changes neither the customise
      table nor the registry, and counts every backed-up entity. */
  lemma BackupRestoreIdentity(states: seq<HaState>, nodeId: int, registry: map<EntityId, RegistryEntry>,
                              customize: map<EntityId, Customization>)
    requires NodeRecords(states, nodeId, registry, customize).Ok?
    ensures var ids := set st | st in states :: st.entityId;
      var recs := NodeRecords(states, nodeId, registry, customize).value;
      && RestoredCustomize(customize, ids, recs) == customize
      && RestoredRegistry(registry, ids, recs) == registry
      && CountExisting(recs, ids) == |recs|
  {
    var ids := set st | st in states :: st.entityId;
    var recs := NodeRecords(states, nodeId, registry, customize).value;
    var sel := SelectedStates(states, NodePattern(nodeId));
    NodeRecordsShape(states, nodeId, registry, customize);
    SelectedStatesMembers(states, NodePattern(nodeId));
    forall k | 0 <= k < |recs|
      ensures recs[k].entityId in ids
      ensures CustomizeStep(customize, ids, recs[k]) == customize
      ensures RegistryStep(registry, ids, recs[k]) == registry
    {
      assert sel[k] in states;
      RecordRestoresItself(sel[k], nodeId, registry, customize, ids);
    }
    FixedPointRun(customize, registry, ids, recs);
    CountExistingBounds(recs, ids);
  }

  /** The record of an existing entity, restored into the tables it was taken from, leaves them as they are. */
  lemma RecordRestoresItself(st: HaState, nodeId: int, registry: map<EntityId, RegistryEntry>,
                             customize: map<EntityId, Customization>, ids: set<EntityId>)
    requires st.entityId in ids
    requires MakeRecord(st, nodeId, registry, customize).Ok?
    ensures var r := MakeRecord(st, nodeId, registry, customize).value;
      && r.entityId in ids
      && CustomizeStep(customize, ids, r) == customize
      && RegistryStep(registry, ids, r) == registry
  {
    MakeRecordFields(st, nodeId, registry, customize);
  }

  /** Entries each of which leaves the tables as they are leave them as they are together. */
  lemma {:induction false} FixedPointRun(c: map<EntityId, Customization>, r: map<EntityId, RegistryEntry>,
                                         states: set<EntityId>, entries: seq<BackupRecord>)
    requires forall k :: 0 <= k < |entries| ==> CustomizeStep(c, states, entries[k]) == c
    requires forall k :: 0 <= k < |entries| ==> RegistryStep(r, states, entries[k]) == r
    ensures RestoredCustomize(c, states, entries) == c && RestoredRegistry(r, states, entries) == r
    decreases |entries|
  {
    if entries != [] {
      var init := entries[..|entries| - 1];
      assert forall k :: 0 <= k < |init| ==> init[k] == entries[k];
      FixedPointRun(c, r, states, init);
    }
  }

  // ---------------------------------------------------------------------------
  // restore_main

  /** What restore_main does before restoring: print usage, report a missing backup, or go on. */
  datatype RestoreStart = Usage | BackupNotFound(path: string) | Proceed(path: string, nodeId: int)

  /** The default configuration directory of HAEntityRestore. */
  const DefaultConfigPath: string := "/config"

  /** restore_main up to the call of restore_entities. `argc` is `len(sys.argv)`, `nodeId` is
      `int(sys.argv[1])` and `fileExists` stands for `Path.exists`. */
  function RestorePlan(argc: nat, nodeId: int, fileExists: string -> bool): (plan: RestoreStart)
    ensures plan.Usage? <==> argc != 2
    ensures plan.Proceed? <==> argc == 2 && fileExists(BackupFile(DefaultConfigPath, nodeId))
    ensures plan.Proceed? ==> plan == Proceed(BackupFile(DefaultConfigPath, nodeId), nodeId)
    ensures plan.BackupNotFound? ==> plan.path == BackupFile(DefaultConfigPath, nodeId)
  {
    if argc != 2 then Usage
    else
      var backupFile := BackupFile(DefaultConfigPath, nodeId);
      if !fileExists(backupFile) then BackupNotFound(backupFile)
      else Proceed(backupFile, nodeId)
  }

  /** The restore of node `n` reads the very file the backup of node `n` writes, and no other node's. */
  lemma RestoreReadsBackupFile(n: int, m: int, fileExists: string -> bool)
    ensures !RestorePlan(2, n, fileExists).Usage?
    ensures RestorePlan(2, n, fileExists).path == BackupFile(DefaultConfigPath, m) <==> n == m
  {
    if RestorePlan(2, n, fileExists).path == BackupFile(DefaultConfigPath, m) {
      BackupFileDistinct(DefaultConfigPath, n, m);
    }
  }
}
