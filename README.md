# Z-Wave entity mapper and node backup/restore, modelled in Dafny

This project models the reconciliation logic of a set of Home Assistant scripts that migrate Z-Wave JS
devices:

- **The entity mapper (an AppDaemon app)** picks a device's entities out of the state table. It exports
  a mapping template. It builds the `current_entity -> target_entity` lookup from the user's mapping file,
  then renames entities against a snapshot of the existing ids. It reports every entity as renamed,
  unchanged, error or unmapped, together with the surplus list and the error messages. It also filters
  the node table for a device's configuration and restores configuration parameters from an old device
  to a new one.
- **The node backup** selects every state whose entity id, or some string attribute, contains
  `node_<id>`. It shapes one record per selected state and names the backup file `node_<id>_backup.json`.
- **The restore** walks the backup entries. It counts those whose entity currently has a state, rewrites
  their customisations and renames their registry entries.

The Home Assistant runtime becomes plain inputs:
- the state table and the node table are sequences of pairs in dict order, with distinct keys;
- the set of existing ids is a `set`;
- the registry and the `customize` table are maps.

Each service the scripts call is a function `outcome: nat -> ServiceResult`: its answer to the k-th
request of the run. This covers the rename (`config/entity_registry/update_entity`, together with the
pre-rename backup write) and `zwave_js/set_config_parameter`.

Every loop of the scripts is a `method` with a `while` loop, proved against a specification function.
The function is a fold over the input, taken from the end. The restore changes the instance in place,
so it is a class `HassInstance` whose method updates the `customize` and `registry` fields. The
properties the scripts promise are lemmas about those specification functions.

Modules:
- `Wrappers`: `Option` and `Result`.
- `Seqs`: distinct keys, `list.remove`.
- `Text`: Python's `in` on strings, `split`/`join`, `str(int)`.
- `ZWaveEntityMapper` and `ZWaveDeviceConfig`: apps/zwave_entity_mapper.py.
- `EntitiesBackup`: entities_backup.py.
- `RestoreEntities`: restore_entities.py.

### Notes on the code

- **Collisions.** The comment at apps/zwave_entity_mapper.py:159 speaks of a target that "isn't being
  replaced as part of mapping", but the code never checks for that. If the target is truthy, differs
  from the entity and is in the snapshot of ids taken before the loop, the rename is an error. Renames
  made earlier in the same run never refresh that snapshot (`ZWaveEntityMapper.SnapshotNotRefreshed`).
- **Surplus.** `surplus_entities` starts as a copy of the entity list. Each decided entity removes one
  occurrence of itself, and unmapped entities remove none. So at the end it always equals
  `unmapped_entities`, even with repeated ids. `ZWaveEntityMapper.ApplyEntityMapping` proves this.
- **Unmapped.** An entity is unmapped when its target is missing, `null` or the empty string. The
  lookup keeps only truthy `current_entity` keys, so the empty entity id is always unmapped
  (`ZWaveEntityMapper.EmptyIdUnmapped`).

## Model

| member | source | states |
|---|---|---|
| ZWaveEntityMapper.ExtractZwaveEntities | apps/zwave_entity_mapper.py:104-114 | The ids returned are exactly the dict-valued states whose `device_id` matches, in table order. The attribute map's keys are exactly those ids, each mapped to its own state. |
| ZWaveEntityMapper.DeviceEntityIdsDistinct | apps/zwave_entity_mapper.py:109-112 | The extracted ids have no repeats. An id is extracted iff some table entry with that key is on the device. |
| ZWaveEntityMapper.MapDictFails | apps/zwave_entity_mapper.py:153-154 | Building the lookup fails iff some record with a truthy `current_entity` has no `target_entity` key. The error names the first such record. |
| ZWaveEntityMapper.MapDictKeys | apps/zwave_entity_mapper.py:153-154 | The lookup's keys are exactly the truthy `current_entity` values. Records with a falsy one are dropped. |
| ZWaveEntityMapper.MapDictLastWins | apps/zwave_entity_mapper.py:153-154 | For a repeated `current_entity`, the last record's target is the one kept. |
| ZWaveEntityMapper.ApplyEntityMapping | apps/zwave_entity_mapper.py:145-199 | A `target_entity` missing for a truthy `current_entity` aborts with that error and no requests. Otherwise mappings, unmapped, errors and the rename requests are those of the reference fold `Run`, and surplus equals unmapped. |
| ZWaveEntityMapper.RunUnmappedUndecided | apps/zwave_entity_mapper.py:186-191 | No unmapped entity has a usable target (a non-empty target other than itself, or itself). |
| ZWaveEntityMapper.StepShape | apps/zwave_entity_mapper.py:156-191 | One entity adds exactly one record, with `from` equal to the entity, when it has a usable target. A record that is not `unchanged` comes from a requested rename to the looked-up target. Errors and requests grow only with that record. Otherwise the entity is appended to unmapped and nothing else changes. |
| ZWaveEntityMapper.RunPartition | apps/zwave_entity_mapper.py:156-191 | Each entity lands in exactly one of mappings and unmapped, each in input order, so \|mappings\| + \|unmapped\| = \|entities\|. |
| ZWaveEntityMapper.RunErrors | apps/zwave_entity_mapper.py:161-184 | `errors` holds exactly one message per error record, in the same order. This covers both collisions and failed renames. |
| ZWaveEntityMapper.RunRecordsSound | apps/zwave_entity_mapper.py:157-187 | Each record matches the lookup. A requested rename keeps its target. A target in the snapshot gives the collision message as an error, any other target renamed or an error. Every other record is `unchanged` with its own id as target. |
| ZWaveEntityMapper.RunCalls | apps/zwave_entity_mapper.py:158-178 | The rename requests are exactly those of the records whose target is not in the snapshot. No request targets an existing id, the entity itself or the empty string. |
| ZWaveEntityMapper.RunAnswerAt | apps/zwave_entity_mapper.py:177-184 | The status of each attempted rename is the collaborator's answer to that very request. |
| ZWaveEntityMapper.MapDictAllNull | apps/zwave_entity_mapper.py:153-154 | Records whose targets are all `null` build a lookup without error, whose values are all None. |
| ZWaveEntityMapper.RunNoTargets | apps/zwave_entity_mapper.py:156-191 | When no entity has a usable target (a non-empty target other than itself, or itself), every entity is unmapped in order, with no records, errors or requests. |
| ZWaveEntityMapper.TemplateRenamesNothing | apps/zwave_entity_mapper.py:120-125 | Applying the exported template unchanged leaves every entity unmapped (and so surplus), with no records, errors or rename requests. |
| ZWaveEntityMapper.SnapshotNotRefreshed | apps/zwave_entity_mapper.py:151-160 | Two entities mapped to the same fresh target both get a rename request, because the snapshot is read once before the loop. |
| ZWaveEntityMapper.SingleEntityCases | apps/zwave_entity_mapper.py:156-191 | A target equal to the entity gives `unchanged` and no request. A missing, `null` or empty target gives unmapped. |
| ZWaveEntityMapper.EmptyIdUnmapped | apps/zwave_entity_mapper.py:153-157 | The empty id is never a key of any lookup built from a mapping file, so a run over it leaves it unmapped, with no records, errors or requests. |
| ZWaveDeviceConfig.BackupZwaveDeviceConfig | apps/zwave_entity_mapper.py:209-213 | A node-table key is in the backup iff its node is a dict on the device. Its value is that node's attributes, and no other key appears. |
| ZWaveDeviceConfig.FindParameters | apps/zwave_entity_mapper.py:229-240 | The first-match lookup with `break` finds nothing iff no node is on the device. Otherwise it returns the parameters of the first node that is. |
| ZWaveDeviceConfig.RestoreZwaveConfig | apps/zwave_entity_mapper.py:223-271 | When both the old and the new parameter dicts are non-empty, the summary and the requests are those of the reference fold `RestoreParams`. Otherwise restored, unmapped and errors are all empty and nothing is sent. |
| ZWaveDeviceConfig.RestorePartition | apps/zwave_entity_mapper.py:242-259 | Unmapped parameters are exactly the old ones the new device lacks, and only the others are sent, to the new device with their old value. Each sent parameter is restored or an error according to the answer, so the three lists together have one entry per old parameter. |
| ZWaveDeviceConfig.RestoreSplit | apps/zwave_entity_mapper.py:243-254 | Unmapped parameters are the absent ones, in order. The requests are those of the present ones, in order. |
| ZWaveDeviceConfig.RestoreAnswers | apps/zwave_entity_mapper.py:248-259 | Restored parameters are those of the accepted requests and errors those of the refused ones, in order. |
| ZWaveDeviceConfig.SentOnlyIfPresent | apps/zwave_entity_mapper.py:244-254 | A parameter absent on the new device is never sent. Every request goes to the new device and carries an old (parameter, value) pair. |
| EntitiesBackup.NonStringAttributeIgnored | entities_backup.py:54-55 | Adding a non-string attribute never changes whether a state is selected. |
| EntitiesBackup.LongerIdAlsoSelects | entities_backup.py:45-55 | Matching is a plain substring test: a state selected for node 10n+d (node 15, say) is also selected for node n (node 1). |
| EntitiesBackup.PatternOfLongerId | entities_backup.py:45 | The pattern of node 10n+d is the pattern of node n followed by the digit d. |
| EntitiesBackup.MakeRecordFields | entities_backup.py:58-83 | A record fails exactly for an id without a `.`. `domain` is the text before the first `.` and `object_id` the segment after it, up to the next `.`. `friendly_name` falls back to the id, and customisations default to empty. Registry fields are present iff the entity has a registry entry, and are then copied from it. |
| EntitiesBackup.NodeRecordsShape | entities_backup.py:50-85 | The loop fails iff some selected state has an id without a `.`. Otherwise it yields one record per selected state, in state-list order, each built from its own state. |
| EntitiesBackup.SelectedStatesMembers | entities_backup.py:50-55 | The selected states are exactly the states of the list that match the pattern. |
| EntitiesBackup.NodeRecordsErrSticks | entities_backup.py:63 | An error in a prefix of the state list aborts the whole backup with that error. |
| EntitiesBackup.BackupEntities | entities_backup.py:44-95 | The backup holds the loop's records, or aborts with its error. `node_id` is the argument, `entity_count` the number of records and the file `node_<id>_backup.json` in `backups/entity_backups`. |
| EntitiesBackup.BackupFileDistinct | entities_backup.py:88 | Different nodes are backed up to different files. |
| Text.SplitFirstTwo | entities_backup.py:62-63 | For an id containing `.`, the first two parts of `split('.')` contain no `.` and are the text up to the first `.` and the following segment. |
| Text.ContainsAt | entities_backup.py:54-55 | Python's substring test agrees with occurrence at some position. |
| Text.ContainsPrefix | entities_backup.py:54-55 | A string containing p+q contains p. |
| Text.IntToStringInjective | entities_backup.py:88 | Different node ids render as different decimal strings. |
| RestoreEntities.HassInstance.RestoreEntities | restore_entities.py:36-59 | The `customize` table and the registry become the reference folds over the entries, and the count returned is the number of entries whose entity has a state. |
| RestoreEntities.CountExistingBounds | restore_entities.py:36-56 | The count is at most the number of entries. It equals all of them iff every entry's entity exists, and is zero iff none does. |
| RestoreEntities.AbsentEntryIgnored | restore_entities.py:42 | An entry whose entity has no state changes neither the customise table, nor the registry, nor the count, wherever it stands. |
| RestoreEntities.RestoredAppend | restore_entities.py:38-56 | Restoring `xs + ys` is restoring `xs` and then `ys` from the resulting tables, and the counts add up. |
| RestoreEntities.CustomizeUntouched | restore_entities.py:44-45 | A key that no entry writes keeps its customisations, present or absent as before. |
| RestoreEntities.CustomizeLastWins | restore_entities.py:44-45 | Customisations are keyed by entity id, and the last entry that writes non-empty customisations for an existing entity wins. |
| RestoreEntities.RegistryShape | restore_entities.py:48-54 | The restore adds and removes no registry entries, and changes nothing in an entry but its name and icon. |
| RestoreEntities.RegistryUntouched | restore_entities.py:48-54 | A registry entry that no entry updates is left as it was. |
| RestoreEntities.RegistryLastWins | restore_entities.py:48-54 | The last entry that updates an existing registry entry with a truthy `registry_name` sets that name and its `registry_icon`, which may be None. |
| RestoreEntities.BackupRestoreIdentity | restore_entities.py:38-56 | Restoring a node backup into the instance it was just taken from changes neither the customise table nor the registry, and counts every backed-up entity. |
| RestoreEntities.RecordRestoresItself | restore_entities.py:42-54 | One backed-up record, restored into the tables it came from, leaves them as they are. |
| RestoreEntities.RestorePlan | restore_entities.py:62-72 | Usage iff the argument count is not 2. Otherwise it proceeds iff `node_<id>_backup.json` under `/config/backups/entity_backups` exists, and reports that path as not found when it does not. |
| RestoreEntities.RestoreReadsBackupFile | restore_entities.py:68 | The restore of node n reads the file the backup of node n writes, and no other node's. |

## Left out

- I/O is not modelled: YAML and JSON reading and writing, the pre-rename state backup file, the file
  written by `backup_zwave_device_config`, logging and `print`. The JSON round trip between backup and
  restore is assumed to be the identity on records.
- Timestamps (`datetime.now()`, `hass.loop.time()`) and the `timestamp` field of the backup are not modelled.
- The AppDaemon lifecycle (`initialize`, dashboard triggers), `main_flow` and `backup_entity_configs`
  are plumbing around the modelled operations, so they are left out.
- Home Assistant bootstrapping, `async_setup_hass`, start and stop, and the `sys.path` edits are not modelled.
  zwave_node_backup.py is not part of this model.
- `int(sys.argv[1])` parsing is left out: `RestorePlan` takes the parsed node id.
- State values and attributes are reduced to the keys the scripts read. `StateValue` keeps only
  `device_id`, and `NodeAttributes` keeps only `parameters`; the rest of a node's `attributes` dict, which
  `backup_zwave_device_config` copies whole, is not represented. Attribute values are strings, integers,
  booleans or None; other kinds (floats, lists) are not modelled.
- ZWaveDeviceConfig.RestoreZwaveConfig: the outer `except` that reports a `restore_process` error is
  not modelled, because the runtime query it guards is an input here.
- ZWaveDeviceConfig.RestoreZwaveConfig: the unused `mapping` argument is left out.
- ZWaveEntityMapper.ApplyEntityMapping: an exception other than the missing `target_entity` key while
  building the lookup (such as a non-dict record) is not modelled.
- Restore entries are modelled as the backup's own records. A hand-edited backup lacking `entity_id`
  (a `KeyError` at restore_entities.py:39) is outside the model. A missing `customizations` key is read
  with `.get` (line 44), raises nothing and writes no customisations, as the model's empty map does.
- `Path` normalisation of the configuration directory is not modelled: paths are joined with `/` as strings.
