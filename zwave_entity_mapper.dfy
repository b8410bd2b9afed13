/**
  The entity side of the Z-Wave entity mapper (an AppDaemon app): picking a device's entities out of
  the state table, the mapping template, the `current_entity -> target_entity` lookup and the
  reconciliation that renames entities and reports what happened to each one.

  The running Home Assistant instance is replaced by plain inputs: the state table is a sequence of
  (entity id, state) pairs, the set of existing ids is a parameter, and the rename collaborator
  (pre-rename backup file plus the `config/entity_registry/update_entity` service call) is a
  function `outcome` giving its answer to the k-th rename request of the run.
*/
module ZWaveEntityMapper {
  import opened Wrappers
  import opened Seqs

  type EntityId = string
  type DeviceId = string

  /** Answer of a service call: it returned, or it raised with the given message (`str(e)`). */
  datatype ServiceResult = ServiceOk | ServiceFailed(detail: string)

  // ---------------------------------------------------------------------------
  // extract_zwave_entities

  /** A value of the state table: a dict (only its `device_id` key matters here, None when absent
      or null) or anything else. */
  datatype StateValue = StateDict(deviceId: Option<DeviceId>) | NotADict

  /** `isinstance(state, dict) and state.get('device_id') == device_id` */
  predicate OnDevice(state: StateValue, deviceId: Option<DeviceId>) {
    state.StateDict? && state.deviceId == deviceId
  }

  /** The ids of the states on the device, in table order. */
  function DeviceEntityIds(all: seq<(EntityId, StateValue)>, deviceId: Option<DeviceId>): seq<EntityId>
    decreases |all|
  {
    if all == [] then []
    else
      var last := all[|all| - 1];
      DeviceEntityIds(all[..|all| - 1], deviceId) + (if OnDevice(last.1, deviceId) then [last.0] else [])
  }

  /** The ids picked from a dict have no repeats. */
  lemma {:induction false} DeviceEntityIdsDistinct(all: seq<(EntityId, StateValue)>, deviceId: Option<DeviceId>)
    requires DistinctKeys(all)
    ensures forall i, j :: 0 <= i < j < |DeviceEntityIds(all, deviceId)| ==>
      DeviceEntityIds(all, deviceId)[i] != DeviceEntityIds(all, deviceId)[j]
    ensures forall e :: e in DeviceEntityIds(all, deviceId) <==>
      exists i :: 0 <= i < |all| && all[i].0 == e && OnDevice(all[i].1, deviceId)
    decreases |all|
  {
    if all != [] {
      var init := all[..|all| - 1];
      var last := all[|all| - 1];
      DeviceEntityIdsDistinct(init, deviceId);
      forall e | e in DeviceEntityIds(all, deviceId)
        ensures exists i :: 0 <= i < |all| && all[i].0 == e && OnDevice(all[i].1, deviceId)
      {
        if e in DeviceEntityIds(init, deviceId) {
          var i :| 0 <= i < |init| && init[i].0 == e && OnDevice(init[i].1, deviceId);
          assert all[i] == init[i];
        } else {
          assert all[|all| - 1].0 == e && OnDevice(all[|all| - 1].1, deviceId);
        }
      }
      forall e | exists i :: 0 <= i < |all| && all[i].0 == e && OnDevice(all[i].1, deviceId)
        ensures e in DeviceEntityIds(all, deviceId)
      {
        var i :| 0 <= i < |all| && all[i].0 == e && OnDevice(all[i].1, deviceId);
        if i < |all| - 1 {
          assert init[i] == all[i];
        }
      }
      forall e | e in DeviceEntityIds(init, deviceId) ensures e != last.0 {
        var i :| 0 <= i < |init| && init[i].0 == e && OnDevice(init[i].1, deviceId);
        assert all[i] == init[i];
      }
      var before := DeviceEntityIds(init, deviceId);
      var ids := DeviceEntityIds(all, deviceId);
      forall i, j | 0 <= i < j < |ids| ensures ids[i] != ids[j] {
        if j >= |before| {
          assert ids[j] == last.0 && ids[i] == before[i];
          assert before[i] in before;
        } else {
          assert ids[i] == before[i] && ids[j] == before[j];
        }
      }
    }
  }

  /** extract_zwave_entities: the ids of the dict-valued states whose `device_id` equals the
      argument, in table order, and the same states keyed by id. */
  method ExtractZwaveEntities(all: seq<(EntityId, StateValue)>, deviceId: Option<DeviceId>)
    returns (ids: seq<EntityId>, attrs: map<EntityId, StateValue>)
    requires DistinctKeys(all)
    ensures ids == DeviceEntityIds(all, deviceId)
    ensures attrs.Keys == set e | e in ids
    ensures forall i :: 0 <= i < |all| ==> (all[i].0 in attrs <==> OnDevice(all[i].1, deviceId))
    ensures forall i :: 0 <= i < |all| && all[i].0 in attrs ==> attrs[all[i].0] == all[i].1
  {
    ids, attrs := [], map[];
    var n := 0;
    while n < |all|
      invariant 0 <= n <= |all|
      invariant ids == DeviceEntityIds(all[..n], deviceId)
      invariant attrs.Keys == set e | e in ids
      invariant forall i :: 0 <= i < n ==> (all[i].0 in attrs <==> OnDevice(all[i].1, deviceId))
      invariant forall i :: 0 <= i < n && all[i].0 in attrs ==> attrs[all[i].0] == all[i].1
      invariant forall e :: e in attrs ==> exists i :: 0 <= i < n && all[i].0 == e
    {
      var (entityId, state) := all[n];
      assert all[..n + 1][..n] == all[..n];
      if state.StateDict? && state.deviceId == deviceId {
        ids := ids + [entityId];
        attrs := attrs[entityId := state];
      }
      n := n + 1;
    }
    assert all[..n] == all;
  }

  // ---------------------------------------------------------------------------
  // The mapping document and map_dict

  /** A slot of a mapping record as YAML loads it: key missing, `null`, or a string. */
  datatype Field = Missing | Null | Str(s: string)

  /** One `{current_entity, target_entity}` record of the mapping file. */
  datatype MappingEntry = MappingEntry(current: Field, target: Field)

  /** The loaded mapping document; `mappings` is None when the key is missing. */
  datatype MappingDoc = MappingDoc(mappings: Option<seq<MappingEntry>>)

  /** Raised while building map_dict: a record with a truthy `current_entity` has no
      `target_entity` key (`KeyError`). */
  datatype MappingError = MissingTarget(current: EntityId)

  /** `mapping.get('mappings', [])` */
  function Entries(doc: MappingDoc): seq<MappingEntry> {
    doc.mappings.GetOr([])
  }

  /** Python truthiness of a slot: a non-empty string. */
  predicate Truthy(f: Field) {
    f.Str? && f.s != ""
  }

  /** The value a present `target_entity` slot gives: None for `null`. */
  function TargetValue(f: Field): Option<EntityId>
    requires !f.Missing?
  {
    if f.Str? then Some(f.s) else None
  }

  /** Adds one record to the dict being built. */
  function AddEntry(m: map<EntityId, Option<EntityId>>, e: MappingEntry): Result<map<EntityId, Option<EntityId>>, MappingError> {
    if !Truthy(e.current) then Ok(m)
    else if e.target.Missing? then Err(MissingTarget(e.current.s))
    else Ok(m[e.current.s := TargetValue(e.target)])
  }

  /** The dict comprehension `{m['current_entity']: m['target_entity'] for m in ... if m.get('current_entity')}`,
      records taken in order. */
  function MapDict(es: seq<MappingEntry>): Result<map<EntityId, Option<EntityId>>, MappingError>
    decreases |es|
  {
    if es == [] then Ok(map[])
    else
      match MapDict(es[..|es| - 1])
      case Err(e) => Err(e)
      case Ok(m) => AddEntry(m, es[|es| - 1])
  }

  /** Building the dict fails exactly when some record with a truthy `current_entity` lacks a
      `target_entity` key, and the error names the first such record. */
  lemma {:induction false} MapDictFails(es: seq<MappingEntry>)
    ensures MapDict(es).Err? <==> exists i :: 0 <= i < |es| && Truthy(es[i].current) && es[i].target.Missing?
    ensures MapDict(es).Err? ==>
      exists i :: && 0 <= i < |es| && Truthy(es[i].current) && es[i].target.Missing?
                  && MapDict(es).error == MissingTarget(es[i].current.s)
                  && forall j :: 0 <= j < i ==> !(Truthy(es[j].current) && es[j].target.Missing?)
    decreases |es|
  {
    if es != [] {
      var init := es[..|es| - 1];
      MapDictFails(init);
      forall i | 0 <= i < |init| ensures init[i] == es[i] { }
    }
  }

  /** The keys of the dict are exactly the truthy `current_entity` values. */
  lemma {:induction false} MapDictKeys(es: seq<MappingEntry>, k: EntityId)
    requires MapDict(es).Ok?
    ensures k in MapDict(es).value <==> k != "" && exists i :: 0 <= i < |es| && es[i].current == Str(k)
    decreases |es|
  {
    if es != [] {
      var init := es[..|es| - 1];
      MapDictKeys(init, k);
      if exists i :: 0 <= i < |init| && init[i].current == Str(k) {
        var i :| 0 <= i < |init| && init[i].current == Str(k);
        assert es[i] == init[i];
      }
      if exists i :: 0 <= i < |es| && es[i].current == Str(k) {
        var i :| 0 <= i < |es| && es[i].current == Str(k);
        if i < |init| {
          assert init[i] == es[i];
        }
      }
    }
  }

  /** For a repeated `current_entity` the last record wins. */
  lemma {:induction false} MapDictLastWins(es: seq<MappingEntry>, i: nat)
    requires MapDict(es).Ok?
    requires i < |es| && Truthy(es[i].current)
    requires forall j :: i < j < |es| ==> es[j].current != es[i].current
    ensures es[i].current.s in MapDict(es).value
    ensures !es[i].target.Missing? && MapDict(es).value[es[i].current.s] == TargetValue(es[i].target)
    decreases |es|
  {
    var init := es[..|es| - 1];
    if i < |es| - 1 {
      assert init[i] == es[i];
      MapDictLastWins(init, i);
    }
  }

  // ---------------------------------------------------------------------------
  // apply_entity_mapping

  /** Outcome of a record in `mappings`: `renamed`, `unchanged`, or `error` with its message. */
  datatype Status = Renamed | Unchanged | Error(error: string)

  /** `{'from': ent, 'to': tgt, 'status': ...}` */
  datatype MappedRecord = MappedRecord(from: EntityId, to: EntityId, status: Status)

  /** The report the reconciliation returns. */
  datatype Report = Report(mappings: seq<MappedRecord>, unmappedEntities: seq<EntityId>,
                           surplusEntities: seq<EntityId>, errors: seq<string>)

  /** A rename request handed to the collaborator. */
  datatype RenameCall = RenameCall(from: EntityId, to: EntityId)

  /** `map_dict.get(ent)`: None both for an absent key and for a `null` target. */
  function Lookup(dict: map<EntityId, Option<EntityId>>, ent: EntityId): Option<EntityId> {
    if ent in dict then dict[ent] else None
  }

  /** `tgt and tgt != ent` */
  predicate WantsRename(ent: EntityId, tgt: Option<EntityId>) {
    tgt.Some? && tgt.value != "" && tgt.value != ent
  }

  /** The entity gets a record in `mappings`: a rename is asked for, or `tgt == ent`. */
  predicate Decided(ent: EntityId, tgt: Option<EntityId>) {
    WantsRename(ent, tgt) || tgt == Some(ent)
  }

  /** The message logged and reported for a target that already exists. */
  function CollisionMessage(tgt: EntityId, ent: EntityId): string {
    "Target entity_id '" + tgt + "' already exists. Skipping rename '" + ent + "' => '" + tgt + "'"
  }

  /** What the run has produced so far. */
  datatype Progress = Progress(mapped: seq<MappedRecord>, unmapped: seq<EntityId>, errors: seq<string>,
                               calls: seq<RenameCall>)

  /** A requested rename of `ent` to `tgt`: a collision error when `tgt` is in the snapshot,
      otherwise a request to the collaborator, whose answer decides the record. */
  function RenameStep(p: Progress, ent: EntityId, tgt: EntityId, existing: set<EntityId>,
                      outcome: nat -> ServiceResult): Progress
  {
    if tgt in existing then
      var err := CollisionMessage(tgt, ent);
      p.(mapped := p.mapped + [MappedRecord(ent, tgt, Error(err))], errors := p.errors + [err])
    else
      var calls := p.calls + [RenameCall(ent, tgt)];
      match outcome(|p.calls|)
      case ServiceOk => p.(mapped := p.mapped + [MappedRecord(ent, tgt, Renamed)], calls := calls)
      case ServiceFailed(d) =>
        p.(mapped := p.mapped + [MappedRecord(ent, tgt, Error(d))], errors := p.errors + [d], calls := calls)
  }

  /** One pass of the loop body for entity `ent`. */
  function Step(p: Progress, ent: EntityId, dict: map<EntityId, Option<EntityId>>, existing: set<EntityId>,
                outcome: nat -> ServiceResult): Progress
  {
    var tgt := Lookup(dict, ent);
    if WantsRename(ent, tgt) then RenameStep(p, ent, tgt.value, existing, outcome)
    else if tgt == Some(ent) then p.(mapped := p.mapped + [MappedRecord(ent, ent, Unchanged)])
    else p.(unmapped := p.unmapped + [ent])
  }

  /** The loop over `entities`, in order, against the snapshot `existing` taken before it. */
  function Run(es: seq<EntityId>, dict: map<EntityId, Option<EntityId>>, existing: set<EntityId>,
               outcome: nat -> ServiceResult): Progress
    decreases |es|
  {
    if es == [] then Progress([], [], [], [])
    else Step(Run(es[..|es| - 1], dict, existing, outcome), es[|es| - 1], dict, existing, outcome)
  }

  /** The rename branch of the loop: report a collision for a target already in the snapshot, and
      otherwise issue the rename request and record the collaborator's answer. */
  method RequestRename(ent: EntityId, tgt: EntityId, existing: set<EntityId>, outcome: nat -> ServiceResult,
                       mapped: seq<MappedRecord>, errors: seq<string>, calls: seq<RenameCall>)
    returns (mapped': seq<MappedRecord>, errors': seq<string>, calls': seq<RenameCall>)
    ensures forall unmapped :: Progress(mapped', unmapped, errors', calls')
              == RenameStep(Progress(mapped, unmapped, errors, calls), ent, tgt, existing, outcome)
  {
    mapped', errors', calls' := mapped, errors, calls;
    if tgt in existing {
      var err := CollisionMessage(tgt, ent);
      mapped' := mapped' + [MappedRecord(ent, tgt, Error(err))];
      errors' := errors' + [err];
    } else {
      var answer := outcome(|calls|);
      calls' := calls' + [RenameCall(ent, tgt)];
      match answer {
        case ServiceOk =>
          mapped' := mapped' + [MappedRecord(ent, tgt, Renamed)];
        case ServiceFailed(d) =>
          mapped' := mapped' + [MappedRecord(ent, tgt, Error(d))];
          errors' := errors' + [d];
      }
    }
  }

  /** apply_entity_mapping. `existing` is `set(self.get_state().keys())`, read once before the loop;
      `outcome(k)` is the rename collaborator's answer to the k-th rename request. Besides the report
      it returns the rename requests issued, in order. The surplus list, a copy of `entities` from
      which every decided entity is removed once, always ends up equal to the unmapped list. */
  method ApplyEntityMapping(entities: seq<EntityId>, doc: MappingDoc, existing: set<EntityId>,
                            outcome: nat -> ServiceResult)
    returns (result: Result<Report, MappingError>, calls: seq<RenameCall>)
    ensures MapDict(Entries(doc)).Err? ==> result == Err(MapDict(Entries(doc)).error) && calls == []
    ensures MapDict(Entries(doc)).Ok? ==>
      var p := Run(entities, MapDict(Entries(doc)).value, existing, outcome);
      && result.Ok?
      && result.value.mappings == p.mapped
      && result.value.unmappedEntities == p.unmapped
      && result.value.errors == p.errors
      && calls == p.calls
    ensures result.Ok? ==> result.value.surplusEntities == result.value.unmappedEntities
  {
    var md := MapDict(Entries(doc));
    if md.Err? {
      return Err(md.error), [];
    }
    var dict := md.value;
    var mapped, unmapped, errors := [], [], [];
    var surplus := entities;
    calls := [];
    var i := 0;
    while i < |entities|
      invariant 0 <= i <= |entities|
      invariant Progress(mapped, unmapped, errors, calls) == Run(entities[..i], dict, existing, outcome)
      invariant surplus == unmapped + entities[i..]
    {
      var ent := entities[i];
      assert entities[..i + 1][..i] == entities[..i];
      ghost var before := Progress(mapped, unmapped, errors, calls);
      RunUnmappedUndecided(entities[..i], dict, existing, outcome);
      assert Run(entities[..i + 1], dict, existing, outcome) == Step(before, ent, dict, existing, outcome);
      assert entities[i..] == [ent] + entities[i + 1..];
      assert surplus == unmapped + [ent] + entities[i + 1..];
      var tgt := Lookup(dict, ent);
      if tgt.Some? && tgt.value != "" && tgt.value != ent {
        mapped, errors, calls := RequestRename(ent, tgt.value, existing, outcome, mapped, errors, calls);
        assert Progress(mapped, unmapped, errors, calls) == Step(before, ent, dict, existing, outcome);
        RemoveFirstAfter(unmapped, ent, entities[i + 1..]);
        surplus := RemoveFirst(surplus, ent);
        assert surplus == unmapped + entities[i + 1..];
      } else if tgt == Some(ent) {
        mapped := mapped + [MappedRecord(ent, ent, Unchanged)];
        assert Progress(mapped, unmapped, errors, calls) == Step(before, ent, dict, existing, outcome);
        RemoveFirstAfter(unmapped, ent, entities[i + 1..]);
        surplus := RemoveFirst(surplus, ent);
        assert surplus == unmapped + entities[i + 1..];
      } else {
        unmapped := unmapped + [ent];
        assert Progress(mapped, unmapped, errors, calls) == Step(before, ent, dict, existing, outcome);
        assert surplus == unmapped + entities[i + 1..];
      }
      i := i + 1;
    }
    assert entities[..i] == entities;
    result := Ok(Report(mapped, unmapped, surplus, errors));
  }
  // ---------------------------------------------------------------------------
  // What the reconciliation promises

  /** No entity in `unmapped_entities` has a usable target. */
  lemma {:induction false} RunUnmappedUndecided(es: seq<EntityId>, dict: map<EntityId, Option<EntityId>>,
                                                existing: set<EntityId>, outcome: nat -> ServiceResult)
    ensures forall u :: u in Run(es, dict, existing, outcome).unmapped ==> !Decided(u, Lookup(dict, u))
    decreases |es|
  {
    if es != [] {
      RunUnmappedUndecided(es[..|es| - 1], dict, existing, outcome);
    }
  }

  /** The entities that get a record in `mappings`, in input order. */
  function DecidedIds(es: seq<EntityId>, dict: map<EntityId, Option<EntityId>>): seq<EntityId>
    decreases |es|
  {
    if es == [] then []
    else
      var e := es[|es| - 1];
      DecidedIds(es[..|es| - 1], dict) + (if Decided(e, Lookup(dict, e)) then [e] else [])
  }

  /** The entities with no usable target, in input order. */
  function UnmappedIds(es: seq<EntityId>, dict: map<EntityId, Option<EntityId>>): seq<EntityId>
    decreases |es|
  {
    if es == [] then []
    else
      var e := es[|es| - 1];
      UnmappedIds(es[..|es| - 1], dict) + (if Decided(e, Lookup(dict, e)) then [] else [e])
  }

  /** The `from` of each record. */
  function Froms(rs: seq<MappedRecord>): seq<EntityId>
    decreases |rs|
  {
    if rs == [] then [] else Froms(rs[..|rs| - 1]) + [rs[|rs| - 1].from]
  }

  /** The messages of the `error` records, in order. */
  function ErrorMessages(rs: seq<MappedRecord>): seq<string>
    decreases |rs|
  {
    if rs == [] then []
    else
      var r := rs[|rs| - 1];
      ErrorMessages(rs[..|rs| - 1]) + (if r.status.Error? then [r.status.error] else [])
  }

  /** The records for which the collaborator was asked to rename: not `unchanged`, target not taken. */
  function Attempts(rs: seq<MappedRecord>, existing: set<EntityId>): seq<RenameCall>
    decreases |rs|
  {
    if rs == [] then []
    else
      var r := rs[|rs| - 1];
      Attempts(rs[..|rs| - 1], existing) + (if !r.status.Unchanged? && r.to !in existing then [RenameCall(r.from, r.to)] else [])
  }

  /** A record agrees with the lookup: a requested rename keeps its target and is an error with the
      collision message when the target is in the snapshot, otherwise renamed or a failure;
      every other record is an `unchanged` one whose target is the entity itself. */
  predicate RecordSound(r: MappedRecord, dict: map<EntityId, Option<EntityId>>, existing: set<EntityId>) {
    var tgt := Lookup(dict, r.from);
    if WantsRename(r.from, tgt) then
      && r.to == tgt.value
      && (r.to in existing ==> r.status == Error(CollisionMessage(r.to, r.from)))
      && (r.to !in existing ==> !r.status.Unchanged?)
    else
      tgt == Some(r.from) && r.to == r.from && r.status == Unchanged
  }

  /** The status a rename attempt gets from the collaborator's answer. */
  function AttemptStatus(answer: ServiceResult): Status {
    match answer
    case ServiceOk => Renamed
    case ServiceFailed(d) => Error(d)
  }

  /** One step appends one record, from `ent`, when `ent` is decided and appends `ent` to the unmapped
      list otherwise. */
  lemma StepShape(p: Progress, ent: EntityId, dict: map<EntityId, Option<EntityId>>, existing: set<EntityId>,
                  outcome: nat -> ServiceResult)
    ensures var q := Step(p, ent, dict, existing, outcome);
      if Decided(ent, Lookup(dict, ent)) then
        && q.unmapped == p.unmapped
        && |q.mapped| == |p.mapped| + 1 && q.mapped[..|p.mapped|] == p.mapped
        && q.mapped[|p.mapped|].from == ent
        && var r := q.mapped[|p.mapped|];
        && (!r.status.Unchanged? ==> WantsRename(ent, Lookup(dict, ent)) && r.to == Lookup(dict, ent).value)
        && q.errors == p.errors + (if r.status.Error? then [r.status.error] else [])
        && q.calls == p.calls + (if !r.status.Unchanged? && r.to !in existing then [RenameCall(r.from, r.to)] else [])
      else q == p.(unmapped := p.unmapped + [ent])
  {
  }

  /** Every entity lands in exactly one of `mappings` and `unmapped_entities`, each list in input order. */
  lemma {:induction false} RunPartition(es: seq<EntityId>, dict: map<EntityId, Option<EntityId>>,
                                        existing: set<EntityId>, outcome: nat -> ServiceResult)
    ensures var p := Run(es, dict, existing, outcome);
      && Froms(p.mapped) == DecidedIds(es, dict)
      && p.unmapped == UnmappedIds(es, dict)
      && |p.mapped| + |p.unmapped| == |es|
    decreases |es|
  {
    if es != [] {
      var init := es[..|es| - 1];
      RunPartition(init, dict, existing, outcome);
      var q := Run(init, dict, existing, outcome);
      var p := Run(es, dict, existing, outcome);
      var e := es[|es| - 1];
      assert p == Step(q, e, dict, existing, outcome);
      StepShape(q, e, dict, existing, outcome);
      if Decided(e, Lookup(dict, e)) {
        assert p.mapped[..|p.mapped| - 1] == q.mapped;
        assert Froms(p.mapped) == Froms(q.mapped) + [e];
      }
    }
  }

  /** `errors` holds one message per `error` record, in the same order. */
  lemma {:induction false} RunErrors(es: seq<EntityId>, dict: map<EntityId, Option<EntityId>>,
                                     existing: set<EntityId>, outcome: nat -> ServiceResult)
    ensures var p := Run(es, dict, existing, outcome); p.errors == ErrorMessages(p.mapped)
    decreases |es|
  {
    if es != [] {
      var init := es[..|es| - 1];
      RunErrors(init, dict, existing, outcome);
      var q := Run(init, dict, existing, outcome);
      var p := Run(es, dict, existing, outcome);
      var e := es[|es| - 1];
      assert p == Step(q, e, dict, existing, outcome);
      StepShape(q, e, dict, existing, outcome);
      if Decided(e, Lookup(dict, e)) {
        assert p.mapped[..|p.mapped| - 1] == q.mapped;
      }
    }
  }

  /** Each record agrees with the lookup and the snapshot. */
  lemma {:induction false} RunRecordsSound(es: seq<EntityId>, dict: map<EntityId, Option<EntityId>>,
                                           existing: set<EntityId>, outcome: nat -> ServiceResult)
    ensures forall r :: r in Run(es, dict, existing, outcome).mapped ==> RecordSound(r, dict, existing)
    decreases |es|
  {
    if es != [] {
      var init := es[..|es| - 1];
      RunRecordsSound(init, dict, existing, outcome);
      var q := Run(init, dict, existing, outcome);
      var p := Run(es, dict, existing, outcome);
      assert p == Step(q, es[|es| - 1], dict, existing, outcome);
      forall r | r in p.mapped ensures RecordSound(r, dict, existing) {
        var k :| 0 <= k < |p.mapped| && p.mapped[k] == r;
        if k < |q.mapped| {
          assert q.mapped[k] in q.mapped;
        } else {
          var e := es[|es| - 1];
          var tgt := Lookup(dict, e);
          if WantsRename(e, tgt) {
            if tgt.value in existing {
              assert p.mapped[k] == MappedRecord(e, tgt.value, Error(CollisionMessage(tgt.value, e)));
            } else {
              assert p.mapped[k] == MappedRecord(e, tgt.value, AttemptStatus(outcome(|q.calls|)));
            }
          } else {
            assert p.mapped[k] == MappedRecord(e, e, Unchanged);
          }
        }
      }
    }
  }

  /** The rename requests are exactly those of the records whose target is not in the snapshot, so a
      colliding target, an unchanged entity or an empty target is never sent. */
  lemma {:induction false} RunCalls(es: seq<EntityId>, dict: map<EntityId, Option<EntityId>>,
                                    existing: set<EntityId>, outcome: nat -> ServiceResult)
    ensures var p := Run(es, dict, existing, outcome);
      && p.calls == Attempts(p.mapped, existing)
      && (forall c :: c in p.calls ==> c.to !in existing && c.to != c.from && c.to != "")
    decreases |es|
  {
    if es != [] {
      var init := es[..|es| - 1];
      RunCalls(init, dict, existing, outcome);
      var q := Run(init, dict, existing, outcome);
      var p := Run(es, dict, existing, outcome);
      var e := es[|es| - 1];
      assert p == Step(q, e, dict, existing, outcome);
      StepShape(q, e, dict, existing, outcome);
      if Decided(e, Lookup(dict, e)) {
        assert p.mapped[..|p.mapped| - 1] == q.mapped;
      }
    }
  }

  /** The status of the record of a rename attempt is the collaborator's answer to that request:
      the k-th record, when it is an attempt, was answered by the call numbered by the attempts before it. */
  lemma {:induction false} RunAnswerAt(es: seq<EntityId>, dict: map<EntityId, Option<EntityId>>,
                                       existing: set<EntityId>, outcome: nat -> ServiceResult, k: nat)
    requires k < |Run(es, dict, existing, outcome).mapped|
    requires var r := Run(es, dict, existing, outcome).mapped[k]; !r.status.Unchanged? && r.to !in existing
    ensures var p := Run(es, dict, existing, outcome);
      p.mapped[k].status == AttemptStatus(outcome(|Attempts(p.mapped[..k], existing)|))
    decreases |es|
  {
    var init := es[..|es| - 1];
    var q := Run(init, dict, existing, outcome);
    var p := Run(es, dict, existing, outcome);
    if k < |q.mapped| {
      assert p.mapped[k] == q.mapped[k];
      assert p.mapped[..k] == q.mapped[..k];
      RunAnswerAt(init, dict, existing, outcome, k);
    } else {
      assert p.mapped[..k] == q.mapped;
      RunCalls(init, dict, existing, outcome);
    }
  }

  // ---------------------------------------------------------------------------
  // export_mapping_template

  /** export_mapping_template: one `{current_entity: ent, target_entity: None}` record per entity. */
  function ExportMappingTemplate(entities: seq<EntityId>): MappingDoc {
    MappingDoc(Some(seq(|entities|, k requires 0 <= k < |entities| => MappingEntry(Str(entities[k]), Null))))
  }

  /** Records whose targets are all `null` build a dict without error whose values are all None. */
  lemma {:induction false} MapDictAllNull(es: seq<MappingEntry>)
    requires forall i :: 0 <= i < |es| ==> es[i].target == Null
    ensures MapDict(es).Ok?
    ensures forall k :: k in MapDict(es).value ==> MapDict(es).value[k] == None
    decreases |es|
  {
    if es != [] {
      MapDictAllNull(es[..|es| - 1]);
    }
  }

  /** With no usable target for any entity, every entity is unmapped and nothing else happens. */
  lemma {:induction false} RunNoTargets(es: seq<EntityId>, dict: map<EntityId, Option<EntityId>>,
                                        existing: set<EntityId>, outcome: nat -> ServiceResult)
    requires forall e :: e in es ==> !Decided(e, Lookup(dict, e))
    ensures Run(es, dict, existing, outcome) == Progress([], es, [], [])
    decreases |es|
  {
    if es != [] {
      RunNoTargets(es[..|es| - 1], dict, existing, outcome);
      assert es[..|es| - 1] + [es[|es| - 1]] == es;
    }
  }

  /** Exporting the template and applying it unchanged renames nothing: no record in `mappings`,
      every entity unmapped (and so surplus), no errors, no rename request. */
  lemma TemplateRenamesNothing(entities: seq<EntityId>, existing: set<EntityId>, outcome: nat -> ServiceResult)
    ensures var md := MapDict(Entries(ExportMappingTemplate(entities)));
      && md.Ok?
      && Run(entities, md.value, existing, outcome) == Progress([], entities, [], [])
  {
    var es := Entries(ExportMappingTemplate(entities));
    MapDictAllNull(es);
    RunNoTargets(entities, MapDict(es).value, existing, outcome);
  }

  // ---------------------------------------------------------------------------
  // Single-run scenarios

  /** The collision snapshot is not refreshed by renames made earlier in the same run: two entities
      mapped to the same fresh target both get a rename request. */
  lemma SnapshotNotRefreshed(a: EntityId, c: EntityId, b: EntityId, existing: set<EntityId>,
                             outcome: nat -> ServiceResult)
    requires a != c && b != a && b != c && b != "" && b !in existing
    requires outcome(0) == ServiceOk && outcome(1) == ServiceOk
    ensures var dict := map[a := Some(b), c := Some(b)];
      var p := Run([a, c], dict, existing, outcome);
      && p.calls == [RenameCall(a, b), RenameCall(c, b)]
      && p.mapped == [MappedRecord(a, b, Renamed), MappedRecord(c, b, Renamed)]
  {
    var dict := map[a := Some(b), c := Some(b)];
    assert [a, c][..1] == [a] && [a][..0] == [];
    var p1 := Run([a], dict, existing, outcome);
    assert Run([], dict, existing, outcome) == Progress([], [], [], []);
    assert p1 == Step(Progress([], [], [], []), a, dict, existing, outcome);
    assert Lookup(dict, a) == Some(b) && Lookup(dict, c) == Some(b);
    assert p1 == Progress([MappedRecord(a, b, Renamed)], [], [], [RenameCall(a, b)]);
    assert Run([a, c], dict, existing, outcome) == Step(p1, c, dict, existing, outcome);
  }

  /** A target equal to the entity, a missing or null target, and an empty target. */
  lemma SingleEntityCases(ent: EntityId, existing: set<EntityId>, outcome: nat -> ServiceResult)
    ensures Run([ent], map[ent := Some(ent)], existing, outcome).mapped == [MappedRecord(ent, ent, Unchanged)]
    ensures Run([ent], map[ent := Some(ent)], existing, outcome).calls == []
    ensures Run([ent], map[], existing, outcome) == Progress([], [ent], [], [])
    ensures Run([ent], map[ent := None], existing, outcome) == Progress([], [ent], [], [])
    ensures ent != "" ==> Run([ent], map[ent := Some("")], existing, outcome) == Progress([], [ent], [], [])
  {
    assert [ent][..0] == [];
  }

  /** The empty entity id is never a key of the lookup (only truthy `current_entity` values are), so
      it always ends up unmapped. */
  lemma EmptyIdUnmapped(es: seq<MappingEntry>, existing: set<EntityId>, outcome: nat -> ServiceResult)
    requires MapDict(es).Ok?
    ensures "" !in MapDict(es).value
    ensures Run([""], MapDict(es).value, existing, outcome) == Progress([], [""], [], [])
  {
    MapDictKeys(es, "");
    assert [""][..0] == [];
  }
}
