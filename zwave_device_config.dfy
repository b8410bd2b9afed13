/**
  The device-configuration side of the Z-Wave entity mapper: the per-device filter of
  `backup_zwave_device_config` and the parameter restore of `restore_zwave_config`.

  The node table returned by the runtime query is a sequence of (key, node) pairs in dict order;
  the `zwave_js/set_config_parameter` service is a function `outcome` giving its answer to the
  k-th call of the run.
*/
module ZWaveDeviceConfig {
  import opened Wrappers
  import opened Seqs
  import opened ZWaveEntityMapper

  type ParamId = string
  type ParamValue = int

  /** The `attributes` of a node; only its `parameters` dict is modelled (`[]` when the key is absent,
      an absent `attributes` reads as an empty one). */
  datatype NodeAttributes = NodeAttributes(parameters: seq<(ParamId, ParamValue)>)

  /** A value of the node table: a dict with an optional `device_id`, or anything else. */
  datatype NodeValue = NodeDict(deviceId: Option<DeviceId>, attributes: NodeAttributes) | NotANode

  /** `isinstance(node, dict) and node.get('device_id') == device_id` */
  predicate NodeOn(node: NodeValue, deviceId: Option<DeviceId>) {
    node.NodeDict? && node.deviceId == deviceId
  }

  // ---------------------------------------------------------------------------
  // backup_zwave_device_config

  /** The filter of backup_zwave_device_config: the attributes of every node of the device, keyed as
      in the node table, and nothing else. */
  method BackupZwaveDeviceConfig(nodes: seq<(string, NodeValue)>, deviceId: Option<DeviceId>)
    returns (backup: map<string, NodeAttributes>)
    requires DistinctKeys(nodes)
    ensures forall i :: 0 <= i < |nodes| ==> (nodes[i].0 in backup <==> NodeOn(nodes[i].1, deviceId))
    ensures forall i :: 0 <= i < |nodes| && nodes[i].0 in backup && nodes[i].1.NodeDict? ==>
      backup[nodes[i].0] == nodes[i].1.attributes
    ensures forall k :: k in backup ==> exists i :: 0 <= i < |nodes| && nodes[i].0 == k
  {
    backup := map[];
    var n := 0;
    while n < |nodes|
      invariant 0 <= n <= |nodes|
      invariant forall i :: 0 <= i < n ==> (nodes[i].0 in backup <==> NodeOn(nodes[i].1, deviceId))
      invariant forall i :: 0 <= i < n && nodes[i].0 in backup && nodes[i].1.NodeDict? ==>
      backup[nodes[i].0] == nodes[i].1.attributes
      invariant forall k :: k in backup ==> exists i :: 0 <= i < n && nodes[i].0 == k
    {
      var (aid, node) := nodes[n];
      if node.NodeDict? && node.deviceId == deviceId {
        backup := backup[aid := node.attributes];
      }
      n := n + 1;
    }
  }

  // ---------------------------------------------------------------------------
  // restore_zwave_config

  /** The `parameters` of the first node of the device in table order; None when there is none. */
  function FirstParameters(nodes: seq<(string, NodeValue)>, deviceId: Option<DeviceId>): Option<seq<(ParamId, ParamValue)>>
    decreases |nodes|
  {
    if nodes == [] then None
    else if NodeOn(nodes[0].1, deviceId) then Some(nodes[0].1.attributes.parameters)
    else FirstParameters(nodes[1..], deviceId)
  }

  /** The first-match loop with `break`: finds the first node of the device and takes its parameters. */
  method FindParameters(nodes: seq<(string, NodeValue)>, deviceId: Option<DeviceId>)
    returns (params: Option<seq<(ParamId, ParamValue)>>)
    ensures params == FirstParameters(nodes, deviceId)
    ensures params.None? <==> forall i :: 0 <= i < |nodes| ==> !NodeOn(nodes[i].1, deviceId)
    ensures params.Some? ==> exists i :: && 0 <= i < |nodes| && NodeOn(nodes[i].1, deviceId)
                                         && (forall j :: 0 <= j < i ==> !NodeOn(nodes[j].1, deviceId))
                                         && params.value == nodes[i].1.attributes.parameters
  {
    params := None;
    var n := 0;
    while n < |nodes|
      invariant 0 <= n <= |nodes|
      invariant forall j :: 0 <= j < n ==> !NodeOn(nodes[j].1, deviceId)
      invariant FirstParameters(nodes, deviceId) == FirstParameters(nodes[n..], deviceId)
    {
      var node := nodes[n].1;
      if node.NodeDict? && node.deviceId == deviceId {
        params := Some(node.attributes.parameters);
        break;
      }
      assert nodes[n..][1..] == nodes[n + 1..];
      n := n + 1;
    }
  }

  /** A `set_config_parameter` request: device, parameter and value. */
  datatype ParamCall = ParamCall(deviceId: Option<DeviceId>, param: ParamId, value: ParamValue)

  /** The summary restore_zwave_config returns; each error is `{param: str(e)}`. */
  datatype RestoreSummary = RestoreSummary(restored: seq<ParamId>, unmappedParameters: seq<ParamId>,
                                           errors: seq<(ParamId, string)>)

  /** What the loop over the old parameters has produced so far. */
  datatype RestoreProgress = RestoreProgress(summary: RestoreSummary, calls: seq<ParamCall>)

  /** The loop over `old_config.items()`: a parameter the new device lacks is skipped as unmapped,
      every other one is sent and is restored or an error according to the service's answer. */
  function RestoreParams(oldParams: seq<(ParamId, ParamValue)>, newParams: seq<(ParamId, ParamValue)>,
                         deviceId: Option<DeviceId>, outcome: nat -> ServiceResult): RestoreProgress
    decreases |oldParams|
  {
    if oldParams == [] then RestoreProgress(RestoreSummary([], [], []), [])
    else
      var p := RestoreParams(oldParams[..|oldParams| - 1], newParams, deviceId, outcome);
      var (param, value) := oldParams[|oldParams| - 1];
      var s := p.summary;
      if param !in Keys(newParams) then
        p.(summary := s.(unmappedParameters := s.unmappedParameters + [param]))
      else
        var calls := p.calls + [ParamCall(deviceId, param, value)];
        match outcome(|p.calls|)
        case ServiceOk => RestoreProgress(s.(restored := s.restored + [param]), calls)
        case ServiceFailed(d) => RestoreProgress(s.(errors := s.errors + [(param, d)]), calls)
  }

  /** Python truthiness of a parameters dict found (or not) on a device. */
  predicate NonEmpty(params: Option<seq<(ParamId, ParamValue)>>) {
    params.Some? && |params.value| > 0
  }

  /** restore_zwave_config. `sourceDevice` is the app's `target_device_id`, `deviceId` the new device.
      Both parameter dicts are looked up first-match; only when both are non-empty is each old
      parameter restored, skipped or recorded as an error. */
  method RestoreZwaveConfig(nodes: seq<(string, NodeValue)>, sourceDevice: Option<DeviceId>, deviceId: Option<DeviceId>,
                            outcome: nat -> ServiceResult)
    returns (summary: RestoreSummary, calls: seq<ParamCall>)
    ensures var oldConfig := FirstParameters(nodes, sourceDevice);
      var newParams := FirstParameters(nodes, deviceId);
      if NonEmpty(oldConfig) && NonEmpty(newParams) then
        RestoreProgress(summary, calls) == RestoreParams(oldConfig.value, newParams.value, deviceId, outcome)
      else
        summary == RestoreSummary([], [], []) && calls == []
  {
    var restored, unmapped, errors := [], [], [];
    calls := [];
    var found := FindParameters(nodes, sourceDevice);
    var oldConfig := found.GetOr([]);
    var newParams := FindParameters(nodes, deviceId);
    if |oldConfig| > 0 && newParams.Some? && |newParams.value| > 0 {
      var newKeys := Keys(newParams.value);
      var n := 0;
      while n < |oldConfig|
        invariant 0 <= n <= |oldConfig|
        invariant RestoreProgress(RestoreSummary(restored, unmapped, errors), calls)
                  == RestoreParams(oldConfig[..n], newParams.value, deviceId, outcome)
      {
        var (param, value) := oldConfig[n];
        assert oldConfig[..n + 1][..n] == oldConfig[..n];
        if param !in newKeys {
          unmapped := unmapped + [param];
        } else {
          var answer := outcome(|calls|);
          calls := calls + [ParamCall(deviceId, param, value)];
          match answer {
            case ServiceOk =>
              restored := restored + [param];
            case ServiceFailed(d) =>
              errors := errors + [(param, d)];
          }
        }
        n := n + 1;
      }
      assert oldConfig[..n] == oldConfig;
    }
    summary := RestoreSummary(restored, unmapped, errors);
  }

  // ---------------------------------------------------------------------------
  // What the restore promises

  /** The old parameters the new device lacks, in order. */
  function AbsentParams(oldParams: seq<(ParamId, ParamValue)>, newParams: seq<(ParamId, ParamValue)>): seq<ParamId>
    decreases |oldParams|
  {
    if oldParams == [] then []
    else
      var param := oldParams[|oldParams| - 1].0;
      AbsentParams(oldParams[..|oldParams| - 1], newParams) + (if param in Keys(newParams) then [] else [param])
  }

  /** The requests for the old parameters the new device has, in order. */
  function SentParams(oldParams: seq<(ParamId, ParamValue)>, newParams: seq<(ParamId, ParamValue)>,
                      deviceId: Option<DeviceId>): seq<ParamCall>
    decreases |oldParams|
  {
    if oldParams == [] then []
    else
      var (param, value) := oldParams[|oldParams| - 1];
      SentParams(oldParams[..|oldParams| - 1], newParams, deviceId) +
        (if param in Keys(newParams) then [ParamCall(deviceId, param, value)] else [])
  }

  /** The parameters of the requests the service accepted, in order. */
  function Accepted(calls: seq<ParamCall>, outcome: nat -> ServiceResult): seq<ParamId>
    decreases |calls|
  {
    if calls == [] then []
    else
      Accepted(calls[..|calls| - 1], outcome) +
        (if outcome(|calls| - 1).ServiceOk? then [calls[|calls| - 1].param] else [])
  }

  /** `{param: str(e)}` for the requests the service refused, in order. */
  function Refused(calls: seq<ParamCall>, outcome: nat -> ServiceResult): seq<(ParamId, string)>
    decreases |calls|
  {
    if calls == [] then []
    else
      var answer := outcome(|calls| - 1);
      Refused(calls[..|calls| - 1], outcome) +
        (if answer.ServiceFailed? then [(calls[|calls| - 1].param, answer.detail)] else [])
  }

  /** Each old parameter lands in exactly one of restored, unmapped and errors: the unmapped ones are
      those the new device lacks, only the others are sent (to the new device, with their old value),
      and a sent parameter is restored exactly when the service accepted its request. */
  lemma {:induction false} RestorePartition(oldParams: seq<(ParamId, ParamValue)>, newParams: seq<(ParamId, ParamValue)>,
                                            deviceId: Option<DeviceId>, outcome: nat -> ServiceResult)
    ensures var p := RestoreParams(oldParams, newParams, deviceId, outcome);
      && p.summary.unmappedParameters == AbsentParams(oldParams, newParams)
      && p.calls == SentParams(oldParams, newParams, deviceId)
      && p.summary.restored == Accepted(p.calls, outcome)
      && p.summary.errors == Refused(p.calls, outcome)
      && |p.summary.restored| + |p.summary.unmappedParameters| + |p.summary.errors| == |oldParams|
  {
    RestoreSplit(oldParams, newParams, deviceId, outcome);
    RestoreAnswers(oldParams, newParams, deviceId, outcome);
    AbsentSentCount(oldParams, newParams, deviceId);
    AnswerCount(SentParams(oldParams, newParams, deviceId), outcome);
  }

  /** The unmapped parameters are the absent ones and the requests are those of the present ones. */
  lemma {:induction false} RestoreSplit(oldParams: seq<(ParamId, ParamValue)>, newParams: seq<(ParamId, ParamValue)>,
                                        deviceId: Option<DeviceId>, outcome: nat -> ServiceResult)
    ensures RestoreParams(oldParams, newParams, deviceId, outcome).summary.unmappedParameters == AbsentParams(oldParams, newParams)
    ensures RestoreParams(oldParams, newParams, deviceId, outcome).calls == SentParams(oldParams, newParams, deviceId)
    decreases |oldParams|
  {
    if oldParams != [] {
      RestoreSplit(oldParams[..|oldParams| - 1], newParams, deviceId, outcome);
    }
  }

  /** The restored parameters and the errors follow the answers to the requests, in order. */
  lemma {:induction false} RestoreAnswers(oldParams: seq<(ParamId, ParamValue)>, newParams: seq<(ParamId, ParamValue)>,
                                          deviceId: Option<DeviceId>, outcome: nat -> ServiceResult)
    ensures var p := RestoreParams(oldParams, newParams, deviceId, outcome);
      p.summary.restored == Accepted(p.calls, outcome) && p.summary.errors == Refused(p.calls, outcome)
    decreases |oldParams|
  {
    if oldParams != [] {
      var init := oldParams[..|oldParams| - 1];
      RestoreAnswers(init, newParams, deviceId, outcome);
      var q := RestoreParams(init, newParams, deviceId, outcome);
      var p := RestoreParams(oldParams, newParams, deviceId, outcome);
      if oldParams[|oldParams| - 1].0 in Keys(newParams) {
        assert |p.calls| == |q.calls| + 1 && p.calls[..|p.calls| - 1] == q.calls;
      } else {
        assert p.calls == q.calls;
      }
    }
  }

  lemma {:induction false} AbsentSentCount(oldParams: seq<(ParamId, ParamValue)>, newParams: seq<(ParamId, ParamValue)>,
                                           deviceId: Option<DeviceId>)
    ensures |AbsentParams(oldParams, newParams)| + |SentParams(oldParams, newParams, deviceId)| == |oldParams|
    decreases |oldParams|
  {
    if oldParams != [] {
      AbsentSentCount(oldParams[..|oldParams| - 1], newParams, deviceId);
    }
  }

  lemma {:induction false} AnswerCount(calls: seq<ParamCall>, outcome: nat -> ServiceResult)
    ensures |Accepted(calls, outcome)| + |Refused(calls, outcome)| == |calls|
    decreases |calls|
  {
    if calls != [] {
      AnswerCount(calls[..|calls| - 1], outcome);
    }
  }

  /** A parameter absent on the new device is never sent. */
  lemma {:induction false} SentOnlyIfPresent(oldParams: seq<(ParamId, ParamValue)>, newParams: seq<(ParamId, ParamValue)>,
                                             deviceId: Option<DeviceId>)
    ensures forall c :: c in SentParams(oldParams, newParams, deviceId) ==>
      c.param in Keys(newParams) && c.deviceId == deviceId && (c.param, c.value) in oldParams
    decreases |oldParams|
  {
    if oldParams != [] {
      var init := oldParams[..|oldParams| - 1];
      SentOnlyIfPresent(init, newParams, deviceId);
      forall c | c in SentParams(oldParams, newParams, deviceId) ensures (c.param, c.value) in oldParams {
        if c in SentParams(init, newParams, deviceId) {
          assert (c.param, c.value) in init;
        } else {
          assert (c.param, c.value) == oldParams[|oldParams| - 1];
        }
      }
    }
  }
}
