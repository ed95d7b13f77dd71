/** `CPUController`: the `cpu` section of the worker's configuration, as
    `update_cpu_config` changes it and `display_cpu_config` reads the thread
    count back from it. */
module CpuConfig {

  import opened Wrappers
  import opened Text
  import opened Decimal
  import opened ConfigStore

  function Min(a: int, b: int): int {
    if a <= b then a else b
  }

  /** `str(i) for i in range(n)`: `n` fields, the i-th reading back as the
      core index i, none holding a comma. */
  function CoreIds(n: nat): (r: seq<string>)
    ensures |r| == n
    ensures forall i :: 0 <= i < n ==> ParseNat(r[i]) == Some(i) && ',' !in r[i]
  {
    seq(n, i requires 0 <= i => NatToString(i))
  }

  /** The affinity string `"0,1,...,n-1"`. */
  function AffinityString(n: nat): string {
    Join(CoreIds(n), ',')
  }

  /** The keys `update_cpu_config` assigns in the `cpu` section, in the
      order it assigns them: the affinity derived from `max_threads`, the
      priority, then the explicit affinity, which overwrites the derived
      one. Python's `None` is `JNull` for the explicit affinity, which can
      be any value: `affinity is not None` is `!affinity.JNull?`. */
  function CpuUpdates(maxThreads: Option<int>, priority: Option<int>, affinity: Json, cores: nat)
    : (u: map<string, Json>)
    ensures u.Keys <= {"affinity", "priority"}
    ensures "affinity" in u <==> !affinity.JNull? || (maxThreads.Some? && maxThreads.value > 0)
    ensures !affinity.JNull? ==> u["affinity"] == affinity
    ensures affinity.JNull? && maxThreads.Some? && maxThreads.value > 0 ==>
              u["affinity"] == JString(AffinityString(Min(maxThreads.value, cores)))
    ensures "priority" in u <==> priority.Some? && 0 <= priority.value <= 5
    ensures "priority" in u ==> u["priority"] == JInt(priority.value)
  {
    var derived: map<string, Json> :=
      if maxThreads.Some? && maxThreads.value > 0
      then map["affinity" := JString(AffinityString(Min(maxThreads.value, cores)))]
      else map[];
    var prioritised := if priority.Some? && 0 <= priority.value <= 5
      then derived["priority" := JInt(priority.value)]
      else derived;
    if !affinity.JNull? then prioritised["affinity" := affinity] else prioritised
  }

  /** What `update_cpu_config` does to the loaded document: `Returned(None)`
      when it returns `False` without writing, `Returned(Some(d))` when it
      writes `d`, `Raised` when an exception escapes it. A missing `cpu` key
      is first set to `{}`; a later assignment into a `cpu` value that is
      not an object raises. */
  function CpuEdit(doc: Option<Json>, maxThreads: Option<int>, priority: Option<int>,
                   affinity: Json, cores: nat): (r: Call<Option<Json>>)
    ensures r.Returned? && r.value.Some? ==>
      doc.Some? && HasCpuObject(r.value.value) && CpuUpdates(maxThreads, priority, affinity, cores) != map[]
  {
    match doc
    case None => Returned(None)
    case Some(config) =>
      match HasKey(config, "cpu")
      case Raised => Raised
      case Returned(present) =>
        if !present && !config.JObject? then Raised
        else
          var config' := if present then config else JObject(config.fields["cpu" := JObject(map[])]);
          var u := CpuUpdates(maxThreads, priority, affinity, cores);
          if u == map[] then Returned(None)
          else if HasCpuObject(config') then Returned(Some(MergeCpu(config', u)))
          else Raised
  }

  /** A document whose `cpu` section can be assigned into. */
  predicate HasCpuObject(config: Json) {
    config.JObject? && "cpu" in config.fields && config.fields["cpu"].JObject?
  }

  /** The document with the keys of `u` assigned in its `cpu` section. */
  function MergeCpu(config: Json, u: map<string, Json>): (r: Json)
    requires HasCpuObject(config)
    ensures HasCpuObject(r) && r.fields.Keys == config.fields.Keys
    ensures forall k :: k in config.fields && k != "cpu" ==> r.fields[k] == config.fields[k]
    ensures r.fields["cpu"].fields.Keys == config.fields["cpu"].fields.Keys + u.Keys
    ensures forall k :: k in u ==> r.fields["cpu"].fields[k] == u[k]
    ensures forall k :: k in config.fields["cpu"].fields && k !in u ==>
              r.fields["cpu"].fields[k] == config.fields["cpu"].fields[k]
  {
    JObject(config.fields["cpu" := JObject(config.fields["cpu"].fields + u)])
  }

  /** `CpuEdit` once the `cpu` section has been defaulted: nothing to do,
      the merged document, or an assignment that raises. */
  lemma CpuEditPrepared(config: Json, present: bool, base: Json, maxThreads: Option<int>,
                        priority: Option<int>, affinity: Json, cores: nat)
    requires HasKey(config, "cpu") == Returned(present)
    requires present || config.JObject?
    requires base == if present then config else JObject(config.fields["cpu" := JObject(map[])])
    ensures var u := CpuUpdates(maxThreads, priority, affinity, cores);
      CpuEdit(Some(config), maxThreads, priority, affinity, cores)
        == if u == map[] then Returned(None)
           else if HasCpuObject(base) then Returned(Some(MergeCpu(base, u)))
           else Raised
  {
  }

  /** `config['cpu'][key] = value`. */
  function AssignCpu(config: Json, key: string, value: Json): Call<Json>
  {
    if HasCpuObject(config) then
      var cpu := config.fields["cpu"].fields;
      Returned(JObject(config.fields["cpu" := JObject(cpu[key := value])]))
    else Raised
  }

  /** One more assignment extends the merged keys. */
  lemma AssignMerged(base: Json, u: map<string, Json>, key: string, value: Json)
    requires HasCpuObject(base)
    ensures AssignCpu(MergeCpu(base, u), key, value) == Returned(MergeCpu(base, u[key := value]))
  {
    var cpu := base.fields["cpu"].fields;
    var merged := MergeCpu(base, u);
    assert merged.fields["cpu"].fields == cpu + u;
    assert (cpu + u)[key := value] == cpu + u[key := value];
    assert merged.fields["cpu" := JObject(cpu + u[key := value])]
        == base.fields["cpu" := JObject(cpu + u[key := value])];
  }

  lemma MergeNothing(base: Json)
    requires HasCpuObject(base)
    ensures MergeCpu(base, map[]) == base
  {
    var cpu := base.fields["cpu"].fields;
    assert cpu + map[] == cpu;
    assert base.fields["cpu" := JObject(cpu)] == base.fields;
  }

  /** `get_current_config`: the `cpu` section, or `{}` when the file cannot
      be read, is not an object or has no such section. */
  function CurrentCpu(doc: Option<Json>): (r: Json)
    ensures !r.JObject? ==> doc.Some? && doc.value.JObject? && "cpu" in doc.value.fields
  {
    if doc.Some? && doc.value.JObject? && "cpu" in doc.value.fields
    then doc.value.fields["cpu"]
    else JObject(map[])
  }

  /** The "Active Threads" row of `display_cpu_config`: the number of
      comma-separated fields of a string affinity other than `"Auto"`, or
      `None` for automatic allocation. A `cpu` section that is not an object
      makes `.get` raise. */
  function ActiveThreads(cpu: Json): (r: Call<Option<nat>>)
    ensures r.Returned? && r.value.Some? ==> r.value.value >= 1
  {
    match cpu
    case JObject(f) =>
      var a := if "affinity" in f then f["affinity"] else JString("Auto");
      if a.JString? && a.s != "Auto" then Returned(Some(|Split(a.s, ',')|)) else Returned(None)
    case _ => Raised
  }

  // ---------------------------------------------------------------------
  // Properties

  /** Reading the thread count back from a built affinity string gives the
      number of cores it names. */
  lemma AffinityRoundTrip(n: nat)
    requires n >= 1
    ensures Split(AffinityString(n), ',') == CoreIds(n)
    ensures |Split(AffinityString(n), ',')| == n
    ensures AffinityString(n) != "Auto"
  {
    var parts := CoreIds(n);
    SplitJoin(parts, ',');
    assert parts[0] == "0";
    assert AffinityString(n)[0] == '0';
  }

  /** Without a setting to apply the file is never written. */
  lemma NothingToUpdate(doc: Option<Json>, maxThreads: Option<int>, priority: Option<int>, cores: nat)
    requires maxThreads.None? || maxThreads.value <= 0
    requires priority.None? || priority.value < 0 || priority.value > 5
    ensures CpuEdit(doc, maxThreads, priority, JNull, cores) != Returned(None) ==>
              CpuEdit(doc, maxThreads, priority, JNull, cores) == Raised
    ensures doc.None? || doc.value.JObject? ==> CpuEdit(doc, maxThreads, priority, JNull, cores) == Returned(None)
  {
    assert CpuUpdates(maxThreads, priority, JNull, cores) == map[];
  }

  /** On an object document with an object (or missing) `cpu` section, a
      change is written as the old section merged with the step keys,
      and every other top-level key keeps its value. */
  lemma CpuEditMerges(f: map<string, Json>, maxThreads: Option<int>, priority: Option<int>,
                      affinity: Json, cores: nat)
    requires "cpu" in f ==> f["cpu"].JObject?
    requires CpuUpdates(maxThreads, priority, affinity, cores) != map[]
    ensures var old_cpu := if "cpu" in f then f["cpu"].fields else map[];
      CpuEdit(Some(JObject(f)), maxThreads, priority, affinity, cores)
        == Returned(Some(JObject(f["cpu" := JObject(old_cpu + CpuUpdates(maxThreads, priority, affinity, cores))])))
  {
    if "cpu" !in f {
      var u := CpuUpdates(maxThreads, priority, affinity, cores);
      var f' := f["cpu" := JObject(map[])];
      assert f'["cpu" := JObject(map[] + u)] == f["cpu" := JObject(map[] + u)];
    }
  }

  /** A written `cpu` section keeps every key other than `affinity` and
      `priority`; the explicit affinity wins over the derived one; the
      priority is only stored when it is between 0 and 5. */
  lemma CpuEditKeepsOtherKeys(f: map<string, Json>, maxThreads: Option<int>, priority: Option<int>,
                              affinity: Json, cores: nat, d: Json)
    requires CpuEdit(Some(JObject(f)), maxThreads, priority, affinity, cores) == Returned(Some(d))
    ensures d.JObject? && d.fields.Keys == f.Keys + {"cpu"}
    ensures forall k :: k in f && k != "cpu" ==> d.fields[k] == f[k]
    ensures "cpu" in d.fields && d.fields["cpu"].JObject?
    ensures var cpu := d.fields["cpu"].fields;
      var old_cpu := if "cpu" in f then f["cpu"].fields else map[];
      (forall k :: k in old_cpu && k != "affinity" && k != "priority" ==> k in cpu && cpu[k] == old_cpu[k])
      && (!affinity.JNull? ==> cpu["affinity"] == affinity)
      && (priority.Some? && 0 <= priority.value <= 5 ==> cpu["priority"] == JInt(priority.value))
      && (priority.Some? && !(0 <= priority.value <= 5) && "priority" in old_cpu ==> cpu["priority"] == old_cpu["priority"])
  {
  }

  /** `display_cpu_config` after `update_cpu_config(max_threads=n)` shows
      `min(n, cores)` active threads. */
  lemma ThreadsReadBack(doc: Option<Json>, n: int, priority: Option<int>, cores: nat, d: Json)
    requires n > 0 && cores >= 1
    requires CpuEdit(doc, Some(n), priority, JNull, cores) == Returned(Some(d))
    ensures ActiveThreads(CurrentCpu(Some(d))) == Returned(Some(Min(n, cores)))
  {
    AffinityRoundTrip(Min(n, cores));
  }

  /** The state between two of the assignments: `updated` is raised once
      some key is assigned, and the document is then the merge so far. */
  ghost predicate Stage(config: Json, current: Json, u: map<string, Json>, updated: bool) {
    (updated <==> u != map[])
    && (!updated ==> current == config)
    && (updated ==> HasCpuObject(config) && current == MergeCpu(config, u))
  }

  /** One more assignment: it raises only when it is the first and the
      `cpu` section is not an object, and otherwise extends the merge. */
  lemma StageStep(config: Json, current: Json, u: map<string, Json>, updated: bool, key: string, value: Json)
    requires Stage(config, current, u, updated)
    ensures AssignCpu(current, key, value).Raised? ==> !updated && !HasCpuObject(config)
    ensures AssignCpu(current, key, value).Returned? ==>
      Stage(config, AssignCpu(current, key, value).value, u[key := value], true)
  {
    if AssignCpu(current, key, value).Returned? {
      if !updated {
        MergeNothing(config);
      }
      AssignMerged(config, u, key, value);
      assert key in u[key := value];
    }
  }

  /** The three guarded assignments of `update_cpu_config`, in order, and
      the `updated` flag they raise. Only the first assignment can raise:
      after it the `cpu` section is known to be an object. */
  method ApplyCpuSettings(config: Json, maxThreads: Option<int>, priority: Option<int>,
                          affinity: Json, cores: nat) returns (r: Call<Json>, updated: bool)
    ensures var u := CpuUpdates(maxThreads, priority, affinity, cores);
      (updated <==> u != map[])
      && (!updated ==> r == Returned(config))
      && (updated ==> r == if HasCpuObject(config) then Returned(MergeCpu(config, u)) else Raised)
  {
    ghost var u: map<string, Json> := map[];
    var current := config;
    updated := false;

    if maxThreads.Some? && maxThreads.value > 0 {
      var coresToUse := Min(maxThreads.value, cores);
      var value := JString(AffinityString(coresToUse));
      var step := AssignCpu(current, "affinity", value);
      StageStep(config, current, u, updated, "affinity", value);
      if step.Raised? {
        return Raised, true;
      }
      current, u, updated := step.value, u["affinity" := value], true;
    }
    ghost var derived := u;

    if priority.Some? && 0 <= priority.value <= 5 {
      var step := AssignCpu(current, "priority", JInt(priority.value));
      StageStep(config, current, u, updated, "priority", JInt(priority.value));
      if step.Raised? {
        return Raised, true;
      }
      current, u, updated := step.value, u["priority" := JInt(priority.value)], true;
    }
    ghost var prioritised := u;
    assert prioritised == if priority.Some? && 0 <= priority.value <= 5
      then derived["priority" := JInt(priority.value)] else derived;

    if !affinity.JNull? {
      var step := AssignCpu(current, "affinity", affinity);
      StageStep(config, current, u, updated, "affinity", affinity);
      if step.Raised? {
        return Raised, true;
      }
      current, u, updated := step.value, u["affinity" := affinity], true;
    }

    assert u == CpuUpdates(maxThreads, priority, affinity, cores);
    r := Returned(current);
  }

  /** `CPUController`: its configuration file. */
  class CPUController {
    const file: ConfigFile

    constructor (file: ConfigFile)
      ensures this.file == file
    {
      this.file := file;
    }

    /** `update_cpu_config`: the document is changed one assignment at a
        time and written only when one of them happened. `cores` is the
        logical core count and `writeOk` whether the write succeeds. */
    method UpdateCpuConfig(maxThreads: Option<int>, priority: Option<int>, affinity: Json,
                           cores: nat, writeOk: bool) returns (r: Call<bool>)
      modifies file
      ensures match CpuEdit(old(file.content), maxThreads, priority, affinity, cores)
        case Raised => r == Raised && file.content == old(file.content)
        case Returned(None) => r == Returned(false) && file.content == old(file.content)
        case Returned(Some(d)) =>
          r == Returned(writeOk) && file.content == (if writeOk then Some(d) else old(file.content))
    {
      if file.content.None? {
        return Returned(false);
      }
      var config := file.content.value;
      var present := HasKey(config, "cpu");
      if present.Raised? {
        return Raised;
      }
      if !present.value {
        if !config.JObject? {
          return Raised;
        }
        config := JObject(config.fields["cpu" := JObject(map[])]);
      }
      CpuEditPrepared(file.content.value, present.value, config, maxThreads, priority, affinity, cores);
      var result, updated := ApplyCpuSettings(config, maxThreads, priority, affinity, cores);
      if result.Raised? {
        return Raised;
      }
      if updated {
        var ok := file.Save(result.value, writeOk);
        return Returned(ok);
      }
      return Returned(false);
    }
  }
}
