/** `XMRigController`: rewriting the pool section of the worker's
    configuration, and starting, stopping and restarting the worker process
    under the guard of the monitor's `is_xmrig_running`. */
module Controller {

  import opened Wrappers
  import opened Decimal
  import opened ConfigStore
  import opened Pools
  import opened StatParser
  import opened Monitor

  // ---------------------------------------------------------------------
  // update_pool_config

  const PoolKeys: set<string> := {"coin", "url", "user", "pass", "tls", "keepalive", "nicehash"}

  /** The settings `update_pool_config` merges into the first pool: the
      coin, `"<url>:<port>"`, the wallet as user, the password `"x"`, TLS
      and keep-alive on, NiceHash mode off. */
  function PoolSettings(pool: Pool, wallet: string): (m: map<string, Json>)
    ensures m.Keys == PoolKeys
  {
    map["coin" := JString("monero"),
        "url" := JString(pool.url + ":" + IntToString(pool.port)),
        "user" := JString(wallet),
        "pass" := JString("x"),
        "tls" := JBool(true),
        "keepalive" := JBool(true),
        "nicehash" := JBool(false)]
  }

  /** What `update_pool_config` does to the loaded document: `Returned(None)`
      when it returns `False` without writing (the file is missing, invalid
      or falsy), `Returned(Some(d))` when it writes `d`, `Raised` when an
      exception escapes. A missing or empty `pools` becomes `[{}]`; its
      first element, which must be an object, gets the settings merged in. */
  function PoolEdit(doc: Option<Json>, pool: Pool, wallet: string): (r: Call<Option<Json>>)
    ensures r.Returned? && r.value.Some? ==>
      doc.Some? && doc.value.JObject? && r.value.value.JObject? && "pools" in r.value.value.fields
  {
    if doc.None? || !Truthy(doc.value) then Returned(None)
    else match doc.value
      case JObject(f) =>
        var pools := if "pools" in f && Truthy(f["pools"]) then f["pools"] else JArray([JObject(map[])]);
        if pools.JArray? && |pools.items| > 0 && pools.items[0].JObject? then
          var first := pools.items[0].fields + PoolSettings(pool, wallet);
          Returned(Some(JObject(f["pools" := JArray(pools.items[0 := JObject(first)])])))
        else Raised
      case _ => Raised
  }

  /** A missing, unreadable or falsy document is never written. */
  lemma PoolEditNeedsDocument(doc: Option<Json>, pool: Pool, wallet: string)
    ensures PoolEdit(doc, pool, wallet) == Returned(None) <==> doc.None? || !Truthy(doc.value)
  {
  }

  /** A written document differs from the loaded one only in `pools[0]`,
      where exactly the seven settings are overwritten; a missing or empty
      `pools` list is replaced by one holding just the settings. */
  lemma PoolEditWrites(f: map<string, Json>, pool: Pool, wallet: string, d: Json)
    requires PoolEdit(Some(JObject(f)), pool, wallet) == Returned(Some(d))
    ensures d.JObject? && d.fields.Keys == f.Keys + {"pools"}
    ensures forall k :: k in f && k != "pools" ==> d.fields[k] == f[k]
    ensures var ps := d.fields["pools"];
      ps.JArray? && |ps.items| >= 1 && ps.items[0].JObject?
      && (forall k :: k in PoolKeys ==> k in ps.items[0].fields && ps.items[0].fields[k] == PoolSettings(pool, wallet)[k])
    ensures var ps := d.fields["pools"];
      if "pools" in f && Truthy(f["pools"]) then
        |ps.items| == |f["pools"].items| && ps.items[1..] == f["pools"].items[1..]
        && ps.items[0].fields.Keys == f["pools"].items[0].fields.Keys + PoolKeys
        && forall k :: k in f["pools"].items[0].fields && k !in PoolKeys ==>
             ps.items[0].fields[k] == f["pools"].items[0].fields[k]
      else
        ps.items == [JObject(PoolSettings(pool, wallet))]
  {
    if !("pools" in f && Truthy(f["pools"])) {
      assert map[] + PoolSettings(pool, wallet) == PoolSettings(pool, wallet);
    }
  }

  /** Applying the same pool and wallet to a document already written by
      `update_pool_config` writes it back unchanged. */
  lemma PoolEditIdempotent(doc: Option<Json>, pool: Pool, wallet: string, d: Json)
    requires PoolEdit(doc, pool, wallet) == Returned(Some(d))
    ensures PoolEdit(Some(d), pool, wallet) == Returned(Some(d))
  {
    var f := doc.value.fields;
    var settings := PoolSettings(pool, wallet);
    var pools := if "pools" in f && Truthy(f["pools"]) then f["pools"] else JArray([JObject(map[])]);
    var first := pools.items[0].fields + settings;
    var items := pools.items[0 := JObject(first)];
    assert d.fields == f["pools" := JArray(items)];
    assert Truthy(d) && Truthy(JArray(items));
    assert first + settings == first;
    assert items[0 := JObject(first + settings)] == items;
    assert d.fields["pools" := JArray(items)] == d.fields;
  }

  // ---------------------------------------------------------------------
  // Process lifecycle

  /** Whether `subprocess.Popen` starts the worker, or raises with a
      message. */
  datatype SpawnOutcome = Spawns | SpawnFails(reason: string)

  /** How the worker reacts to `terminate()`: it exits within the 5-second
      wait, it outlives the wait, or sending the signal raises. */
  datatype StopOutcome = ExitsInGrace | OutlivesGrace | SignalFails(reason: string)

  class XMRigController {
    const xmrigPath: string
    const configPath: string
    const file: ConfigFile
    /** `self.xmrig_process`. */
    var process: Process?
    const monitor: MiningMonitor

    /** The controller and its monitor hold the same process handle. */
    predicate Valid()
      reads this, monitor
    {
      process == monitor.process
    }

    constructor (xmrigPath: string, configPath: string, file: ConfigFile, now: int)
      ensures this.xmrigPath == xmrigPath && this.configPath == configPath && this.file == file
      ensures Valid() && process == null && fresh(monitor)
      ensures !monitor.IsRunning() && !monitor.monitoring && monitor.Snapshot() == InitialStats
    {
      this.xmrigPath := xmrigPath;
      this.configPath := configPath;
      this.file := file;
      process := null;
      monitor := new MiningMonitor(null, now);
    }

    /** `update_pool_config`: load, merge the settings into `pools[0]`,
        save. `writeOk` is whether the save succeeds. */
    method UpdatePoolConfig(pool: Pool, wallet: string, writeOk: bool) returns (r: Call<bool>)
      modifies file
      ensures match PoolEdit(old(file.content), pool, wallet)
        case Raised => r == Raised && file.content == old(file.content)
        case Returned(None) => r == Returned(false) && file.content == old(file.content)
        case Returned(Some(d)) =>
          r == Returned(writeOk) && file.content == (if writeOk then Some(d) else old(file.content))
    {
      var config := file.content;
      if config.None? || !Truthy(config.value) {
        return Returned(false);
      }
      var doc := config.value;
      var present := HasKey(doc, "pools");
      if present.Raised? {
        return Raised;
      }
      var missing := !present.value;
      if !missing {
        if !doc.JObject? {
          // `config['pools']` on a list or a string
          return Raised;
        }
        missing := !Truthy(doc.fields["pools"]);
      }
      if missing {
        if !doc.JObject? {
          // item assignment on a list or a string
          return Raised;
        }
        doc := JObject(doc.fields["pools" := JArray([JObject(map[])])]);
      }
      var pools := doc.fields["pools"];
      if !(pools.JArray? && |pools.items| > 0 && pools.items[0].JObject?) {
        // `[0]` on an object, a string or a number, or `.update` on a
        // non-object first element
        return Raised;
      }
      var poolConfig := pools.items[0].fields;
      poolConfig := poolConfig + PoolSettings(pool, wallet);
      ghost var f := config.value.fields;
      assert doc.fields["pools" := JArray(pools.items[0 := JObject(poolConfig)])]
          == f["pools" := JArray(pools.items[0 := JObject(poolConfig)])];
      doc := JObject(doc.fields["pools" := JArray(pools.items[0 := JObject(poolConfig)])]);
      var ok := file.Save(doc, writeOk);
      return Returned(ok);
    }

    /** `start_mining`: refuses while the worker runs; otherwise spawns
        `[xmrig_path, "-c", config_path]` and starts monitoring it, keeping
        the statistics gathered so far. */
    method StartMining(spawn: SpawnOutcome, now: int) returns (ok: bool, msg: string)
      requires Valid()
      modifies this, monitor
      ensures Valid()
      ensures old(monitor.IsRunning()) ==>
        !ok && msg == "XMRig is already running" && process == old(process) && unchanged(monitor)
      ensures !old(monitor.IsRunning()) && spawn.SpawnFails? ==>
        !ok && msg == "Failed to start XMRig: " + spawn.reason && process == old(process) && unchanged(monitor)
      ensures !old(monitor.IsRunning()) && spawn.Spawns? ==>
        ok && msg == "XMRig started successfully"
        && process != null && fresh(process) && process.argv == [xmrigPath, "-c", configPath]
        && process.alive && process.signals == []
        && monitor.IsRunning() && monitor.monitoring && monitor.startTime == Some(now)
        && monitor.Snapshot() == old(monitor.Snapshot())
    {
      if monitor.IsRunning() {
        return false, "XMRig is already running";
      }
      match spawn
      case SpawnFails(reason) =>
        return false, "Failed to start XMRig: " + reason;
      case Spawns =>
        var p := new Process([xmrigPath, "-c", configPath]);
        process := p;
        monitor.StartMonitoring(p, now);
        return true, "XMRig started successfully";
    }

    /** `stop_mining`: refuses when the worker is not running; otherwise
        sends the termination signal, waits up to five seconds, kills the
        worker if it is still there, and stops monitoring. */
    method StopMining(outcome: StopOutcome) returns (ok: bool, msg: string)
      requires Valid()
      modifies monitor`monitoring, process
      ensures Valid() && process == old(process)
      ensures monitor.Snapshot() == old(monitor.Snapshot())
      ensures !old(monitor.IsRunning()) ==>
        !ok && msg == "XMRig is not running" && monitor.monitoring == old(monitor.monitoring)
        && (process != null ==> unchanged(process))
      ensures old(monitor.IsRunning()) && outcome.ExitsInGrace? ==>
        ok && msg == "XMRig stopped" && process != null
        && process.signals == old(process.signals) + [SigTerm] && !monitor.monitoring
      ensures old(monitor.IsRunning()) && outcome.OutlivesGrace? ==>
        ok && msg == "XMRig force killed" && process != null
        && process.signals == old(process.signals) + [SigTerm, SigKill] && !monitor.monitoring
      ensures old(monitor.IsRunning()) && outcome.SignalFails? ==>
        !ok && msg == "Error stopping XMRig: " + outcome.reason
        && monitor.monitoring == old(monitor.monitoring) && process != null && unchanged(process)
      ensures ok ==> !monitor.IsRunning() && !monitor.monitoring
    {
      if !monitor.IsRunning() {
        return false, "XMRig is not running";
      }
      var p := process;
      if outcome.SignalFails? {
        return false, "Error stopping XMRig: " + outcome.reason;
      }
      p.Terminate();
      var timedOut := p.WaitGrace(outcome.ExitsInGrace?);
      if !timedOut {
        monitor.StopMonitoring();
        return true, "XMRig stopped";
      }
      p.Kill();
      monitor.StopMonitoring();
      return true, "XMRig force killed";
    }

    /** `restart_mining`: a failed stop is reported as it is and nothing is
        started; after a successful stop the worker is started again. */
    method RestartMining(stop: StopOutcome, spawn: SpawnOutcome, now: int) returns (ok: bool, msg: string)
      requires Valid()
      modifies this, monitor, process
      ensures Valid()
      ensures !old(monitor.IsRunning()) ==>
        !ok && msg == "XMRig is not running" && process == old(process)
        && monitor.monitoring == old(monitor.monitoring) && (process != null ==> unchanged(process))
      ensures old(monitor.IsRunning()) && stop.SignalFails? ==>
        !ok && msg == "Error stopping XMRig: " + stop.reason && process == old(process)
        && monitor.monitoring == old(monitor.monitoring) && process != null && unchanged(process)
      ensures old(monitor.IsRunning()) && !stop.SignalFails? && spawn.Spawns? ==>
        ok && msg == "XMRig started successfully"
        && process != null && fresh(process) && process.argv == [xmrigPath, "-c", configPath]
        && process.alive && process.signals == []
        && monitor.IsRunning() && monitor.monitoring && monitor.startTime == Some(now)
        && monitor.Snapshot() == old(monitor.Snapshot())
      ensures old(monitor.IsRunning()) && !stop.SignalFails? ==>
        old(process) != null && !old(process).alive
        && old(process).signals == old(process.signals) + (if stop.ExitsInGrace? then [SigTerm] else [SigTerm, SigKill])
      ensures old(monitor.IsRunning()) && !stop.SignalFails? && spawn.SpawnFails? ==>
        !ok && msg == "Failed to start XMRig: " + spawn.reason && !monitor.IsRunning()
        && !monitor.monitoring && process == old(process)
    {
      var stopped, stopMsg := StopMining(stop);
      if !stopped {
        return false, stopMsg;
      }
      ok, msg := StartMining(spawn, now);
    }
  }
}
