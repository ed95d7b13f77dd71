# Monero mining controller: a verified model of its core

This project models the core of a terminal front end for the XMRig Monero
miner. The core has four parts:

- **The mining controller** (`XMRigController`). It rewrites the pool
  section of XMRig's JSON configuration. It starts the miner as a
  subprocess, stops it (terminate, wait five seconds, kill) and restarts it.
- **The monitor** (`MiningMonitor`). It holds the process handle, the
  `monitoring` flag and a statistics record. `_parse_xmrig_line` updates
  that record from a line it is given: the hashrate, and the
  accepted/rejected share totals. (The thread that should hand it the
  miner's output never does; see "## Findings".) The monitor also renders the uptime.
- **The CPU controller** (`CPUController`). It writes the `cpu` section of
  the configuration: an affinity derived from a thread count, a priority of
  0 to 5, or an explicit affinity. It also reads the active thread count
  back when it displays the configuration.
- **The pool lookup** (`PoolSelector.get_pool_info`), plus the installer's
  platform choices in `setup.py`:
  - detecting the platform id;
  - mapping the id to a release asset;
  - finding that asset's URL in a release;
  - naming the archive it is saved under.

Layout:

- **Pure logic** is modelled as functions with lemmas about them. This
  covers line parsing, uptime formatting, document edits, platform
  detection and pool lookup.
- **Objects the source changes in place** are classes with `modifies`
  clauses:
  - the monitor and its statistics;
  - the process handle;
  - the configuration file;
  - both controllers.

  Where a pure function specifies a method, the method is proved against
  it:
  - `MiningMonitor.ParseLine` against `HashrateOf` and `SharesOf`;
  - `MiningMonitor.FeedLines` against `Feed`;
  - `CPUController.UpdateCpuConfig` against `CpuEdit`;
  - `XMRigController.UpdatePoolConfig` against `PoolEdit`;
  - `FindDownloadUrl` against `FirstAsset`.

  The lifecycle methods have no such function. Their ensures state the
  new state directly. These are the process signals, starting and
  stopping monitoring, the drain thread as written, and starting,
  stopping and restarting the miner.
- **Python exceptions** that escape an operation are the `Raised` case of
  `Call<T>`.
- **The outside world** is passed in as parameters:
  - whether a write succeeds;
  - whether `Popen` succeeds;
  - how the process reacts to `terminate()`;
  - the logical core count;
  - the clock.

Files:

- `wrappers.dfy`: `Option` and `Call`.
- `text.dfy`: lower-casing, substring, `split()`, `split(',')` and
  `join`, with their laws.
- `decimal.dfy`: decimal numerals, `str(int)` and `float(str)`.
- `stat_parser.dfy`: the line parser as functions.
- `monitor.dfy`: `MiningMonitor` and the process handle.
- `uptime.dfy`: `_format_uptime`.
- `json_config.dfy`: JSON values and the configuration file.
- `cpu_config.dfy`: `CPUController`.
- `pools.dfy`: `get_pool_info`.
- `xmrig_controller.dfy`: `XMRigController`.
- `setup_platform.dfy`: the installer's platform choices.

Behaviours of the code that a reader might not expect, each modelled as
written:

- A scale letter glued to the unit (`2.5 kH/s`) is not applied. Only a
  letter at the end of the token before the unit token scales the value.
  `StatParser.UnitPrefixIgnored` shows this for the two-token line.
  `StatParser.UnitPrefixInLine` shows it for any line whose leading words
  hold no unit token, whatever follows. So
  `speed 10s/60s/15m 2.5 kH/s max 3.1 kH/s` reads as 2.5, not 2500.
- A share report is read only when the line also contains the word
  `share`. So `[2024-01-01] accepted (120/3) diff 5000` leaves the
  counters unchanged (`StatParser.ShareWordRequired`).
- The code keeps no peak hashrate and no acceptance rate, so neither is
  modelled.
- Starting the worker does not reset the statistics gathered so far.
- `restart_mining` does not start the worker when it was not running. It
  reports the stop failure instead.
- The output-draining thread never parses a line (see "## Findings").

## Model

| member | source | states |
|---|---|---|
| Pools.GetPoolInfo | mining_controller.py:137-142 | the result is `None` exactly when no pool's name equals the name asked for, ignoring case; otherwise it is the first pool whose name does |
| Pools.GetPoolInfoIgnoresCase | mining_controller.py:140 | looking up a name and its lower-cased form gives the same pool |
| CpuConfig.CoreIds | mining_controller.py:175 | there are n affinity fields; the i-th reads back as the core index i and holds no comma |
| CpuConfig.CpuUpdates | mining_controller.py:171-187 | the `cpu` keys assigned: `affinity` exactly when an explicit affinity other than `None` is given (it wins) or `max_threads > 0` (then `"0,…,min(n,cores)-1"`); `priority` exactly when it lies in 0..5, with that value; nothing else |
| CpuConfig.CpuEdit | mining_controller.py:158-197 | a document is written only when one was loaded and there is something to assign, and it then has an object `cpu` section; `NothingToUpdate`, `CpuEditMerges` and `CpuEditKeepsOtherKeys` state the rest |
| CpuConfig.MergeCpu | mining_controller.py:171-187 | the `cpu` section gains the assigned keys with their new values; its other keys and every other top-level key keep their values |
| CpuConfig.CurrentCpu | mining_controller.py:199-206 | `get_current_config` falls back to `{}`: a result that is not an object can only be the loaded file's own `cpu` section |
| CpuConfig.NothingToUpdate | mining_controller.py:169-197 | with no thread count above 0, no valid priority and no affinity, `update_cpu_config` never writes: it returns `False`, or raises on a document that is not an object |
| CpuConfig.CpuEditMerges | mining_controller.py:166-193 | on an object document whose `cpu` is an object or missing, a change writes the old `cpu` section merged with the assigned keys and nothing else |
| CpuConfig.CpuEditKeepsOtherKeys | mining_controller.py:166-193 | a written document keeps every other top-level key and every other `cpu` key; an explicit affinity is the one stored; an out-of-range priority leaves the old one |
| CpuConfig.ActiveThreads | mining_controller.py:222-227 | the active-thread count shown is at least 1 when it is a number |
| CpuConfig.AffinityRoundTrip | mining_controller.py:222-224 | splitting the affinity string built at line 175 (`AffinityString`) on commas gives back exactly its fields, so their number is the core count, and it is never `"Auto"` |
| CpuConfig.ThreadsReadBack | mining_controller.py:173-176 | after `update_cpu_config(max_threads=n, priority=p)` writes, with any p, the displayed thread count is `min(n, cores)` |
| CpuConfig.ApplyCpuSettings | mining_controller.py:171-187 | the three guarded assignments, in order: `updated` holds exactly when some key is assigned; the result is the document merged with `CpuUpdates`, or an exception when `cpu` is not an object |
| CpuConfig.CPUController.UpdateCpuConfig | mining_controller.py:158-197 | an unreadable file gives `False`; an exception leaves the file as it was; nothing to assign gives `False` and no write; otherwise the merged document is written and the result is whether the write succeeded |
| ConfigStore.ConfigFile.Save | mining_controller.py:403-411 | the result is whether the write succeeded, and the file then holds the new document, or else its old content |
| Monitor.Process.Terminate | mining_controller.py:462 | the termination signal is sent; liveness is unchanged |
| Monitor.Process.WaitGrace | mining_controller.py:463 | the wait times out exactly when the process was alive and does not exit within the grace period, and the process is alive afterwards exactly then |
| Monitor.Process.Kill | mining_controller.py:467 | the kill signal is sent and the process is gone |
| Monitor.MiningMonitor.constructor | mining_controller.py:248-257 | zero hashrate and share counts, not monitoring, creation time recorded |
| Monitor.MiningMonitor.StartMonitoring | mining_controller.py:259-266 | adopts the handle, sets the flag and the new start time, and keeps the statistics |
| Monitor.MiningMonitor.StopMonitoring | mining_controller.py:268-272 | only the monitoring flag changes, and it is cleared |
| Monitor.MiningMonitor.ParseLine | mining_controller.py:290-337 | the hashrate becomes `HashrateOf(line)` when there is one, and the share counters become `SharesOf(line)` when there is one; otherwise each keeps its value |
| Monitor.MiningMonitor.ParseHashrate | mining_controller.py:294-323 | the token scan finds the first token holding `h/s` and stores the rate of the token before it, exactly as `HashrateOf` specifies |
| Monitor.MiningMonitor.ReadRate | mining_controller.py:303-320 | a trailing `k`/`m`/`g` is cut off and multiplies the value; an unparsable number leaves the hashrate unchanged |
| Monitor.MiningMonitor.ParseShares | mining_controller.py:325-337 | both counters are overwritten with the first `accepted (A/R)` report, only when the line mentions `share` |
| Monitor.MiningMonitor.MonitorOutput | mining_controller.py:274-288 | the thread as written: no line ever reaches `_parse_xmrig_line`; it stops at the first non-empty line read, after only empty reads, or when monitoring stops, the process exits or there is no process |
| Monitor.MiningMonitor.FeedLines | mining_controller.py:290-337 | the thread as intended, a fold of `_parse_xmrig_line`: parsing lines in order leaves the statistics at `Feed(old statistics, lines)` |
| StatParser.HashrateOf | mining_controller.py:294-323 | a line yields a hashrate only when its lower-cased text holds `h/s`; `ParseHashrate` and `UnitPrefixInLine` state which value |
| StatParser.ShareMatch | mining_controller.py:330 | the pattern `accepted\s*\((\d+)/(\d+)\)` matches at a position only where `accepted` starts; `ShareMatchOfReport` states what it reads |
| StatParser.FirstShareMatch | mining_controller.py:330 | `re.search`: a match is the one at the leftmost position where the pattern matches, and there is none exactly when the pattern matches at no position; a match needs `accepted` in the text |
| StatParser.SharesOf | mining_controller.py:326-335 | a line yields share totals only when it holds both `accepted` and `share`, and they are then those of the first match of the pattern |
| StatParser.Step | mining_controller.py:290-337 | a line with no rate leaves the hashrate alone, and a line with no share report leaves both counters alone |
| StatParser.Feed | mining_controller.py:290-337 | lines fed in order: when none of them carries a rate the hashrate is unchanged, and when none carries a share report the counters are unchanged |
| StatParser.OneLineSetsRate | mining_controller.py:303-318 | one line `<n>k h/s` sets the hashrate to n·1000, whatever the statistics were before |
| StatParser.RateValue | mining_controller.py:303-320 | a rate is read only from a nonempty token |
| StatParser.RateOfScaled | mining_controller.py:307-318 | a numeral followed by `k`, `m` or `g` reads as the number times 1000, 10^6 or 10^9 |
| StatParser.RateOfPlain | mining_controller.py:305-318 | a numeral with no scale letter reads as itself |
| StatParser.HashrateOfPair | mining_controller.py:298-318 | the line `<token> <unit>` reads the rate of its first token, for a nonempty lower-case token without spaces or `h` and a lower-case unit word holding `h/s` |
| StatParser.ScaledRateLine | mining_controller.py:298-318 | `2.5k h/s` reads as 2500: the scale letter on the value token applies |
| StatParser.UnitPrefixIgnored | mining_controller.py:298-318 | `2.5 kh/s` reads as 2.5: a scale letter on the unit token is not applied |
| StatParser.UnitPrefixInLine | mining_controller.py:298-318 | the same after any leading words that hold no unit token and before any further text, as in `speed 10s/60s/15m 2.5 kH/s max 3.1 kH/s`, in any case |
| StatParser.HashrateIgnoresLaterText | mining_controller.py:300-321 | once a line holds a unit token, anything appended after it does not change the hashrate read |
| StatParser.UnitFirstLeavesHashrate | mining_controller.py:303-305 | a line whose first token is the unit token yields no hashrate |
| StatParser.ShareMatchOfReport | mining_controller.py:330 | `accepted`, optional whitespace and `(A/R)` match the share pattern, giving the totals A and R |
| StatParser.SharesOfReport | mining_controller.py:326-335 | a line in any case that holds the word `share` anywhere and an `accepted (A/R)` report, with no match of the pattern starting before the report, sets the counters to (A, R) |
| StatParser.SharesOfFirstReport | mining_controller.py:326-335 | in particular when the text before the report does not hold `accepted` at all |
| StatParser.ShareWordRequired | mining_controller.py:326 | a line `[date] accepted (A/R) diff 5000` matches the pattern, yet leaves the counters unchanged because it lacks the word `share` |
| StatParser.FeedKeepsLatest | mining_controller.py:316-335 | after a sequence of lines, the hashrate is that of the last line carrying one (else the old value), and the counters are the totals of the last line reporting them (else the old ones): totals are overwritten, never added |
| Uptime.FormatUptime | mining_controller.py:370-380 | the text always ends in the seconds field; `ReadFormatUptime` states that it reads back as `int(x)` |
| Uptime.Render | mining_controller.py:375-380 | each of the three forms ends in the seconds field; `ReadHours`, `ReadMinutes` and `ReadSeconds` state their read-back |
| Uptime.Trunc | mining_controller.py:372 | `int()` truncates toward zero: the result is within one of the argument, on the argument's side of zero |
| Uptime.Clock | mining_controller.py:372-373 | the two `divmod`s: hours·3600 + minutes·60 + seconds equals the total, minutes and seconds lie in 0..59, and hours are non-negative for a non-negative total |
| Uptime.ClockUnique | mining_controller.py:372-373 | that decomposition is the only one with minutes and seconds in 0..59 |
| Uptime.ReadHours | mining_controller.py:375-376 | with positive hours the text `Hh Mm Ss` has three fields and reads back as the total seconds |
| Uptime.ReadMinutes | mining_controller.py:377-378 | with no hours and positive minutes, `Mm Ss` has two fields and reads back as the total |
| Uptime.ReadSeconds | mining_controller.py:379-380 | otherwise `Ss` has one field and reads back as the seconds |
| Uptime.ReadClock | mining_controller.py:370-380 | every non-negative whole number of seconds is rendered in a form that reads back to it, with 3, 2 or 1 fields by the largest non-zero unit |
| Uptime.ReadFormatUptime | mining_controller.py:370-380 | `_format_uptime(x)` for x ≥ 0 reads back as `int(x)` |
| Controller.PoolSettings | mining_controller.py:423-431 | exactly the seven keys coin, url, user, pass, tls, keepalive and nicehash are set |
| Controller.PoolEdit | mining_controller.py:413-433 | a written document is an object with a `pools` key and comes from a loaded object; `PoolEditNeedsDocument`, `PoolEditWrites` and `PoolEditIdempotent` state the rest |
| Controller.PoolEditNeedsDocument | mining_controller.py:415-417 | the configuration is left unwritten with `False` exactly when it is missing, invalid or falsy |
| Controller.PoolEditWrites | mining_controller.py:419-431 | a written document differs from the loaded one only in `pools[0]`: there the seven settings are overwritten, other keys and later pools are kept, and a missing or empty `pools` becomes a single pool holding just the settings |
| Controller.PoolEditIdempotent | mining_controller.py:413-433 | applying the same pool and wallet to the document just written writes it back unchanged |
| Controller.XMRigController.constructor | mining_controller.py:385-389 | no process, a fresh monitor that is not running and has zeroed statistics |
| Controller.XMRigController.UpdatePoolConfig | mining_controller.py:413-433 | the file is written with what `PoolEdit` computes when it computes a document; `False` and no write for a missing or falsy document; an exception leaves the file as it was |
| Controller.XMRigController.StartMining | mining_controller.py:435-453 | while running: refused with "already running" and nothing changes; a failed spawn is reported and nothing changes; otherwise a fresh process `[xmrig_path, "-c", config_path]` runs and is monitored from the given time, with the statistics kept |
| Controller.XMRigController.StopMining | mining_controller.py:455-471 | not running: refused; the process exits within the grace period: one SIGTERM, "XMRig stopped"; it outlives the grace period: SIGTERM then SIGKILL, "XMRig force killed"; signalling raises: error reported, monitoring untouched; every success leaves the worker stopped and the monitoring flag cleared |
| Controller.XMRigController.RestartMining | mining_controller.py:473-480 | a failed stop is returned as it is and nothing starts; after a successful stop the old worker has received SIGTERM (and SIGKILL when it outlived the grace period) and is gone, and the start's result is returned; after a successful start the new process runs `[xmrig_path, "-c", config_path]`, is alive and unsignalled, and is monitored from the given time with the statistics kept; a failed spawn leaves no worker, the old process handle and monitoring off; a refused or failed stop leaves the process and the monitoring flag as they were |
| SetupPlatform.DetectPlatform | setup.py:31-51 | every detected id is one of the six platform ids |
| SetupPlatform.AssetName | setup.py:66-76 | every asset is one of release 6.25.0; `AssetCoverage` and `AssetsDistinct` state which platforms have one |
| SetupPlatform.ArchiveName | setup.py:94 | the saved archive is named `xmrig-<platform>.` followed by its extension |
| SetupPlatform.DetectPlatformRange | setup.py:31-51 | there is no id exactly when the system is not darwin, linux or windows |
| SetupPlatform.DarwinArm | setup.py:36-40 | on macOS the ARM id is chosen exactly when the machine names arm64 or aarch64, and the x64 id otherwise |
| SetupPlatform.LinuxOrder | setup.py:41-47 | on Linux x86_64 is tested before aarch64, and everything else counts as 32-bit x86 |
| SetupPlatform.WindowsAnyMachine | setup.py:48-49 | a Windows host is `windows-x64` whatever its machine reports |
| SetupPlatform.DetectIgnoresCase | setup.py:33-34 | detection does not depend on the case of its inputs |
| SetupPlatform.AssetCoverage | setup.py:66-80 | every detectable platform except `linux-x86` has a release asset |
| SetupPlatform.AssetsDistinct | setup.py:66-76 | different platforms map to different assets |
| SetupPlatform.ArchiveMatchesAsset | setup.py:94 | the saved archive is a zip exactly on `windows-x64`, and exactly when the asset fetched is a zip |
| SetupPlatform.ArchiveTarGz | setup.py:94 | on every platform other than `windows-x64` the archive is saved with the `.tar.gz` extension |
| SetupPlatform.Armv7Unsupported | setup.py:41-47 | a 32-bit ARM Linux host is detected as `linux-x86`, for which no asset exists |
| SetupPlatform.FirstAsset | setup.py:83-87 | the index of the first asset whose name contains the wanted name; none exactly when no asset does |
| SetupPlatform.FindDownloadUrl | setup.py:82-87 | the loop finds the URL of the first asset whose name contains the wanted name, or none when no asset does |
| Decimal.ParseFloat | mining_controller.py:318 | `float()` on a numeral: a result only for a token ending in a digit or a point, and non-negative without a minus sign |
| Decimal.ParseFloatOfNat | mining_controller.py:318 | `float(str(n)) == n` |
| Decimal.ParseFloatOfDecimal | mining_controller.py:318 | `float("a.b")` for digit runs a and b, not both empty, is the value of a plus the fraction b/10^|b| |
| Decimal.TwoPointFive | mining_controller.py:318 | `float("2.5")` is 2.5 |
| Text.Lower | mining_controller.py:292 | `str.lower()` keeps the length; `LowerOfLower` and `LowerAppend` state that it fixes lower-case text and distributes over concatenation |
| Text.Words | mining_controller.py:299 | `str.split()`: every word is nonempty and holds no whitespace |
| Text.Split | mining_controller.py:224 | `str.split(',')`: at least one field |
| Text.SplitJoin | mining_controller.py:224 | `','.join` (`Text.Join`) is undone by `split(',')`: splitting the join of nonempty separator-free fields gives back the fields |
| SetupPlatform.PlanDownload | setup.py:66-94 | unsupported exactly when the platform has no asset; a download exactly when the first matching asset has a nonempty URL, saved under the archive name; otherwise "no download URL" |

## Findings

| source | as written | input that shows it | evidently intended | confidence | as-written member | corrected member |
|---|---|---|---|---|---|---|
| mining_controller.py:285 | The worker is spawned with `text=True` (line 445), so `readline()` returns a `str`. `line.decode(...)` then raises `AttributeError`, and `except Exception: pass` (line 287) ends the thread. No line is ever parsed, so the statistics stay at zero. | any output, such as the line `1k h/s`: `OneLineSetsRate` gives 1000 for the intended fold, while `MonitorOutput` hands no line to the parser | every line is stripped and parsed in order, and the statistics follow the latest report (`FeedKeepsLatest`) | high, not executed | Monitor.MiningMonitor.MonitorOutput | Monitor.MiningMonitor.FeedLines |

## Left out

- The drain thread `_monitor_output` runs beside the controller; that
  concurrency is not modelled. `MonitorOutput` models the thread as
  written, sequentially, with `time.sleep(0.1)` and the two-second `join`
  left out. `FeedLines` models the intended thread, parsing the stripped
  lines one after another. Both are described under "## Findings".
- `get_system_stats` and `get_stats_summary`: they read CPU and memory load
  and the clock through psutil and `time`. `get_cpu_info` is out for the
  same reason. The logical core count is a parameter of
  `UpdateCpuConfig`, and a count that psutil cannot determine is not
  modelled.
- StatParser.RateValue: `float()` is modelled for decimal numerals with an
  optional sign and point. Exponents, `inf`, `nan` and digit underscores
  read as unparsable, and the value is exact rather than IEEE-rounded.
- Lower-casing, whitespace and `\d` are ASCII-only. Python's Unicode rules
  are not modelled.
- The JSON file is a decoded value. Parsing, key order and indentation are
  not modelled. A missing or invalid file is content `None`. Other read
  errors, which the code does not catch, are not modelled.
- ConfigStore.ConfigFile.Save: a failed write leaves the file as it was.
  The truncation that opening the file for writing causes before a failed
  `json.dump` is not modelled.
- `Popen` itself: pipes, buffering and the child's environment. Its
  success or failure is the `SpawnOutcome` parameter.
- How the process reacts to `terminate()` is the `StopOutcome` parameter.
  An exception from `wait` other than a timeout is folded into
  `SignalFails`. An exception raised by `kill()` itself is not modelled.
- The one-second pause in `restart_mining`.
- The user interface: `MiningUI`, the table displays, prompts and signal
  handlers. `load_pools`, `select_pool_interactive`, `add_custom_pool` and
  `display_pool_comparison` are out too. Only the thread count that
  `display_cpu_config` shows is modelled.
- Pools.Pool keeps only a pool's name, URL and port. A pool entry lacking
  one of these keys raises `KeyError` in the source; that is not modelled.
  The port is rendered as an integer.
- The `affinity` argument of `update_cpu_config` is a JSON value, with
  JSON `null` standing for Python's `None` (not given). An affinity that
  is not JSON-serialisable is not modelled.
- Python booleans are ints. Passing `True` or `False` as `max_threads` or
  `priority` cannot be represented in the model.
- The installer's network access, archive extraction, `chmod`, `pip`,
  `create_config` and `main`. The release list is the `assets` parameter.
