/** `MiningMonitor`: the worker's process handle, the `monitoring` flag and
    the statistics record that `_parse_xmrig_line` updates in place. */
module Monitor {

  import opened Wrappers
  import opened Text
  import opened Decimal
  import opened StatParser

  datatype Signal = SigTerm | SigKill

  /** The worker's OS process. `alive` is what `poll() is None` reports;
      `signals` records what the controller has sent it. */
  class Process {
    const argv: seq<string>
    var alive: bool
    var signals: seq<Signal>

    constructor (argv: seq<string>)
      ensures this.argv == argv && alive && signals == []
    {
      this.argv := argv;
      alive := true;
      signals := [];
    }

    /** `terminate()`: sends the termination signal. Whether the process
        then exits is decided by `WaitGrace`. */
    method Terminate()
      modifies this
      ensures signals == old(signals) + [SigTerm] && alive == old(alive)
    {
      signals := signals + [SigTerm];
    }

    /** `wait(timeout=5)`: `exitsInGrace` stands for whether the process
        exits within the five-second grace period; when it does not, the
        call times out and the process is still alive. */
    method WaitGrace(exitsInGrace: bool) returns (timedOut: bool)
      modifies this
      ensures timedOut == (old(alive) && !exitsInGrace)
      ensures alive == timedOut && signals == old(signals)
    {
      timedOut := alive && !exitsInGrace;
      alive := timedOut;
    }

    /** `kill()`: the kill signal ends the process. */
    method Kill()
      modifies this
      ensures signals == old(signals) + [SigKill] && !alive
    {
      signals := signals + [SigKill];
      alive := false;
    }
  }

  class MiningMonitor {
    var process: Process?
    var hashrate: real
    var accepted: nat
    var rejected: nat
    var monitoring: bool
    /** `self.start_time`, which only `start_monitoring` sets. */
    var startTime: Option<int>
    /** `self.stats['start_time']`, taken when the monitor is created. */
    const createdAt: int

    function Snapshot(): Stats
      reads this
    {
      Stats(hashrate, accepted, rejected)
    }

    constructor (process: Process?, now: int)
      ensures this.process == process && Snapshot() == InitialStats
      ensures !monitoring && startTime == None && createdAt == now
    {
      this.process := process;
      hashrate, accepted, rejected := 0.0, 0, 0;
      monitoring := false;
      startTime := None;
      createdAt := now;
    }

    /** `is_xmrig_running`: a handle exists and its process has not
        exited. */
    predicate IsRunning()
      reads this, process
    {
      process != null && process.alive
    }

    /** `start_monitoring`: adopts the handle, raises the flag and takes a
        new start time; the statistics are not reset. */
    method StartMonitoring(p: Process, now: int)
      modifies this
      ensures process == p && monitoring && startTime == Some(now)
      ensures Snapshot() == old(Snapshot())
    {
      process := p;
      monitoring := true;
      startTime := Some(now);
    }

    /** `stop_monitoring`: lowers the flag (the drain thread then ends). */
    method StopMonitoring()
      modifies this`monitoring
      ensures !monitoring
    {
      monitoring := false;
    }

    /** `_parse_xmrig_line`: first the hashrate, then the share totals,
        both read from the lower-cased line. */
    method ParseLine(line: string)
      modifies this`hashrate, this`accepted, this`rejected
      ensures hashrate == (match HashrateOf(line) case Some(v) => v case None => old(hashrate))
      ensures (accepted, rejected)
           == (match SharesOf(line) case Some(p) => p case None => (old(accepted), old(rejected)))
    {
      var l := Lower(line);
      ParseHashrate(line, l);
      ParseShares(line, l);
    }

    /** Scans the whitespace-separated tokens for the first one holding
        `h/s` and reads the token before it; the scan stops there whether or
        not the number converts. */
    method ParseHashrate(line: string, l: string)
      requires l == Lower(line)
      modifies this`hashrate
      ensures hashrate == (match HashrateOf(line) case Some(v) => v case None => old(hashrate))
    {
      if Contains(l, "speed") || Contains(l, Unit) || Contains(l, "hashrate") {
        if Contains(l, Unit) {
          var parts := Words(l);
          var i := 0;
          while i < |parts|
            invariant 0 <= i <= |parts|
            invariant forall j :: 0 <= j < i ==> !Contains(parts[j], Unit)
            invariant hashrate == old(hashrate)
          {
            if Contains(parts[i], Unit) {
              assert FirstContaining(parts, Unit) == Some(i);
              var ratePart := if i > 0 then parts[i - 1] else "";
              if ratePart != "" {
                ReadRate(ratePart);
              }
              break;
            }
            i := i + 1;
          }
        }
      }
    }

    /** Reads the token in front of the unit token: a trailing `k`, `m` or
        `g` is cut off and scales the number; a token that does not convert
        leaves the hashrate as it was. */
    method ReadRate(ratePart: string)
      requires ratePart != ""
      modifies this`hashrate
      ensures hashrate == (match RateValue(ratePart) case Some(v) => v case None => old(hashrate))
    {
      var multiplier := 1;
      var numeral := ratePart;
      var last := ratePart[|ratePart| - 1];
      if last == 'k' {
        multiplier := 1000;
        numeral := ratePart[..|ratePart| - 1];
      } else if last == 'm' {
        multiplier := 1000000;
        numeral := ratePart[..|ratePart| - 1];
      } else if last == 'g' {
        multiplier := 1000000000;
        numeral := ratePart[..|ratePart| - 1];
      }
      match ParseFloat(numeral)
      case Some(v) => hashrate := v * multiplier as real;
      case None =>
    }

    /** The first `accepted (A/R)` report overwrites both counters, when the
        line also mentions shares. */
    method ParseShares(line: string, l: string)
      requires l == Lower(line)
      modifies this`accepted, this`rejected
      ensures (accepted, rejected)
           == (match SharesOf(line) case Some(p) => p case None => (old(accepted), old(rejected)))
    {
      if Contains(l, "accepted") && (Contains(l, "share") || Contains(l, "shares")) {
        match FirstShareMatch(l)
        case Some(p) =>
          accepted := p.0;
          rejected := p.1;
        case None =>
      }
    }

    /** `_monitor_output` as written. `results` are the successive results of
        `readline()`: a line with its newline, or `""` while no more output
        has come. The worker was spawned with `text=True`, so each is a
        `str`, and a `str` has no `decode`: the first non-empty line raises
        `AttributeError`, which the handler swallows, and the thread ends.
        `read` counts the calls to `readline()` and `parsed` the lines
        handed to `_parse_xmrig_line`. `parsed` is zero by construction:
        the call to the parser comes after the `decode` that raises, so no
        path reaches it and the statistics are never touched. What the
        contract says about the thread is carried by `read`: it stops at
        the first non-empty line. */
    method MonitorOutput(results: seq<string>) returns (read: nat, parsed: nat)
      ensures parsed == 0 && read <= |results|
      ensures (process == null || !monitoring) ==> read == 0
      ensures forall j :: 0 <= j < read - 1 ==> results[j] == []
      ensures read < |results| && process != null && monitoring && process.alive ==> read > 0 && results[read - 1] != []
    {
      read, parsed := 0, 0;
      if process == null {
        return;
      }
      var p := process;
      while monitoring && p.alive && read < |results|
        invariant read <= |results| && parsed == 0 && (monitoring || read == 0)
        invariant forall j :: 0 <= j < read ==> results[j] == []
      {
        var line := results[read];
        read := read + 1;
        if line != [] {
          // `line.decode(...)` raises; `except Exception: pass` ends the thread
          break;
        }
        // `time.sleep(0.1)`
      }
    }

    /** The drain thread as evidently intended: every line is parsed in the
        order the worker wrote it. */
    method FeedLines(lines: seq<string>)
      modifies this`hashrate, this`accepted, this`rejected
      ensures Snapshot() == Feed(old(Snapshot()), lines)
    {
      var i := 0;
      while i < |lines|
        invariant 0 <= i <= |lines|
        invariant Snapshot() == Feed(old(Snapshot()), lines[..i])
      {
        ParseLine(lines[i]);
        assert lines[..i + 1][..i] == lines[..i];
        i := i + 1;
      }
      assert lines[..i] == lines;
    }
  }
}
