/**
 * The RASP controller of src/localsports/src/rasp.cpp: the lifecycle flags
 * (`g_raspActive`, `g_debuggerMonitorRunning`), the configuration snapshot
 * `g_config`, the expected checksum and the in-memory security event log,
 * together with the integrity checks, critical-event handling and the
 * fail-closed shutdown that drive them.
 *
 * The process environment is a parameter (`Host`): whether the log file
 * opens, the executable image, SHA-256, the debugger probe and the number of
 * hooks the IAT and PLT detectors report. `std::exit` is the terminal flag
 * `exited`; an operation stops as soon as it sets it.
 */
module Rasp {
  import opened Common
  import opened Elf
  import Hardening

  datatype SecurityEvent = SecurityEvent(eventType: string, description: string, severity: int)

  datatype RaspConfig = RaspConfig(
    enableDebuggerDetection: bool,
    enableChecksumVerification: bool,
    enableHookDetection: bool,
    autoTerminateOnThreat: bool,
    monitoringIntervalMs: int,
    logFilePath: string)

  /** The member initialisers of RASPConfig. */
  const DEFAULT_CONFIG := RaspConfig(true, true, true, true, 5000, "rasp_security.log")

  datatype Host = Host(
    logFileOpens: bool,
    image: Option<Bytes>,
    sha256: Bytes -> Digest,
    debuggerPresent: bool,
    hooks: nat)

  function CurrentChecksum(host: Host): string
  {
    TextChecksum(host.image, host.sha256)
  }

  // =================== Events ===================

  const CALCULATION_FAILED := SecurityEvent("CHECKSUM_CALCULATION_FAILED", "Failed to calculate .text section checksum", 3)
  const CHECK_PASSED := SecurityEvent("INTEGRITY_CHECK_PASSED", "Binary integrity verified successfully", 1)

  function Mismatch(expected: string, current: string): SecurityEvent
  {
    SecurityEvent("CHECKSUM_MISMATCH", "Code tampering detected - Expected: " + expected + " Got: " + current, 3)
  }

  function FailClosedEvent(reason: string): SecurityEvent
  {
    SecurityEvent("FAIL_CLOSED_SHUTDOWN", reason, 3)
  }

  /** What HandleCriticalEvent logs: the critical event, then the fail-closed record when it terminates. */
  function CriticalEvents(eventType: string, description: string, terminate: bool): seq<SecurityEvent>
  {
    [SecurityEvent(eventType, description, 3)] + (if terminate then [FailClosedEvent(description)] else [])
  }

  /** VerifyTextSectionIntegrity's verdict: no expected value passes; otherwise the checksum must be computed and equal. */
  function IntegrityVerdict(expected: string, current: string): bool
  {
    if expected == [] then true
    else if current == [] then false
    else current == expected
  }

  /** The events VerifyTextSectionIntegrity logs. */
  function IntegrityEvents(expected: string, current: string): seq<SecurityEvent>
  {
    if expected == [] then []
    else if current == [] then [CALCULATION_FAILED]
    else if current != expected then [Mismatch(expected, current)]
    else [CHECK_PASSED]
  }

  /** The checksum check logs one event exactly when an expected value is given, and its severity is 3 exactly when the check fails. */
  lemma IntegrityEventsReportVerdict(expected: string, current: string)
    ensures |IntegrityEvents(expected, current)| == (if expected == [] then 0 else 1)
    ensures expected != [] ==>
              (IntegrityEvents(expected, current)[0].severity == 3 <==> !IntegrityVerdict(expected, current))
    ensures expected != [] ==>
              (IntegrityEvents(expected, current)[0].severity == 1 <==> IntegrityVerdict(expected, current))
  {
  }

  /** The RASP check and the hardening layer's VerifyIntegrity apply the same rule. */
  lemma VerdictAgreesWithHardening(expected: string, current: string)
    ensures IntegrityVerdict(expected, current) == Hardening.VerifyIntegrity(expected, current)
  {
  }

  /**
   * A non-empty expected checksum passes only when the image has a ".text"
   * section and the expected value is the hex rendering of its SHA-256.
   */
  lemma VerdictMeansDigest(expected: string, host: Host)
    requires expected != []
    requires IntegrityVerdict(expected, CurrentChecksum(host))
    ensures host.image.Some? && TextSection(host.image.value).Some?
    ensures AllHex(expected) && |expected| == 64
    ensures FromHex(expected) == host.sha256(TextSection(host.image.value).value)
  {
    HexRoundTrip(host.sha256(TextSection(host.image.value).value));
  }

  // =================== Security scan, as a specification ===================

  const DEBUGGER_DETECTED := "DEBUGGER_DETECTED"
  const INTEGRITY_VIOLATION := "INTEGRITY_VIOLATION"
  const HOOK_DETECTED := "HOOK_DETECTED"
  const BOOT_INTEGRITY_FAILED := "BOOT_INTEGRITY_FAILED"
  const SCAN_DEBUGGER_MSG := "Debugger detected during security scan"
  const SCAN_INTEGRITY_MSG := "Code integrity violation detected"
  const SCAN_HOOKS_MSG := "Hooks detected during security scan"
  const BOOT_FAILED_MSG := "Application code has been modified, terminating"
  const INIT_HOOKS_MSG := "IAT/PLT hooks detected during initialization"

  predicate DebuggerFails(cfg: RaspConfig, host: Host)
  {
    cfg.enableDebuggerDetection && host.debuggerPresent
  }

  predicate IntegrityFails(cfg: RaspConfig, expected: string, host: Host)
  {
    cfg.enableChecksumVerification && !IntegrityVerdict(expected, CurrentChecksum(host))
  }

  predicate HooksFail(cfg: RaspConfig, host: Host)
  {
    cfg.enableHookDetection && host.hooks > 0
  }

  /** Every enabled check of an active scan passes. */
  predicate ScanPasses(cfg: RaspConfig, expected: string, host: Host)
  {
    !DebuggerFails(cfg, host) && !IntegrityFails(cfg, expected, host) && !HooksFail(cfg, host)
  }

  /** The process ends during the scan: some check fails and threats terminate. */
  predicate ScanExits(cfg: RaspConfig, expected: string, host: Host)
  {
    cfg.autoTerminateOnThreat && !ScanPasses(cfg, expected, host)
  }

  function DebuggerAlarm(cfg: RaspConfig, host: Host): seq<SecurityEvent>
  {
    if DebuggerFails(cfg, host) then CriticalEvents(DEBUGGER_DETECTED, SCAN_DEBUGGER_MSG, cfg.autoTerminateOnThreat) else []
  }

  /** The event the checksum check logs when it is enabled. */
  function ChecksumEvents(cfg: RaspConfig, expected: string, host: Host): seq<SecurityEvent>
  {
    if cfg.enableChecksumVerification then IntegrityEvents(expected, CurrentChecksum(host)) else []
  }

  function IntegrityStep(cfg: RaspConfig, expected: string, host: Host): seq<SecurityEvent>
  {
    ChecksumEvents(cfg, expected, host) +
    (if IntegrityFails(cfg, expected, host) then CriticalEvents(INTEGRITY_VIOLATION, SCAN_INTEGRITY_MSG, cfg.autoTerminateOnThreat) else [])
  }

  function HookAlarm(cfg: RaspConfig, host: Host): seq<SecurityEvent>
  {
    if HooksFail(cfg, host) then CriticalEvents(HOOK_DETECTED, SCAN_HOOKS_MSG, cfg.autoTerminateOnThreat) else []
  }

  /** The checks after the debugger check pass. */
  predicate TailPasses(cfg: RaspConfig, expected: string, host: Host)
  {
    !IntegrityFails(cfg, expected, host) && !HooksFail(cfg, host)
  }

  /** The events of the integrity and hook checks; a terminating integrity alarm skips the hook check. */
  function ScanTail(cfg: RaspConfig, expected: string, host: Host): seq<SecurityEvent>
  {
    if IntegrityFails(cfg, expected, host) && cfg.autoTerminateOnThreat then IntegrityStep(cfg, expected, host)
    else IntegrityStep(cfg, expected, host) + HookAlarm(cfg, host)
  }

  /** The events an active scan logs, in order; a terminating alarm ends the scan. */
  function ScanEvents(cfg: RaspConfig, expected: string, host: Host): seq<SecurityEvent>
  {
    if DebuggerFails(cfg, host) && cfg.autoTerminateOnThreat then DebuggerAlarm(cfg, host)
    else DebuggerAlarm(cfg, host) + ScanTail(cfg, expected, host)
  }

  /** An active scan whose debugger check did not terminate is that check followed by the tail. */
  lemma ScanDecomposes(cfg: RaspConfig, expected: string, host: Host)
    requires !(DebuggerFails(cfg, host) && cfg.autoTerminateOnThreat)
    ensures ScanPasses(cfg, expected, host) == (!DebuggerFails(cfg, host) && TailPasses(cfg, expected, host))
    ensures ScanExits(cfg, expected, host) == (cfg.autoTerminateOnThreat && !TailPasses(cfg, expected, host))
    ensures ScanEvents(cfg, expected, host) == DebuggerAlarm(cfg, host) + ScanTail(cfg, expected, host)
  {
  }

  lemma AppendAssoc<T>(a: seq<T>, b: seq<T>, c: seq<T>)
    ensures a + b + c == a + (b + c)
  {
  }

  predicate AllInfo(events: seq<SecurityEvent>)
  {
    forall i :: 0 <= i < |events| ==> events[i].severity < 3
  }

  /** A scan passes exactly when it logs no critical event. */
  lemma ScanPassesIffQuiet(cfg: RaspConfig, expected: string, host: Host)
    ensures ScanPasses(cfg, expected, host) <==> AllInfo(ScanEvents(cfg, expected, host))
  {
    var cur := CurrentChecksum(host);
    var ev := ScanEvents(cfg, expected, host);
    IntegrityEventsReportVerdict(expected, cur);
    var integ := if cfg.enableChecksumVerification then IntegrityEvents(expected, cur) else [];
    if DebuggerFails(cfg, host) {
      assert ev[0] == SecurityEvent(DEBUGGER_DETECTED, SCAN_DEBUGGER_MSG, 3);
    } else if IntegrityFails(cfg, expected, host) {
      assert expected != [];
      assert ev[0] == IntegrityEvents(expected, cur)[0];
    } else if HooksFail(cfg, host) {
      assert ev == integ + HookAlarm(cfg, host);
      assert ev[|integ|].severity == 3;
    } else {
      assert ev == integ;
    }
  }

  // =================== The engine ===================

  class Engine {
    var active: bool
    var monitorRunning: bool
    /** The interval the running monitor thread sleeps between probes. */
    var monitorIntervalMs: int
    var config: RaspConfig
    var expectedChecksum: string
    var log: seq<SecurityEvent>
    /** std::exit has been called. */
    var exited: bool

    /** The static initial state of rasp.cpp's globals. */
    constructor ()
      ensures !active && !monitorRunning && config == DEFAULT_CONFIG
      ensures expectedChecksum == [] && log == [] && !exited
    {
      active := false;
      monitorRunning := false;
      monitorIntervalMs := 0;
      config := DEFAULT_CONFIG;
      expectedChecksum := [];
      log := [];
      exited := false;
    }

    /** LogSecurityEvent: the event is appended in every case; the result says whether the log file opened. */
    method LogSecurityEvent(event: SecurityEvent, host: Host) returns (written: bool)
      modifies this
      ensures log == old(log) + [event]
      ensures written == host.logFileOpens
      ensures active == old(active) && monitorRunning == old(monitorRunning) && monitorIntervalMs == old(monitorIntervalMs)
      ensures config == old(config) && expectedChecksum == old(expectedChecksum) && exited == old(exited)
    {
      log := log + [event];
      written := host.logFileOpens;
    }

    /** GetSecurityEventLog: a copy of the events in insertion order. */
    function GetSecurityEventLog(): (r: seq<SecurityEvent>)
      reads this
      ensures r == log
    {
      log
    }

    /** ClearSecurityLog: the in-memory log becomes empty (the file is truncated as well). */
    method ClearSecurityLog()
      modifies this
      ensures log == []
      ensures active == old(active) && monitorRunning == old(monitorRunning) && monitorIntervalMs == old(monitorIntervalMs)
      ensures config == old(config) && expectedChecksum == old(expectedChecksum) && exited == old(exited)
    {
      log := [];
    }

    /** StartDebuggerMonitoring: does nothing while a monitor runs; otherwise marks it running with the given interval. */
    method StartDebuggerMonitoring(intervalMs: int)
      modifies this
      ensures monitorRunning
      ensures old(monitorRunning) ==> monitorIntervalMs == old(monitorIntervalMs)
      ensures !old(monitorRunning) ==> monitorIntervalMs == intervalMs
      ensures active == old(active) && log == old(log)
      ensures config == old(config) && expectedChecksum == old(expectedChecksum) && exited == old(exited)
    {
      if monitorRunning {
        return;
      }
      monitorRunning := true;
      monitorIntervalMs := intervalMs;
    }

    /** StopDebuggerMonitoring: clears the running flag (and joins the thread). */
    method StopDebuggerMonitoring()
      modifies this
      ensures !monitorRunning
      ensures active == old(active) && log == old(log) && monitorIntervalMs == old(monitorIntervalMs)
      ensures config == old(config) && expectedChecksum == old(expectedChecksum) && exited == old(exited)
    {
      if monitorRunning {
        monitorRunning := false;
      }
    }

    /** ShutdownRASP: nothing when inactive; otherwise stop the monitor and clear the active flag. */
    method ShutdownRASP()
      modifies this
      ensures !active
      ensures old(active) ==> !monitorRunning
      ensures !old(active) ==> monitorRunning == old(monitorRunning)
      ensures log == old(log) && monitorIntervalMs == old(monitorIntervalMs)
      ensures config == old(config) && expectedChecksum == old(expectedChecksum) && exited == old(exited)
    {
      if !active {
        return;
      }
      StopDebuggerMonitoring();
      active := false;
    }

    /** IsRASPActive: the flag InitializeRASP sets and ShutdownRASP clears. */
    function IsRASPActive(): (r: bool)
      reads this
      ensures r == active
    {
      active
    }

    /** FailClosedShutdown: log the reason, shut RASP down and exit. */
    method FailClosedShutdown(reason: string, host: Host)
      modifies this
      ensures log == old(log) + [FailClosedEvent(reason)]
      ensures exited && !active
      ensures monitorRunning == (old(monitorRunning) && !old(active))
      ensures monitorIntervalMs == old(monitorIntervalMs)
      ensures config == old(config) && expectedChecksum == old(expectedChecksum)
    {
      var _ := LogSecurityEvent(FailClosedEvent(reason), host);
      ShutdownRASP();
      exited := true;
    }

    /** HandleCriticalEvent: one severity-3 event of the given type, then the fail-closed shutdown when asked to terminate. */
    method HandleCriticalEvent(eventType: string, description: string, terminate: bool, host: Host)
      modifies this
      ensures log == old(log) + CriticalEvents(eventType, description, terminate)
      ensures exited == (old(exited) || terminate)
      ensures active == (old(active) && !terminate)
      ensures monitorRunning == (old(monitorRunning) && !(terminate && old(active)))
      ensures monitorIntervalMs == old(monitorIntervalMs)
      ensures config == old(config) && expectedChecksum == old(expectedChecksum)
    {
      var _ := LogSecurityEvent(SecurityEvent(eventType, description, 3), host);
      if terminate {
        FailClosedShutdown(description, host);
      }
    }

    /** VerifyTextSectionIntegrity: the verdict on the current checksum, with the event it logs. */
    method VerifyTextSectionIntegrity(expected: string, host: Host) returns (ok: bool)
      modifies this
      ensures ok == IntegrityVerdict(expected, CurrentChecksum(host))
      ensures log == old(log) + IntegrityEvents(expected, CurrentChecksum(host))
      ensures active == old(active) && monitorRunning == old(monitorRunning) && monitorIntervalMs == old(monitorIntervalMs)
      ensures config == old(config) && expectedChecksum == old(expectedChecksum) && exited == old(exited)
    {
      if expected == [] {
        return true;
      }
      var current := CalculateTextSectionChecksum(host.image, host.sha256);
      if current == [] {
        var _ := LogSecurityEvent(CALCULATION_FAILED, host);
        return false;
      }
      ok := current == expected;
      if !ok {
        var _ := LogSecurityEvent(Mismatch(expected, current), host);
      } else {
        var _ := LogSecurityEvent(CHECK_PASSED, host);
      }
    }

    /** BootTimeIntegrityCheck: skipped when checksum verification is off; a failed check ends the process. */
    method BootTimeIntegrityCheck(expected: string, host: Host) returns (ok: bool)
      requires !exited
      modifies this
      ensures !old(config).enableChecksumVerification ==> ok && log == old(log) && !exited
      ensures old(config).enableChecksumVerification ==>
                ok == IntegrityVerdict(expected, CurrentChecksum(host)) &&
                log == old(log) + IntegrityEvents(expected, CurrentChecksum(host)) +
                       (if ok then [] else CriticalEvents(BOOT_INTEGRITY_FAILED, BOOT_FAILED_MSG, true))
      ensures exited == !ok
      ensures ok ==> active == old(active) && monitorRunning == old(monitorRunning)
      ensures !ok ==> !active && (old(active) ==> !monitorRunning) && (!old(active) ==> monitorRunning == old(monitorRunning))
      ensures monitorIntervalMs == old(monitorIntervalMs)
      ensures config == old(config) && expectedChecksum == old(expectedChecksum)
    {
      if !config.enableChecksumVerification {
        return true;
      }
      ok := VerifyTextSectionIntegrity(expected, host);
      if !ok {
        HandleCriticalEvent(BOOT_INTEGRITY_FAILED, BOOT_FAILED_MSG, true, host);
      }
    }

    /**
     * InitializeRASP: refuses when already active. Otherwise records the
     * expected checksum and the autoTerminate setting, runs the boot check
     * (a failure ends the process), starts the monitor and scans for hooks;
     * hooks end the process when autoTerminate is set and are only logged
     * when it is not. A normal return leaves RASP active.
     */
    method InitializeRASP(expected: string, autoTerminate: bool, host: Host) returns (ok: bool)
      requires !exited
      modifies this
      ensures old(active) ==>
                !ok && active && log == old(log) && config == old(config) && expectedChecksum == old(expectedChecksum) &&
                monitorRunning == old(monitorRunning) && monitorIntervalMs == old(monitorIntervalMs) && !exited
      ensures !old(active) ==>
                expectedChecksum == expected && config == old(config).(autoTerminateOnThreat := autoTerminate)
      ensures !old(active) ==>
                exited == (IntegrityFails(old(config), expected, host) || (HooksFail(old(config), host) && autoTerminate)) &&
                ok == !exited && active == ok
      ensures !old(active) && IntegrityFails(old(config), expected, host) ==>
                log == old(log) + ChecksumEvents(old(config), expected, host) +
                       CriticalEvents(BOOT_INTEGRITY_FAILED, BOOT_FAILED_MSG, true) &&
                monitorRunning == old(monitorRunning) && monitorIntervalMs == old(monitorIntervalMs)
      ensures !old(active) && !IntegrityFails(old(config), expected, host) ==>
                log == old(log) + ChecksumEvents(old(config), expected, host) +
                       (if HooksFail(old(config), host) then CriticalEvents(HOOK_DETECTED, INIT_HOOKS_MSG, autoTerminate) else []) &&
                monitorRunning == (old(monitorRunning) || old(config).enableDebuggerDetection) &&
                monitorIntervalMs == (if !old(monitorRunning) && old(config).enableDebuggerDetection
                                      then old(config).monitoringIntervalMs else old(monitorIntervalMs))
    {
      if active {
        return false;
      }
      expectedChecksum := expected;
      config := config.(autoTerminateOnThreat := autoTerminate);
      if config.enableChecksumVerification {
        var passed := BootTimeIntegrityCheck(expected, host);
        if !passed {
          return false;
        }
      }
      ok := StartProtection(host);
    }

    /** InitializeRASP after a passed boot check: the monitor starts, then hooks are looked for. */
    method StartProtection(host: Host) returns (ok: bool)
      requires !exited && !active
      modifies this
      ensures exited == (HooksFail(config, host) && config.autoTerminateOnThreat)
      ensures ok == !exited && active == ok
      ensures log == old(log) + (if HooksFail(config, host) then CriticalEvents(HOOK_DETECTED, INIT_HOOKS_MSG, config.autoTerminateOnThreat) else [])
      ensures monitorRunning == (old(monitorRunning) || config.enableDebuggerDetection)
      ensures monitorIntervalMs == (if !old(monitorRunning) && config.enableDebuggerDetection
                                    then config.monitoringIntervalMs else old(monitorIntervalMs))
      ensures config == old(config) && expectedChecksum == old(expectedChecksum)
    {
      if config.enableDebuggerDetection {
        StartDebuggerMonitoring(config.monitoringIntervalMs);
      }
      if config.enableHookDetection {
        if host.hooks > 0 {
          HandleCriticalEvent(HOOK_DETECTED, INIT_HOOKS_MSG, config.autoTerminateOnThreat, host);
          if exited {
            return false;
          }
        }
      }
      active := true;
      ok := true;
    }

    /**
     * PerformSecurityScan: false when inactive. Otherwise runs the enabled
     * debugger, integrity and hook checks in that order, raising a critical
     * event for each failure; the result is whether all of them passed.
     */
    method PerformSecurityScan(host: Host) returns (ok: bool)
      requires !exited
      modifies this
      ensures ok == (old(active) && ScanPasses(config, expectedChecksum, host))
      ensures exited == (old(active) && ScanExits(config, expectedChecksum, host))
      ensures log == old(log) + (if old(active) then ScanEvents(config, expectedChecksum, host) else [])
      ensures active == (old(active) && !exited)
      ensures monitorRunning == (old(monitorRunning) && !exited)
      ensures config == old(config) && expectedChecksum == old(expectedChecksum) && monitorIntervalMs == old(monitorIntervalMs)
    {
      if !active {
        return false;
      }
      ghost var log0 := log;
      var stop := RaiseIf(config.enableDebuggerDetection && host.debuggerPresent,
                          DEBUGGER_DETECTED, SCAN_DEBUGGER_MSG, host);
      if stop {
        return false;
      }
      ok := IntegrityAndHookChecks(host);
      ScanDecomposes(config, expectedChecksum, host);
      AppendAssoc(log0, DebuggerAlarm(config, host), ScanTail(config, expectedChecksum, host));
      ok := ok && !(config.enableDebuggerDetection && host.debuggerPresent);
    }

    /** The integrity check, then the hook check unless the integrity alarm terminated. */
    method IntegrityAndHookChecks(host: Host) returns (ok: bool)
      requires !exited && active
      modifies this
      ensures ok == TailPasses(config, expectedChecksum, host)
      ensures exited == (config.autoTerminateOnThreat && !ok)
      ensures log == old(log) + ScanTail(config, expectedChecksum, host)
      ensures active == !exited
      ensures monitorRunning == (old(monitorRunning) && !exited)
      ensures config == old(config) && expectedChecksum == old(expectedChecksum) && monitorIntervalMs == old(monitorIntervalMs)
    {
      ghost var log0 := log;
      var intact := true;
      if config.enableChecksumVerification {
        intact := VerifyTextSectionIntegrity(expectedChecksum, host);
      }
      var stop := RaiseIf(!intact, INTEGRITY_VIOLATION, SCAN_INTEGRITY_MSG, host);
      assert log == log0 + IntegrityStep(config, expectedChecksum, host);
      if stop {
        return false;
      }
      var hooked := RaiseIf(config.enableHookDetection && host.hooks > 0,
                            HOOK_DETECTED, SCAN_HOOKS_MSG, host);
      AppendAssoc(log0, IntegrityStep(config, expectedChecksum, host), HookAlarm(config, host));
      ok := intact && !(config.enableHookDetection && host.hooks > 0);
    }

    /** One check of the scan: a failed check raises a critical event, terminating when threats terminate. */
    method RaiseIf(fails: bool, eventType: string, description: string, host: Host) returns (stop: bool)
      requires !exited && active
      modifies this
      ensures log == old(log) + (if fails then CriticalEvents(eventType, description, config.autoTerminateOnThreat) else [])
      ensures stop == exited == (fails && config.autoTerminateOnThreat)
      ensures active == !stop
      ensures monitorRunning == (old(monitorRunning) && !stop)
      ensures config == old(config) && expectedChecksum == old(expectedChecksum) && monitorIntervalMs == old(monitorIntervalMs)
    {
      if fails {
        HandleCriticalEvent(eventType, description, config.autoTerminateOnThreat, host);
      }
      stop := exited;
    }

    /** ConfigureRASP: replaces the configuration. */
    method ConfigureRASP(c: RaspConfig)
      modifies this
      ensures config == c
      ensures active == old(active) && monitorRunning == old(monitorRunning) && monitorIntervalMs == old(monitorIntervalMs)
      ensures log == old(log) && expectedChecksum == old(expectedChecksum) && exited == old(exited)
    {
      config := c;
    }

    /** GetRASPConfig: the last configuration set. */
    function GetRASPConfig(): (r: RaspConfig)
      reads this
      ensures r == config
    {
      config
    }
  }
}
