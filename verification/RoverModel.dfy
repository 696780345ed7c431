/** The rover's arming, mode and failsafe state, and each operation on it as a function of the
    state before. Sensor readings, times and library verdicts are arguments. */
module RoverModel {
  import opened EkfCounter

  datatype Mode =
    | Manual | Acro | Steering | Hold | Loiter | Follow | Simple | Auto | RTL | SmartRTL | Guided | Initialising

  datatype Reason =
    | Initialised | TxCommand | GcsCommand | Failsafe | MissionEnd | CrashFailsafe | MissionCommand | FenceBreach | EkfFailsafe

  datatype FailsafeAction = NoAction | GoRTL | GoHold | GoSmartRTL | GoSmartRTLOrHold | Terminate | Unlisted

  /** A failsafe bit mask, as the set of its bit numbers. */
  type Mask = set<nat>

  const FAILSAFE_EVENT_THROTTLE: Mask := {0}
  const FAILSAFE_EVENT_GCS: Mask := {1}
  const CONTINUE_MISSION: int := 2
  const FS_EKF_DISABLE: int := 0
  const CLOCK_PERIOD: nat := 0x1_0000_0000

  /** Parameters, fixed for a run. */
  datatype Config = Config(
    ekfThresh: real, ekfAction: int, fsTimeout: real, fsAction: FailsafeAction,
    fsThrottleEnabled: int, fsGcsEnabled: int,
    skidSteering: bool, armingRequired: bool, armingChecks: bool)

  /** What the AHRS, the mission, SmartRTL and Follow libraries report at one moment. */
  datatype Sensors = Sensors(
    haveOrigin: bool, haveInertialNav: bool, horizPosAbs: bool, predHorizPosAbs: bool,
    constPosMode: bool, horizVel: bool,
    magVariance: real, velVariance: real, posVariance: real,
    homeSet: bool, smartRtlActive: bool, missionCommands: nat, followEnabled: bool)

  datatype State = State(
    mode: Mode, reason: Reason,
    armed: bool, safetyDisarmed: bool, softArmed: bool,
    counter: Counter, ekf: bool,
    bits: Mask, triggered: Mask, startTime: nat)

  const INITIAL := State(Initialising, Initialised, false, false, false, CLEAR, false, {}, {}, 0)

  /* ---- modes ---- */

  predicate RequiresPosition(m: Mode) {
    match m
    case Manual | Acro | Steering | Hold => false
    case _ => true
  }

  predicate RequiresVelocity(cfg: Config, m: Mode) {
    match m
    case Manual | Hold => false
    case Acro => !cfg.skidSteering
    case _ => true
  }

  predicate IsArmed(cfg: Config, s: State) {
    !cfg.armingRequired || s.armed
  }

  predicate EkfPositionOk(cfg: Config, s: State, sens: Sensors) {
    && sens.haveInertialNav
    && if !IsArmed(cfg, s) then sens.horizPosAbs || sens.predHorizPosAbs
       else sens.horizPosAbs && !sens.constPosMode
  }

  /** The mode's own _enter hook. */
  predicate EnterHook(m: Mode, sens: Sensors) {
    match m
    case RTL => sens.homeSet
    case SmartRTL => sens.haveOrigin && sens.smartRtlActive
    case Auto => sens.missionCommands > 1
    case Follow => sens.followEnabled
    case _ => true
  }

  /** Mode::enter: the position and velocity guards apply only while soft-armed. */
  predicate CanEnter(cfg: Config, s: State, m: Mode, sens: Sensors) {
    var positionOk := EkfPositionOk(cfg, s, sens) && !s.ekf;
    && (s.softArmed ==> (RequiresPosition(m) ==> positionOk)
                        && (RequiresVelocity(cfg, m) ==> positionOk || sens.horizVel))
    && EnterHook(m, sens)
  }

  /** Rover::set_mode succeeds: already in the mode, or the mode lets itself be entered. */
  predicate Reachable(cfg: Config, s: State, m: Mode, sens: Sensors) {
    s.mode == m || CanEnter(cfg, s, m, sens)
  }

  function SetMode(cfg: Config, s: State, m: Mode, reason: Reason, sens: Sensors): State {
    if s.mode == m || !CanEnter(cfg, s, m, sens) then s else s.(mode := m, reason := reason)
  }

  /* ---- arming ---- */

  /** AP_Arming_Rover::gps_checks; `libraryOk` is the verdict of the parent class. */
  predicate GpsChecks(cfg: Config, s: State, sens: Sensors, libraryOk: bool) {
    || (!RequiresPosition(s.mode) && !RequiresVelocity(cfg, s.mode))
    || (!s.ekf && EkfPositionOk(cfg, s, sens) && libraryOk)
  }

  /** gps_checks runs only when arming is required and some arming check is enabled. */
  predicate ArmingRunsGpsChecks(cfg: Config) {
    cfg.armingRequired && cfg.armingChecks
  }

  /** AP_Arming::arm; `gpsLibraryOk` and `otherChecksOk` are the verdicts of the remaining checks. */
  predicate ArmSucceeds(cfg: Config, s: State, sens: Sensors, gpsLibraryOk: bool, otherChecksOk: bool) {
    && !s.armed
    && (cfg.armingChecks ==> otherChecksOk && (cfg.armingRequired ==> GpsChecks(cfg, s, sens, gpsLibraryOk)))
  }

  function UpdateSoftArmed(cfg: Config, s: State): State {
    s.(softArmed := IsArmed(cfg, s) && !s.safetyDisarmed)
  }

  function Arm(cfg: Config, s: State, sens: Sensors, gpsLibraryOk: bool, otherChecksOk: bool): State {
    if ArmSucceeds(cfg, s, sens, gpsLibraryOk, otherChecksOk) then UpdateSoftArmed(cfg, s.(armed := true)) else s
  }

  /** AP_Arming::disarm; some boards force the safety switch on. */
  function Disarm(cfg: Config, s: State, forceSafety: bool): State {
    if !s.armed then s
    else UpdateSoftArmed(cfg, s.(armed := false, safetyDisarmed := s.safetyDisarmed || forceSafety))
  }

  /* ---- EKF check ---- */

  function OverCount(cfg: Config, sens: Sensors): nat {
    (if sens.magVariance >= cfg.ekfThresh then 1 else 0) +
    (if sens.velVariance >= cfg.ekfThresh then 1 else 0) +
    (if sens.posVariance >= cfg.ekfThresh then 1 else 0)
  }

  predicate EkfOverThreshold(cfg: Config, s: State, sens: Sensors) {
    cfg.ekfThresh > 0.0 && (OverCount(cfg, sens) >= 2 || !EkfPositionOk(cfg, s, sens))
  }

  predicate EkfCheckResets(cfg: Config, s: State, sens: Sensors) {
    sens.haveOrigin && (!IsArmed(cfg, s) || cfg.ekfThresh <= 0.0)
  }

  predicate EkfCheckCounts(cfg: Config, s: State, sens: Sensors) {
    sens.haveOrigin && IsArmed(cfg, s) && cfg.ekfThresh > 0.0
  }

  function EkfEvent(cfg: Config, s: State, sens: Sensors): State {
    if s.ekf then s
    else
      var raised := s.(ekf := true);
      if !RequiresPosition(s.mode) || cfg.ekfAction == FS_EKF_DISABLE then raised
      else SetMode(cfg, raised, Hold, EkfFailsafe, sens)
  }

  function EkfCheck(cfg: Config, s: State, sens: Sensors): State {
    if EkfCheckResets(cfg, s, sens) then s.(counter := CLEAR, ekf := false)
    else if EkfCheckCounts(cfg, s, sens) then CountCheck(cfg, s, EkfOverThreshold(cfg, s, sens), sens)
    else s
  }

  /** One counted check; the failsafe follows the counter's flag. */
  function CountCheck(cfg: Config, s: State, over: bool, sens: Sensors): State {
    var c := Check(s.counter, over);
    var counted := s.(counter := c);
    if c.bad && !s.counter.bad then EkfEvent(cfg, counted, sens)
    else if !c.bad && s.counter.bad then counted.(ekf := false)
    else counted
  }

  /* ---- failsafe actions ---- */

  /** The reference for both fallback chains: modes to try, the first that succeeds wins. */
  function Candidates(action: FailsafeAction): seq<Mode> {
    match action
    case GoRTL => [RTL, Hold]
    case GoHold => [Hold]
    case GoSmartRTL => [SmartRTL, RTL, Hold]
    case GoSmartRTLOrHold => [SmartRTL, Hold]
    case NoAction | Terminate | Unlisted => []
  }

  function TryInOrder(cfg: Config, s: State, targets: seq<Mode>, reason: Reason, sens: Sensors): State {
    if targets == [] then s
    else if Reachable(cfg, s, targets[0], sens) then SetMode(cfg, s, targets[0], reason, sens)
    else TryInOrder(cfg, s, targets[1..], reason, sens)
  }

  lemma ChainUnfolds(cfg: Config, s: State, reason: Reason, sens: Sensors)
    ensures TryInOrder(cfg, s, [], reason, sens) == s
    ensures TryInOrder(cfg, s, Candidates(GoHold), reason, sens) == SetMode(cfg, s, Hold, reason, sens)
    ensures TryInOrder(cfg, s, Candidates(GoRTL), reason, sens) ==
            if Reachable(cfg, s, RTL, sens) then SetMode(cfg, s, RTL, reason, sens)
            else SetMode(cfg, s, Hold, reason, sens)
    ensures TryInOrder(cfg, s, Candidates(GoSmartRTL), reason, sens) ==
            if Reachable(cfg, s, SmartRTL, sens) then SetMode(cfg, s, SmartRTL, reason, sens)
            else TryInOrder(cfg, s, Candidates(GoRTL), reason, sens)
    ensures TryInOrder(cfg, s, Candidates(GoSmartRTLOrHold), reason, sens) ==
            if Reachable(cfg, s, SmartRTL, sens) then SetMode(cfg, s, SmartRTL, reason, sens)
            else SetMode(cfg, s, Hold, reason, sens)
  {
    assert Candidates(GoRTL)[1..] == Candidates(GoHold);
    assert Candidates(GoSmartRTL)[1..] == Candidates(GoRTL);
    assert Candidates(GoSmartRTLOrHold)[1..] == Candidates(GoHold);
  }

  function BatteryFailsafe(cfg: Config, s: State, action: FailsafeAction, sens: Sensors, forceSafety: bool): State {
    if action == Terminate then Disarm(cfg, s, forceSafety)
    else TryInOrder(cfg, s, Candidates(action), Failsafe, sens)
  }

  /** One call of failsafe_trigger. The clock is read twice, in true milliseconds here. */
  datatype Call = Call(kind: Mask, on: bool, firstRead: nat, secondRead: nat)

  /** millis(): 32 bits of the true time. */
  function Millis(t: nat): (r: nat)
    ensures r < CLOCK_PERIOD
  {
    t % CLOCK_PERIOD
  }

  /** Unsigned 32-bit subtraction. */
  function Elapsed(now: nat, start: nat): (r: nat)
    ensures r < CLOCK_PERIOD
  {
    (now - start) % CLOCK_PERIOD
  }

  function NewBits(bits: Mask, c: Call): Mask {
    if c.on then bits + c.kind else bits - c.kind
  }

  function MaskedState(s: State, c: Call): State {
    var bits := NewBits(s.bits, c);
    s.(bits := bits,
       startTime := if s.bits == {} && bits != {} then Millis(c.firstRead) else s.startTime,
       triggered := s.triggered * bits)
  }

  predicate Fires(cfg: Config, s: State, c: Call) {
    var m := MaskedState(s, c);
    && m.triggered == {}
    && m.bits != {}
    && Elapsed(Millis(c.secondRead), m.startTime) as real > cfg.fsTimeout * 1000.0
    && s.mode != RTL && s.mode != Hold
  }

  predicate ContinuesMission(cfg: Config, s: State, c: Call) {
    && s.mode == Auto
    && (|| (c.kind == FAILSAFE_EVENT_THROTTLE && cfg.fsThrottleEnabled == CONTINUE_MISSION)
        || (c.kind == FAILSAFE_EVENT_GCS && cfg.fsGcsEnabled == CONTINUE_MISSION))
  }

  function FailsafeTrigger(cfg: Config, s: State, c: Call, sens: Sensors): State {
    var m := MaskedState(s, c);
    if !Fires(cfg, s, c) then m
    else
      var f := m.(triggered := m.bits);
      if ContinuesMission(cfg, s, c) then f else TryInOrder(cfg, f, Candidates(cfg.fsAction), Failsafe, sens)
  }

  /* ---- runs ---- */

  datatype Event =
    | EkfCheckEvent(sens: Sensors)
    | SetModeEvent(target: Mode, reason: Reason, sens: Sensors)
    | TriggerEvent(call: Call, sens: Sensors)
    | BatteryEvent(action: FailsafeAction, sens: Sensors, forceSafety: bool)
    | ArmEvent(sens: Sensors, gpsLibraryOk: bool, otherChecksOk: bool)
    | DisarmEvent(forceSafety: bool)
    | SafetySwitchEvent(safetyDisarmed: bool)
    | AhrsUpdateEvent

  function Step(cfg: Config, s: State, e: Event): State {
    match e
    case EkfCheckEvent(sens) => EkfCheck(cfg, s, sens)
    case SetModeEvent(m, reason, sens) => SetMode(cfg, s, m, reason, sens)
    case TriggerEvent(call, sens) => FailsafeTrigger(cfg, s, call, sens)
    case BatteryEvent(action, sens, force) => BatteryFailsafe(cfg, s, action, sens, force)
    case ArmEvent(sens, gpsOk, otherOk) => Arm(cfg, s, sens, gpsOk, otherOk)
    case DisarmEvent(force) => Disarm(cfg, s, force)
    // the soft-armed state notices the switch at the next ahrs_update
    case SafetySwitchEvent(disarmed) => s.(safetyDisarmed := disarmed)
    case AhrsUpdateEvent => UpdateSoftArmed(cfg, s)
  }

  function After(cfg: Config, run: seq<Event>): State {
    if run == [] then INITIAL else Step(cfg, After(cfg, run[..|run| - 1]), run[|run| - 1])
  }
}
