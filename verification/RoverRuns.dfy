/** What every run of the rover's arming, mode and failsafe machine keeps. */
module RoverRuns {
  import opened EkfCounter
  import opened RoverModel

  lemma PrefixStep(cfg: Config, run: seq<Event>, k: nat)
    requires k < |run|
    ensures After(cfg, run[..k + 1]) == Step(cfg, After(cfg, run[..k]), run[k])
  {
    assert run[..k + 1][..k] == run[..k];
  }

  lemma AfterOneMore(cfg: Config, run: seq<Event>, e: Event)
    ensures After(cfg, run + [e]) == Step(cfg, After(cfg, run), e)
  {
    assert (run + [e])[..|run|] == run;
  }

  /* ---- state invariants ---- */

  ghost predicate Inv(s: State) {
    && s.ekf == s.counter.bad
    && (if s.counter.bad then 1 <= s.counter.failCount <= 10 else s.counter.failCount < 10)
    && s.triggered <= s.bits
  }

  /** Falling back changes nothing but the mode and its reason. */
  lemma {:induction false} TryKeeps(cfg: Config, s: State, targets: seq<Mode>, reason: Reason, sens: Sensors)
    ensures var r := TryInOrder(cfg, s, targets, reason, sens); r == s.(mode := r.mode, reason := r.reason)
  {
    if targets != [] && !Reachable(cfg, s, targets[0], sens) {
      TryKeeps(cfg, s, targets[1..], reason, sens);
    }
  }

  lemma CheckKeepsInv(cfg: Config, s: State, over: bool, sens: Sensors)
    requires Inv(s)
    ensures Inv(CountCheck(cfg, s, over, sens))
  {
  }

  /** A call of failsafe_trigger updates the masks and the start time, and may change the mode. */
  lemma TriggerKeeps(cfg: Config, s: State, c: Call, sens: Sensors)
    ensures var m, r := MaskedState(s, c), FailsafeTrigger(cfg, s, c, sens);
            r == m.(triggered := if Fires(cfg, s, c) then m.bits else m.triggered, mode := r.mode, reason := r.reason)
  {
    var m := MaskedState(s, c);
    TryKeeps(cfg, m.(triggered := m.bits), Candidates(cfg.fsAction), Failsafe, sens);
  }

  lemma StepKeepsInv(cfg: Config, s: State, e: Event)
    requires Inv(s)
    ensures Inv(Step(cfg, s, e))
  {
    match e
    case EkfCheckEvent(sens) => CheckKeepsInv(cfg, s, EkfOverThreshold(cfg, s, sens), sens);
    case TriggerEvent(c, sens) => TriggerKeeps(cfg, s, c, sens);
    case BatteryEvent(action, sens, _) => TryKeeps(cfg, s, Candidates(action), Failsafe, sens);
    case _ =>
  }

  /** In every run: failsafe.ekf is the counter's flag, the count stays within 0..10, and only
      pending failsafes count as acted on. */
  lemma {:induction false} EveryRunKeepsInv(cfg: Config, run: seq<Event>)
    ensures Inv(After(cfg, run))
  {
    if run != [] {
      EveryRunKeepsInv(cfg, run[..|run| - 1]);
      StepKeepsInv(cfg, After(cfg, run[..|run| - 1]), run[|run| - 1]);
    }
  }

  /* ---- what counts as over threshold ---- */

  /** Two of the three variances reach the threshold. */
  ghost predicate TwoHigh(variances: seq<real>, threshold: real) {
    exists i, j :: 0 <= i < j < |variances| && variances[i] >= threshold && variances[j] >= threshold
  }

  /** A check is over threshold exactly when it is enabled and two variances are high or the position
      is not usable; arming only ever makes it stricter. */
  lemma OverThresholdExactlyWhen(cfg: Config, s: State, sens: Sensors)
    ensures EkfOverThreshold(cfg, s, sens) <==>
            cfg.ekfThresh > 0.0
            && (TwoHigh([sens.magVariance, sens.velVariance, sens.posVariance], cfg.ekfThresh) || !EkfPositionOk(cfg, s, sens))
    ensures EkfOverThreshold(cfg, s.(armed := false), sens) ==> EkfOverThreshold(cfg, s.(armed := true), sens)
  {
    var v := [sens.magVariance, sens.velVariance, sens.posVariance];
    if OverCount(cfg, sens) >= 2 {
      var i, j := if v[0] >= cfg.ekfThresh then 0 else 1, if v[2] >= cfg.ekfThresh then 2 else 1;
      assert v[i] >= cfg.ekfThresh && v[j] >= cfg.ekfThresh;
    }
  }

  /* ---- no position mode under an EKF failsafe ---- */

  /** Armed, EKF failsafe raised, action enabled: the mode does not need a position. */
  ghost predicate Safe(cfg: Config, s: State) {
    IsArmed(cfg, s) && s.ekf && cfg.ekfAction != FS_EKF_DISABLE ==> !RequiresPosition(s.mode)
  }

  /** The guard of Mode::enter is off although the rover is armed under an EKF failsafe. */
  ghost predicate Unguarded(cfg: Config, s: State) {
    IsArmed(cfg, s) && s.ekf && cfg.ekfAction != FS_EKF_DISABLE && !s.softArmed
  }

  /** The fallback finds a return mode whose own entry hook agrees. */
  ghost predicate ReturnAvailable(action: FailsafeAction, sens: Sensors) {
    || (action == GoRTL && EnterHook(RTL, sens))
    || (action == GoSmartRTL && (EnterHook(SmartRTL, sens) || EnterHook(RTL, sens)))
    || (action == GoSmartRTLOrHold && EnterHook(SmartRTL, sens))
  }

  /** The steps that can put an armed rover under EKF failsafe into a position mode: a mode change
      while soft-disarmed (safety switch), or arming in such a mode without gps_checks. */
  ghost predicate Bypass(cfg: Config, s: State, e: Event) {
    match e
    case SetModeEvent(m, _, sens) => Unguarded(cfg, s) && RequiresPosition(m) && EnterHook(m, sens)
    case TriggerEvent(c, sens) =>
      Unguarded(cfg, s) && Fires(cfg, s, c) && !ContinuesMission(cfg, s, c) && ReturnAvailable(cfg.fsAction, sens)
    case BatteryEvent(action, sens, _) => Unguarded(cfg, s) && ReturnAvailable(action, sens)
    case ArmEvent(_, _, otherOk) =>
      && !s.armed && cfg.armingRequired && !cfg.armingChecks
      && s.ekf && cfg.ekfAction != FS_EKF_DISABLE && RequiresPosition(s.mode)
    case _ => false
  }

  /** Under an EKF failsafe a position mode lets itself be entered exactly when the guards are off. */
  lemma ReturnModeReachable(cfg: Config, s: State, m: Mode, sens: Sensors)
    requires !RequiresPosition(s.mode) && RequiresPosition(m) && s.ekf
    ensures Reachable(cfg, s, m, sens) <==> !s.softArmed && EnterHook(m, sens)
  {
  }

  /** A fallback leads into a position mode from outside exactly when a return mode is available
      and the entry guards are off. */
  lemma TryRequiresPosition(cfg: Config, s: State, action: FailsafeAction, reason: Reason, sens: Sensors)
    requires !RequiresPosition(s.mode) && s.ekf
    ensures RequiresPosition(TryInOrder(cfg, s, Candidates(action), reason, sens).mode) <==> !s.softArmed && ReturnAvailable(action, sens)
  {
    ReturnModeReachable(cfg, s, RTL, sens);
    ReturnModeReachable(cfg, s, SmartRTL, sens);
    ModeAfter(cfg, s, action, reason, sens);
  }

  lemma ModeAfter(cfg: Config, s: State, action: FailsafeAction, reason: Reason, sens: Sensors)
    ensures TryInOrder(cfg, s, Candidates(action), reason, sens).mode ==
            match action
            case NoAction | Terminate | Unlisted => s.mode
            case GoHold => Hold
            case GoRTL => if Reachable(cfg, s, RTL, sens) then RTL else Hold
            case GoSmartRTL =>
              if Reachable(cfg, s, SmartRTL, sens) then SmartRTL else if Reachable(cfg, s, RTL, sens) then RTL else Hold
            case GoSmartRTLOrHold => if Reachable(cfg, s, SmartRTL, sens) then SmartRTL else Hold
  {
    ChainUnfolds(cfg, s, reason, sens);
    ModeAfterSet(cfg, s, RTL, reason, sens);
    ModeAfterSet(cfg, s, SmartRTL, reason, sens);
    ModeAfterSet(cfg, s, Hold, reason, sens);
  }

  lemma ModeAfterSet(cfg: Config, s: State, m: Mode, reason: Reason, sens: Sensors)
    ensures SetMode(cfg, s, m, reason, sens).mode == if Reachable(cfg, s, m, sens) then m else s.mode
    ensures Reachable(cfg, s, Hold, sens)
  {
  }

  lemma FallbackBreaksExactlyWhen(cfg: Config, s: State, action: FailsafeAction, reason: Reason, sens: Sensors)
    requires Safe(cfg, s)
    ensures Safe(cfg, TryInOrder(cfg, s, Candidates(action), reason, sens)) <==> !(Unguarded(cfg, s) && ReturnAvailable(action, sens))
  {
    TryKeeps(cfg, s, Candidates(action), reason, sens);
    if IsArmed(cfg, s) && s.ekf && cfg.ekfAction != FS_EKF_DISABLE {
      TryRequiresPosition(cfg, s, action, reason, sens);
    }
  }

  lemma StepBreaksSafetyExactlyWhen(cfg: Config, s: State, e: Event)
    requires Inv(s) && Safe(cfg, s)
    ensures Safe(cfg, Step(cfg, s, e)) <==> !Bypass(cfg, s, e)
  {
    match e
    case TriggerEvent(c, sens) =>
      if Fires(cfg, s, c) && !ContinuesMission(cfg, s, c) {
        var m := MaskedState(s, c);
        FallbackBreaksExactlyWhen(cfg, m.(triggered := m.bits), cfg.fsAction, Failsafe, sens);
      }
    case BatteryEvent(action, sens, _) =>
      if action != Terminate {
        FallbackBreaksExactlyWhen(cfg, s, action, Failsafe, sens);
      }
    case _ =>
  }

  ghost predicate BypassFree(cfg: Config, run: seq<Event>) {
    forall k :: 0 <= k < |run| ==> !Bypass(cfg, After(cfg, run[..k]), run[k])
  }

  ghost predicate AlwaysSafe(cfg: Config, run: seq<Event>) {
    forall k :: 0 <= k <= |run| ==> Safe(cfg, After(cfg, run[..k]))
  }

  /** A run is safe throughout if and only if it contains no bypassing step. */
  lemma {:induction false} RunSafeExactlyWhenBypassFree(cfg: Config, run: seq<Event>)
    ensures AlwaysSafe(cfg, run) <==> BypassFree(cfg, run)
  {
    if run != [] {
      var n := |run| - 1;
      var p := run[..n];
      RunSafeExactlyWhenBypassFree(cfg, p);
      assert run[..n + 1] == run && p[..n] == p;
      AllPrefixesSplit(cfg, run, n);
      EveryRunKeepsInv(cfg, p);
      if AlwaysSafe(cfg, p) {
        assert Safe(cfg, After(cfg, p[..n]));
        StepBreaksSafetyExactlyWhen(cfg, After(cfg, p), run[n]);
      }
    }
  }

  lemma AllPrefixesSplit(cfg: Config, run: seq<Event>, n: nat)
    requires |run| == n + 1
    ensures AlwaysSafe(cfg, run) <==> AlwaysSafe(cfg, run[..n]) && Safe(cfg, After(cfg, run))
    ensures BypassFree(cfg, run) <==> BypassFree(cfg, run[..n]) && !Bypass(cfg, After(cfg, run[..n]), run[n])
  {
    var p := run[..n];
    forall k | 0 <= k <= n ensures p[..k] == run[..k] {}
    forall k | 0 <= k < n ensures p[k] == run[k] {}
    assert run[..n + 1] == run;
    if AlwaysSafe(cfg, run) {
      forall k | 0 <= k <= n ensures Safe(cfg, After(cfg, p[..k])) {
        assert Safe(cfg, After(cfg, run[..k]));
      }
      assert Safe(cfg, After(cfg, run[..n + 1]));
    }
    if AlwaysSafe(cfg, p) && Safe(cfg, After(cfg, run)) {
      forall k | 0 <= k <= n + 1 ensures Safe(cfg, After(cfg, run[..k])) {
        if k <= n {
          assert Safe(cfg, After(cfg, p[..k]));
        }
      }
    }
    if BypassFree(cfg, run) {
      forall k | 0 <= k < n ensures !Bypass(cfg, After(cfg, p[..k]), p[k]) {
        assert !Bypass(cfg, After(cfg, run[..k]), run[k]);
      }
    }
  }

  predicate PressesSafety(e: Event) {
    match e
    case SafetySwitchEvent(disarmed) => disarmed
    case BatteryEvent(_, _, force) => force
    case DisarmEvent(force) => force
    case _ => false
  }

  /** The safety switch is never put to disarmed. */
  ghost predicate SafetyNeverPressed(run: seq<Event>) {
    forall k :: 0 <= k < |run| ==> !PressesSafety(run[k])
  }

  /** From power-on armed and soft-armed agree where arming is required; elsewhere they agree once the
      soft-armed state has been refreshed. */
  ghost predicate StartsInAgreement(cfg: Config, run: seq<Event>) {
    cfg.armingRequired || (run != [] && run[0].AhrsUpdateEvent?)
  }

  lemma {:induction false} SoftArmedIsArmed(cfg: Config, run: seq<Event>)
    requires SafetyNeverPressed(run) && StartsInAgreement(cfg, run)
    ensures var s := After(cfg, run); s.softArmed == IsArmed(cfg, s) && !s.safetyDisarmed
  {
    if |run| == 1 && run[0].AhrsUpdateEvent? {
      assert run[..0] == [];
    } else if run != [] {
      var p := run[..|run| - 1];
      SoftArmedIsArmed(cfg, p);
      var s, e := After(cfg, p), run[|run| - 1];
      match e
      case TriggerEvent(c, sens) => TriggerKeeps(cfg, s, c, sens);
      case BatteryEvent(action, sens, _) => TryKeeps(cfg, s, Candidates(action), Failsafe, sens);
      case _ =>
    }
  }

  /** With gps_checks run at arming and the safety switch never pressed, no run ever has the rover
      armed under an EKF failsafe in a mode that requires a position. The same holds where arming is
      not required, once ahrs_update has run. */
  lemma EkfFailsafeKeepsOutOfPositionModes(cfg: Config, run: seq<Event>)
    requires SafetyNeverPressed(run) && StartsInAgreement(cfg, run)
    requires cfg.armingRequired ==> ArmingRunsGpsChecks(cfg)
    ensures AlwaysSafe(cfg, run)
  {
    forall k | 0 <= k < |run| ensures !Bypass(cfg, After(cfg, run[..k]), run[k]) {
      if k > 0 || cfg.armingRequired {
        SoftArmedIsArmed(cfg, run[..k]);
      }
    }
    RunSafeExactlyWhenBypassFree(cfg, run);
  }

  /* ---- entering a position mode ---- */

  /** The readings a step acts on, if it can change the mode. */
  function SensorsOf(e: Event): Sensors
    requires e.SetModeEvent? || e.TriggerEvent? || e.BatteryEvent? || e.EkfCheckEvent?
  {
    e.sens
  }

  lemma {:induction false} TryEntersChecked(cfg: Config, s: State, targets: seq<Mode>, reason: Reason, sens: Sensors)
    ensures var r := TryInOrder(cfg, s, targets, reason, sens); r.mode != s.mode ==> CanEnter(cfg, s, r.mode, sens)
  {
    if targets != [] && !Reachable(cfg, s, targets[0], sens) {
      TryEntersChecked(cfg, s, targets[1..], reason, sens);
    }
  }

  /** Whatever the step, a soft-armed and armed rover changes into a mode requiring a position only
      with an absolute, non-constant position estimate from the EKF and no EKF failsafe. */
  lemma PositionModeEntryHasPosition(cfg: Config, s: State, e: Event)
    requires s.softArmed && IsArmed(cfg, s)
    requires var r := Step(cfg, s, e); r.mode != s.mode && RequiresPosition(r.mode)
    ensures e.SetModeEvent? || e.TriggerEvent? || e.BatteryEvent?
    ensures var sens := SensorsOf(e); sens.haveInertialNav && sens.horizPosAbs && !sens.constPosMode && !s.ekf
  {
    match e
    case TriggerEvent(c, sens) =>
      var m := MaskedState(s, c);
      TryEntersChecked(cfg, m.(triggered := m.bits), Candidates(cfg.fsAction), Failsafe, sens);
    case BatteryEvent(action, sens, _) => TryEntersChecked(cfg, s, Candidates(action), Failsafe, sens);
    case _ =>
  }
}
