/** What each step of the rover does, in terms of readings, parameters and mode names alone. */
module RoverRules {
  import opened EkfCounter
  import opened RoverModel
  import opened RoverRuns

  /** The modes that drive without a position estimate. */
  predicate DrivesBlind(m: Mode) {
    m == Manual || m == Acro || m == Steering || m == Hold
  }

  /** The EKF knows where the rover is: disarmed a predicted position will do, armed it must be absolute
      and not held constant. */
  predicate PositionKnown(armed: bool, sens: Sensors) {
    && sens.haveInertialNav
    && (armed ==> sens.horizPosAbs && !sens.constPosMode)
    && (!armed ==> sens.horizPosAbs || sens.predHorizPosAbs)
  }

  lemma PositionOkIs(cfg: Config, s: State, sens: Sensors)
    ensures EkfPositionOk(cfg, s, sens) <==> PositionKnown(s.armed || !cfg.armingRequired, sens)
  {
  }

  /** What the mode itself asks for on entry, apart from estimates. */
  predicate ModeReady(m: Mode, sens: Sensors) {
    && (m == RTL ==> sens.homeSet)
    && (m == SmartRTL ==> sens.haveOrigin && sens.smartRtlActive)
    && (m == Auto ==> sens.missionCommands >= 2)
    && (m == Follow ==> sens.followEnabled)
  }

  /** What a soft-armed rover must know to change into the mode. */
  predicate EstimateGoodFor(cfg: Config, s: State, m: Mode, sens: Sensors) {
    var known := PositionKnown(s.armed || !cfg.armingRequired, sens) && !s.ekf;
    && (!DrivesBlind(m) ==> known)
    && (m == Steering || (m == Acro && !cfg.skidSteering) ==> known || sens.horizVel)
  }

  /** A mode change succeeds into the current mode, or when the mode is ready and, soft-armed, the
      estimates are good enough for it. */
  lemma EntryAllowedExactlyWhen(cfg: Config, s: State, m: Mode, sens: Sensors)
    ensures Reachable(cfg, s, m, sens) <==>
            s.mode == m || (ModeReady(m, sens) && (s.softArmed ==> EstimateGoodFor(cfg, s, m, sens)))
    ensures RequiresPosition(m) <==> !DrivesBlind(m)
  {
  }

  /** A successful change sets mode and reason, a refused or idle one nothing. */
  lemma ModeChangeIs(cfg: Config, s: State, m: Mode, reason: Reason, sens: Sensors)
    ensures var r := Step(cfg, s, SetModeEvent(m, reason, sens));
            if s.mode == m || !Reachable(cfg, s, m, sens) then r == s else r == s.(mode := m, reason := reason)
  {
  }

  /** Arming succeeds when not armed and the enabled checks pass; among them, a mode that needs an
      estimate arms only with a known position and no EKF failsafe. */
  lemma ArmsExactlyWhen(cfg: Config, s: State, sens: Sensors, gpsLibraryOk: bool, otherChecksOk: bool)
    ensures var r := Step(cfg, s, ArmEvent(sens, gpsLibraryOk, otherChecksOk));
            var needsEstimate := !(s.mode == Manual || s.mode == Hold || (s.mode == Acro && cfg.skidSteering));
            var estimateOk := !s.ekf && PositionKnown(false, sens) && gpsLibraryOk;
            var checksOk := otherChecksOk && (cfg.armingRequired && needsEstimate ==> estimateOk);
            var arms := !s.armed && (cfg.armingChecks ==> checksOk);
            if arms then r == s.(armed := true, softArmed := !s.safetyDisarmed) else r == s
  {
  }

  /** Disarming, the safety switch and the refresh of the soft-armed state. */
  lemma DisarmingAndSafety(cfg: Config, s: State, force: bool, pressed: bool)
    ensures Step(cfg, s, DisarmEvent(force)) ==
            if !s.armed then s
            else
              var safety := s.safetyDisarmed || force;
              s.(armed := false, safetyDisarmed := safety, softArmed := !cfg.armingRequired && !safety)
    ensures Step(cfg, s, SafetySwitchEvent(pressed)) == s.(safetyDisarmed := pressed)
    ensures Step(cfg, s, AhrsUpdateEvent) == s.(softArmed := (s.armed || !cfg.armingRequired) && !s.safetyDisarmed)
  {
  }

  /** An EKF check changes the mode exactly when it raises the failsafe in a mode that needs a position
      and the action is enabled - to Hold, and nothing but the EKF state otherwise. */
  lemma EkfCheckForcesHoldExactlyWhen(cfg: Config, s: State, sens: Sensors)
    requires Inv(s)
    ensures var r := EkfCheck(cfg, s, sens);
            Step(cfg, s, EkfCheckEvent(sens)) == r
    ensures var r := EkfCheck(cfg, s, sens);
            var forced := r.ekf && !s.ekf && !DrivesBlind(s.mode) && cfg.ekfAction != 0;
            r == s.(counter := r.counter, ekf := r.ekf,
                    mode := if forced then Hold else s.mode, reason := if forced then EkfFailsafe else s.reason)
  {
    if s.ekf == s.counter.bad {
      CountedCheckForces(cfg, s, EkfOverThreshold(cfg, s, sens), sens);
    }
  }

  lemma CountedCheckForces(cfg: Config, s: State, over: bool, sens: Sensors)
    requires Inv(s)
    ensures var r := CountCheck(cfg, s, over, sens);
            var forced := r.ekf && !s.ekf && !DrivesBlind(s.mode) && cfg.ekfAction != 0;
            r == s.(counter := r.counter, ekf := r.ekf,
                    mode := if forced then Hold else s.mode, reason := if forced then EkfFailsafe else s.reason)
  {
  }

  /* ---- failsafe_trigger ---- */

  /** The last call that named failsafe `b` turned it on. */
  ghost predicate LastTurnedOn(run: seq<Event>, b: nat) {
    exists k :: 0 <= k < |run| && Names(run, k, b) && run[k].call.on && forall l :: k < l < |run| ==> !Names(run, l, b)
  }

  predicate Names(run: seq<Event>, k: int, b: nat)
    requires 0 <= k < |run|
  {
    run[k].TriggerEvent? && b in run[k].call.kind
  }

  /** A failsafe is pending after a run exactly when the last call that named it turned it on. */
  lemma {:induction false} PendingExactlyWhen(cfg: Config, run: seq<Event>, b: nat)
    ensures b in After(cfg, run).bits <==> LastTurnedOn(run, b)
  {
    if run != [] {
      var n := |run| - 1;
      var p := run[..n];
      PendingExactlyWhen(cfg, p, b);
      BitAfterStep(cfg, After(cfg, p), run[n], b);
      if Names(run, n, b) {
        if run[n].call.on {
          assert LastTurnedOn(run, b);
        }
      } else {
        LastTurnedOnStays(run, n, b);
      }
    }
  }

  lemma LastTurnedOnStays(run: seq<Event>, n: nat, b: nat)
    requires |run| == n + 1 && !Names(run, n, b)
    ensures LastTurnedOn(run, b) <==> LastTurnedOn(run[..n], b)
  {
    var p := run[..n];
    forall k | 0 <= k < n ensures Names(p, k, b) == Names(run, k, b) {}
    if LastTurnedOn(p, b) {
      var k :| 0 <= k < n && Names(p, k, b) && p[k].call.on && forall l :: k < l < n ==> !Names(p, l, b);
      forall l | k < l < |run| ensures !Names(run, l, b) {
        if l < n {
          assert !Names(p, l, b);
        }
      }
      assert Names(run, k, b);
    }
    if LastTurnedOn(run, b) {
      var k :| 0 <= k < |run| && Names(run, k, b) && run[k].call.on && forall l :: k < l < |run| ==> !Names(run, l, b);
      assert k < n && Names(p, k, b);
      forall l | k < l < n ensures !Names(p, l, b) {
        assert !Names(run, l, b);
      }
    }
  }

  lemma BitAfterStep(cfg: Config, s: State, e: Event, b: nat)
    ensures b in Step(cfg, s, e).bits <==> if e.TriggerEvent? && b in e.call.kind then e.call.on else b in s.bits
  {
    match e
    case TriggerEvent(c, sens) => TriggerKeeps(cfg, s, c, sens);
    case BatteryEvent(action, sens, _) => TryKeeps(cfg, s, Candidates(action), Failsafe, sens);
    case _ =>
  }

  /** The mode a fallback ends in. */
  function FallbackMode(cfg: Config, s: State, action: FailsafeAction, sens: Sensors): Mode {
    match action
    case GoHold => Hold
    case GoRTL => if Reachable(cfg, s, RTL, sens) then RTL else Hold
    case GoSmartRTL => if Reachable(cfg, s, SmartRTL, sens) then SmartRTL else if Reachable(cfg, s, RTL, sens) then RTL else Hold
    case GoSmartRTLOrHold => if Reachable(cfg, s, SmartRTL, sens) then SmartRTL else Hold
    case NoAction | Terminate | Unlisted => s.mode
  }

  lemma FallbackChangesModeOnly(cfg: Config, s: State, action: FailsafeAction, sens: Sensors)
    ensures TryInOrder(cfg, s, Candidates(action), Failsafe, sens) == Into(s, FallbackMode(cfg, s, action, sens), Failsafe)
  {
    ChainUnfolds(cfg, s, Failsafe, sens);
  }

  function Into(s: State, m: Mode, reason: Reason): State {
    if s.mode == m then s else s.(mode := m, reason := reason)
  }

  /** In Auto, a throttle failsafe set to continue, or a GCS failsafe set to continue, leaves the mission
      alone. */
  predicate MissionGoesOn(cfg: Config, s: State, c: Call) {
    s.mode == Auto && ((c.kind == {0} && cfg.fsThrottleEnabled == 2) || (c.kind == {1} && cfg.fsGcsEnabled == 2))
  }

  /** A call changes the mode only when it fires and the mission does not go on, and then into the
      fallback of the configured action. */
  lemma TriggerChangesModeExactlyWhen(cfg: Config, s: State, c: Call, sens: Sensors)
    ensures var r := Step(cfg, s, TriggerEvent(c, sens));
            var target := if Fires(cfg, s, c) && !MissionGoesOn(cfg, s, c) then FallbackMode(cfg, s, cfg.fsAction, sens) else s.mode;
            && r.mode == target
            && r.reason == (if target == s.mode then s.reason else Failsafe)
            && r == s.(bits := r.bits, triggered := r.triggered, startTime := r.startTime, mode := r.mode, reason := r.reason)
  {
    var m := MaskedState(s, c);
    FallbackChangesModeOnly(cfg, m.(triggered := m.bits), cfg.fsAction, sens);
    MasksDoNotMatter(cfg, s, m.(triggered := m.bits), cfg.fsAction, sens);
  }

  /** Entry does not look at the failsafe masks or their start time. */
  lemma MasksDoNotMatter(cfg: Config, s: State, t: State, action: FailsafeAction, sens: Sensors)
    requires t == s.(bits := t.bits, triggered := t.triggered, startTime := t.startTime)
    ensures FallbackMode(cfg, t, action, sens) == FallbackMode(cfg, s, action, sens)
  {
  }

  /** The battery failsafe terminates by disarming and otherwise falls back the same way. */
  lemma BatteryFallsBack(cfg: Config, s: State, action: FailsafeAction, sens: Sensors, force: bool)
    ensures var r := Step(cfg, s, BatteryEvent(action, sens, force));
            r == if action == Terminate then Step(cfg, s, DisarmEvent(force))
                 else Into(s, FallbackMode(cfg, s, action, sens), Failsafe)
  {
    FallbackChangesModeOnly(cfg, s, action, sens);
  }
}
