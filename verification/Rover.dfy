/** The Rover object: its methods update the fields step by step, as the vehicle code does, and are
    proved against the functions of RoverModel. */
module RoverObject {
  import opened EkfCounter
  import opened RoverModel

  class Rover {
    const cfg: Config
    var controlMode: Mode
    var controlModeReason: Reason
    var armed: bool
    var safetyDisarmed: bool
    var softArmed: bool
    var failCount: nat
    var badVariance: bool
    var failsafeEkf: bool
    var failsafeBits: Mask
    var failsafeTriggered: Mask
    var failsafeStartTime: nat

    ghost function Snapshot(): State
      reads this
    {
      State(controlMode, controlModeReason, armed, safetyDisarmed, softArmed,
            Counter(failCount, badVariance), failsafeEkf, failsafeBits, failsafeTriggered, failsafeStartTime)
    }

    constructor (cfg: Config)
      ensures this.cfg == cfg
      ensures Snapshot() == INITIAL
      ensures controlMode == Initialising && !armed && !softArmed && !safetyDisarmed
      ensures failCount == 0 && !badVariance && !failsafeEkf && failsafeBits == failsafeTriggered == {}
    {
      this.cfg := cfg;
      controlMode, controlModeReason := Initialising, Initialised;
      armed, safetyDisarmed, softArmed := false, false, false;
      failCount, badVariance, failsafeEkf := 0, false, false;
      failsafeBits, failsafeTriggered, failsafeStartTime := {}, {}, 0;
    }

    method PositionOk(sens: Sensors) returns (ok: bool)
      ensures ok == EkfPositionOk(cfg, Snapshot(), sens)
    {
      if !sens.haveInertialNav {
        return false;
      }
      if !(!cfg.armingRequired || armed) {
        return sens.horizPosAbs || sens.predHorizPosAbs;
      } else {
        return sens.horizPosAbs && !sens.constPosMode;
      }
    }

    method OverThreshold(sens: Sensors) returns (over: bool)
      ensures over == EkfOverThreshold(cfg, Snapshot(), sens)
    {
      if cfg.ekfThresh <= 0.0 {
        return false;
      }
      var overThreshCount := 0;
      if sens.magVariance >= cfg.ekfThresh {
        overThreshCount := overThreshCount + 1;
      }
      if sens.velVariance >= cfg.ekfThresh {
        overThreshCount := overThreshCount + 1;
      }
      if sens.posVariance >= cfg.ekfThresh {
        overThreshCount := overThreshCount + 1;
      }
      if overThreshCount >= 2 {
        return true;
      }
      var positionOk := PositionOk(sens);
      return !positionOk;
    }

    method Enter(newMode: Mode, sens: Sensors) returns (ok: bool)
      ensures ok == CanEnter(cfg, Snapshot(), newMode, sens)
    {
      var ignoreChecks := !softArmed;
      if !ignoreChecks {
        var ekfOk := PositionOk(sens);
        var positionOk := ekfOk && !failsafeEkf;
        if RequiresPosition(newMode) && !positionOk {
          return false;
        }
        if RequiresVelocity(cfg, newMode) && !positionOk && !sens.horizVel {
          return false;
        }
      }
      return EnterHook(newMode, sens);
    }

    method SetControlMode(newMode: Mode, reason: Reason, sens: Sensors) returns (ok: bool)
      modifies this`controlMode, this`controlModeReason
      ensures Snapshot() == SetMode(cfg, old(Snapshot()), newMode, reason, sens)
      ensures ok == Reachable(cfg, old(Snapshot()), newMode, sens)
      ensures ok <==> controlMode == newMode
    {
      if controlMode == newMode {
        return true;
      }
      var entered := Enter(newMode, sens);
      if !entered {
        return false;
      }
      controlMode := newMode;
      controlModeReason := reason;
      return true;
    }

    method RefreshSoftArmed()
      modifies this`softArmed
      ensures Snapshot() == UpdateSoftArmed(cfg, old(Snapshot()))
    {
      softArmed := (!cfg.armingRequired || armed) && !safetyDisarmed;
    }

    method ArmMotors(sens: Sensors, gpsLibraryOk: bool, otherChecksOk: bool) returns (ok: bool)
      modifies this`armed, this`softArmed
      ensures Snapshot() == Arm(cfg, old(Snapshot()), sens, gpsLibraryOk, otherChecksOk)
      ensures ok <==> !old(armed) && armed
    {
      if armed {
        return false;
      }
      if cfg.armingChecks {
        var passed := otherChecksOk;
        if cfg.armingRequired {
          var gpsOk := CheckGps(sens, gpsLibraryOk);
          passed := passed && gpsOk;
        }
        if !passed {
          return false;
        }
      }
      armed := true;
      RefreshSoftArmed();
      return true;
    }

    method CheckGps(sens: Sensors, gpsLibraryOk: bool) returns (ok: bool)
      ensures ok == GpsChecks(cfg, Snapshot(), sens, gpsLibraryOk)
    {
      if !RequiresPosition(controlMode) && !RequiresVelocity(cfg, controlMode) {
        return true;
      }
      if failsafeEkf {
        return false;
      }
      var positionOk := PositionOk(sens);
      if !positionOk {
        return false;
      }
      return gpsLibraryOk;
    }

    method DisarmMotors(forceSafety: bool) returns (ok: bool)
      modifies this`armed, this`softArmed, this`safetyDisarmed
      ensures Snapshot() == Disarm(cfg, old(Snapshot()), forceSafety)
      ensures ok == old(armed) && !armed
    {
      if !armed {
        return false;
      }
      armed := false;
      if forceSafety {
        safetyDisarmed := true;
      }
      RefreshSoftArmed();
      return true;
    }

    method FailsafeEkfEvent(sens: Sensors)
      modifies this`failsafeEkf, this`controlMode, this`controlModeReason
      ensures Snapshot() == EkfEvent(cfg, old(Snapshot()), sens)
    {
      if failsafeEkf {
        return;
      }
      failsafeEkf := true;
      if !RequiresPosition(controlMode) {
        return;
      }
      if cfg.ekfAction != FS_EKF_DISABLE {
        var _ := SetControlMode(Hold, EkfFailsafe, sens);
      }
    }

    method FailsafeEkfOffEvent()
      modifies this`failsafeEkf
      ensures Snapshot() == old(Snapshot()).(ekf := false)
    {
      if !failsafeEkf {
        return;
      }
      failsafeEkf := false;
    }

    method CheckEkf(sens: Sensors)
      modifies this`failCount, this`badVariance, this`failsafeEkf, this`controlMode, this`controlModeReason
      ensures Snapshot() == EkfCheck(cfg, old(Snapshot()), sens)
    {
      if !sens.haveOrigin {
        return;
      }
      if !(!cfg.armingRequired || armed) || cfg.ekfThresh <= 0.0 {
        failCount := 0;
        badVariance := false;
        FailsafeEkfOffEvent();
        return;
      }
      var over := OverThreshold(sens);
      if over {
        CountOver(sens);
      } else {
        CountGood(sens);
      }
    }

    /** ekf_check on variances over the threshold. */
    method CountOver(sens: Sensors)
      modifies this`failCount, this`badVariance, this`failsafeEkf, this`controlMode, this`controlModeReason
      ensures Snapshot() == CountCheck(cfg, old(Snapshot()), true, sens)
    {
      if !badVariance {
        failCount := (failCount + 1) % 256;
        if failCount >= ITERATIONS_MAX {
          failCount := ITERATIONS_MAX;
          badVariance := true;
          FailsafeEkfEvent(sens);
        }
      }
    }

    /** ekf_check on good variances. */
    method CountGood(ghost sens: Sensors)
      modifies this`failCount, this`badVariance, this`failsafeEkf
      ensures Snapshot() == CountCheck(cfg, old(Snapshot()), false, sens)
    {
      if failCount > 0 {
        failCount := failCount - 1;
        if badVariance && failCount == 0 {
          badVariance := false;
          FailsafeEkfOffEvent();
        }
      }
    }

    method TriggerFailsafe(c: Call, sens: Sensors)
      modifies this`failsafeBits, this`failsafeStartTime, this`failsafeTriggered, this`controlMode, this`controlModeReason
      ensures Snapshot() == FailsafeTrigger(cfg, old(Snapshot()), c, sens)
    {
      var oldBits := failsafeBits;
      if c.on {
        failsafeBits := failsafeBits + c.kind;
      } else {
        failsafeBits := failsafeBits - c.kind;
      }
      if oldBits == {} && failsafeBits != {} {
        failsafeStartTime := Millis(c.firstRead);
      }
      failsafeTriggered := failsafeTriggered * failsafeBits;
      if failsafeTriggered == {}
         && failsafeBits != {}
         && Elapsed(Millis(c.secondRead), failsafeStartTime) as real > cfg.fsTimeout * 1000.0
         && controlMode != RTL
         && controlMode != Hold
      {
        failsafeTriggered := failsafeBits;
        if controlMode == Auto
           && ((c.kind == FAILSAFE_EVENT_THROTTLE && cfg.fsThrottleEnabled == CONTINUE_MISSION)
               || (c.kind == FAILSAFE_EVENT_GCS && cfg.fsGcsEnabled == CONTINUE_MISSION))
        {
          // the mission goes on; the failsafe only counts as acted on
        } else {
          NestedFallback(cfg.fsAction, sens);
        }
      }
    }

    /** The switch at the end of failsafe_trigger: nested ifs. */
    method NestedFallback(action: FailsafeAction, sens: Sensors)
      modifies this`controlMode, this`controlModeReason
      ensures Snapshot() == TryInOrder(cfg, old(Snapshot()), Candidates(action), Failsafe, sens)
    {
      ChainUnfolds(cfg, Snapshot(), Failsafe, sens);
      match action {
        case NoAction | Terminate | Unlisted =>
        case GoRTL =>
          var ok := SetControlMode(RTL, Failsafe, sens);
          if !ok {
            ok := SetControlMode(Hold, Failsafe, sens);
          }
        case GoHold =>
          var _ := SetControlMode(Hold, Failsafe, sens);
        case GoSmartRTL =>
          var ok := SetControlMode(SmartRTL, Failsafe, sens);
          if !ok {
            ok := SetControlMode(RTL, Failsafe, sens);
            if !ok {
              ok := SetControlMode(Hold, Failsafe, sens);
            }
          }
        case GoSmartRTLOrHold =>
          var ok := SetControlMode(SmartRTL, Failsafe, sens);
          if !ok {
            ok := SetControlMode(Hold, Failsafe, sens);
          }
      }
    }

    /** The battery failsafe: one switch whose cases fall through. */
    method HandleBatteryFailsafe(action: FailsafeAction, sens: Sensors, forceSafety: bool)
      modifies this`controlMode, this`controlModeReason, this`armed, this`softArmed, this`safetyDisarmed
      ensures Snapshot() == BatteryFailsafe(cfg, old(Snapshot()), action, sens, forceSafety)
    {
      ChainUnfolds(cfg, Snapshot(), Failsafe, sens);
      if action == GoSmartRTL {
        var ok := SetControlMode(SmartRTL, Failsafe, sens);
        if ok {
          return;
        }
      }
      if action == GoSmartRTL || action == GoRTL {
        var ok := SetControlMode(RTL, Failsafe, sens);
        if ok {
          return;
        }
      }
      if action == GoSmartRTL || action == GoRTL || action == GoHold {
        var _ := SetControlMode(Hold, Failsafe, sens);
        return;
      }
      if action == GoSmartRTLOrHold {
        var ok := SetControlMode(SmartRTL, Failsafe, sens);
        if !ok {
          ok := SetControlMode(Hold, Failsafe, sens);
        }
      } else if action == Terminate {
        var _ := DisarmMotors(forceSafety);
      }
    }

    /** One event of a run, handled by the method the vehicle code calls for it. */
    method Perform(e: Event)
      modifies this
      ensures Snapshot() == Step(cfg, old(Snapshot()), e)
    {
      match e {
        case EkfCheckEvent(sens) => CheckEkf(sens);
        case SetModeEvent(target, reason, sens) => var _ := SetControlMode(target, reason, sens);
        case TriggerEvent(call, sens) => TriggerFailsafe(call, sens);
        case BatteryEvent(action, sens, forceSafety) => HandleBatteryFailsafe(action, sens, forceSafety);
        case ArmEvent(sens, gpsLibraryOk, otherChecksOk) => var _ := ArmMotors(sens, gpsLibraryOk, otherChecksOk);
        case DisarmEvent(forceSafety) => var _ := DisarmMotors(forceSafety);
        case SafetySwitchEvent(disarmed) =>
          safetyDisarmed := disarmed;
        case AhrsUpdateEvent => RefreshSoftArmed();
      }
    }
  }

  /** A rover taken through a whole run ends in the state the run lemmas speak of. */
  method PerformRun(cfg: Config, run: seq<Event>) returns (rover: Rover)
    ensures rover.cfg == cfg && rover.Snapshot() == After(cfg, run)
  {
    rover := new Rover(cfg);
    for n := 0 to |run|
      invariant fresh(rover) && rover.cfg == cfg && rover.Snapshot() == After(cfg, run[..n])
    {
      assert run[..n + 1][..n] == run[..n];
      rover.Perform(run[n]);
    }
    assert run[..|run|] == run;
  }

  /** The nested ifs and the fall-through switch leave two rovers in the same state in the same
      state, unless the action is to terminate and they are armed: only the battery chain disarms. */
  method FallbackChainsAgree(nested: Rover, switched: Rover, action: FailsafeAction, sens: Sensors, forceSafety: bool)
    requires nested != switched && nested.cfg == switched.cfg && nested.Snapshot() == switched.Snapshot()
    modifies nested, switched
    ensures nested.Snapshot() == switched.Snapshot() <==> action != Terminate || !old(nested.armed)
    ensures nested.Snapshot() == TryInOrder(nested.cfg, old(nested.Snapshot()), Candidates(action), Failsafe, sens)
  {
    nested.NestedFallback(action, sens);
    switched.HandleBatteryFailsafe(action, sens, forceSafety);
  }
}
