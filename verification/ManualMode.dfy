/** Manual mode: pilot input, its slew preview, and what reaches the steering servo. */
module ManualMode {
  import opened Numeric
  import opened ThrustCurve
  import opened MotorsModel
  import opened MotorsObject

  const STEER_DEFAULT: int := 0
  const STEER_TWO_PADDLES: int := 1
  const STEER_REVERSED_WHEN_REVERSING: int := 2
  const STEER_UNCHANGED_WHEN_REVERSING: int := 3

  /** Stick positions; the paddles are normalised channel inputs, the others control_in values. */
  datatype Pilot = Pilot(steerType: int, stick: real, throttle: real, lateral: real, leftPaddle: real, rightPaddle: real)

  function PilotInput(radioFailed: bool, p: Pilot): (real, real) {
    if radioFailed then (0.0, 0.0)
    else if p.steerType == STEER_TWO_PADDLES then
      ((p.leftPaddle - p.rightPaddle) * 0.5 * 4500.0, 0.5 * (p.leftPaddle + p.rightPaddle) * 100.0)
    else if p.steerType == STEER_UNCHANGED_WHEN_REVERSING then (p.stick, p.throttle)
    else (if p.throttle < 0.0 then -p.stick else p.stick, p.throttle)
  }

  /** Pilot steering after the preview of the slew limiter, and the previewed throttle. */
  function PilotDesired(radioFailed: bool, p: Pilot, slewRate: int, prev: real, dt: real): (real, real) {
    var (steering, throttle) := PilotInput(radioFailed, p);
    var limited := SlewLimited(slewRate, prev, throttle, dt);
    var flip := (throttle < 0.0) != (limited < 0.0)
                && (p.steerType == STEER_DEFAULT || p.steerType == STEER_REVERSED_WHEN_REVERSING);
    (if flip then -steering else steering, limited)
  }

  /** Without radio everything is centred. Two paddles steer by their difference and drive by their
      mean; otherwise the stick steers, the other way round in reverse unless the type leaves it. */
  lemma PilotInputMeans(radioFailed: bool, p: Pilot)
    ensures var (steering, throttle) := PilotInput(radioFailed, p);
            && (radioFailed ==> steering == 0.0 && throttle == 0.0)
            && (!radioFailed && p.steerType == 1 ==>
                  steering == 2250.0 * p.leftPaddle - 2250.0 * p.rightPaddle && throttle == 50.0 * p.leftPaddle + 50.0 * p.rightPaddle)
            && (!radioFailed && p.steerType != 1 ==> throttle == p.throttle)
            && (!radioFailed && p.steerType == 3 ==> steering == p.stick)
            && (!radioFailed && p.steerType != 1 && p.steerType != 3 ==> steering == if p.throttle < 0.0 then -p.stick else p.stick)
  {
  }

  /** The preview replaces the throttle by the slew-limited one, and turns the steering around when that
      changes its sign - for the default and the reversing type only. */
  lemma PilotDesiredMeans(radioFailed: bool, p: Pilot, slewRate: int, prev: real, dt: real)
    ensures var (steering, throttle) := PilotInput(radioFailed, p);
            var (desired, limited) := PilotDesired(radioFailed, p, slewRate, prev, dt);
            && limited == SlewLimited(slewRate, prev, throttle, dt)
            && (p.steerType != 0 && p.steerType != 2 ==> desired == steering)
            && (p.steerType == 0 || p.steerType == 2 ==>
                  desired == if throttle < 0.0 <= limited || limited < 0.0 <= throttle then -steering else steering)
  {
  }

  method GetPilotInput(radioFailed: bool, p: Pilot) returns (steering: real, throttle: real)
    ensures (steering, throttle) == PilotInput(radioFailed, p)
  {
    if radioFailed {
      steering, throttle := 0.0, 0.0;
      return;
    }
    if p.steerType == STEER_TWO_PADDLES {
      throttle := 0.5 * (p.leftPaddle + p.rightPaddle) * 100.0;
      steering := (p.leftPaddle - p.rightPaddle) * 0.5 * 4500.0;
    } else if p.steerType == STEER_UNCHANGED_WHEN_REVERSING {
      throttle := p.throttle;
      steering := p.stick;
    } else {
      throttle := p.throttle;
      var steeringDir := if throttle < 0.0 then -1.0 else 1.0;
      steering := steeringDir * p.stick;
    }
  }

  method GetPilotDesiredSteeringAndThrottle(m: MotorsUGV, radioFailed: bool, p: Pilot, dt: real) returns (steering: real, throttle: real)
    ensures (steering, throttle) == PilotDesired(radioFailed, p, m.slewRate, m.throttlePrev, dt)
  {
    steering, throttle := GetPilotInput(radioFailed, p);
    var limited := SlewLimited(m.slewRate, m.throttlePrev, throttle, dt);
    if (throttle < 0.0) != (limited < 0.0)
       && (p.steerType == STEER_DEFAULT || p.steerType == STEER_REVERSED_WHEN_REVERSING)
    {
      steering := -steering;
    }
    throttle := limited;
  }

  /** ModeManual::update for a vehicle that is not a balance bot. */
  method Update(m: MotorsUGV, softArmed: bool, radioFailed: bool, p: Pilot, dt: real)
    modifies m`throttle, m`steering, m`scaleSteering, m`lateral
    ensures var (steering, throttle) := PilotDesired(radioFailed, p, m.slewRate, m.throttlePrev, dt);
            && m.steering == steering && !m.scaleSteering
            && m.throttle == (if softArmed then ClampThrottle(m.throttleMax, throttle) else old(m.throttle))
            && m.lateral == Constrain(if radioFailed then 0.0 else p.lateral, -100.0, 100.0)
  {
    var desiredSteering, desiredThrottle := GetPilotDesiredSteeringAndThrottle(m, radioFailed, p, dt);
    var desiredLateral := if radioFailed then 0.0 else p.lateral;
    m.SetThrottle(softArmed, desiredThrottle);
    m.SetSteering(desiredSteering, false);
    m.SetLateral(desiredLateral);
  }

  /** The throttle that reaches the motors in one iteration: previewed, clamped, slew limited. */
  function Applied(slewRate: int, throttleMax: int, prev: real, throttle: real, dt: real): real {
    SlewLimited(slewRate, prev, ClampThrottle(throttleMax, SlewLimited(slewRate, prev, throttle, dt)), dt)
  }

  /** What one armed iteration in Manual sends to the steering servo. */
  function ManualServo(p: Pilot, slewRate: int, throttleMax: int, prev: real, dt: real): real {
    var (steering, throttle) := PilotDesired(false, p, slewRate, prev, dt);
    var applied := SlewLimited(slewRate, prev, ClampThrottle(throttleMax, throttle), dt);
    ClampSteering(if applied < 0.0 then -steering else steering)
  }

  /** Previewed and applied throttle have the same sign, from any slew state. */
  lemma PreviewAgreesWithApplied(slewRate: int, throttleMax: int, prev: real, throttle: real, dt: real)
    requires throttleMax > 0
    ensures SlewLimited(slewRate, prev, throttle, dt) < 0.0 <==> Applied(slewRate, throttleMax, prev, throttle, dt) < 0.0
  {
  }

  /** The two sign flips cancel: the servo gets the clamped stick. */
  lemma ServoIsStick(p: Pilot, slewRate: int, throttleMax: int, prev: real, dt: real)
    requires p.steerType == STEER_DEFAULT || p.steerType == STEER_REVERSED_WHEN_REVERSING
    requires throttleMax > 0
    ensures ManualServo(p, slewRate, throttleMax, prev, dt) == ClampSteering(p.stick)
  {
    PreviewAgreesWithApplied(slewRate, throttleMax, prev, p.throttle, dt);
  }

  /** What every stick-driven type puts on the servo: the reversing types the stick itself, the unchanged
      type the stick turned around while the vehicle is driven backwards, an unlisted type the stick
      turned around while stick and motors disagree about the direction. */
  lemma ServoOfType(p: Pilot, slewRate: int, throttleMax: int, prev: real, dt: real)
    requires p.steerType != 1 && throttleMax > 0
    ensures var backwards := SlewLimited(slewRate, prev, p.throttle, dt) < 0.0;
            ManualServo(p, slewRate, throttleMax, prev, dt) ==
            Constrain(if p.steerType == 0 || p.steerType == 2 then p.stick
                      else if p.steerType == 3 then (if backwards then -p.stick else p.stick)
                      else if backwards == (p.throttle < 0.0) then p.stick else -p.stick, -4500.0, 4500.0)
  {
    PreviewAgreesWithApplied(slewRate, throttleMax, prev, p.throttle, dt);
  }

  /** From within the allowed range, clamping and limiting the previewed throttle again changes nothing. */
  lemma AppliedIsPreviewed(slewRate: int, throttleMax: int, prev: real, throttle: real, dt: real)
    requires Abs(prev) <= throttleMax as real && Abs(throttle) <= throttleMax as real
    ensures Applied(slewRate, throttleMax, prev, throttle, dt) == SlewLimited(slewRate, prev, throttle, dt)
  {
  }

  /** For this steer type and throttle maximum the servo always follows the stick. */
  ghost predicate FollowsStick(steerType: int, throttleMax: int) {
    forall p: Pilot, slewRate, prev, dt ::
      p.steerType == steerType ==> ManualServo(p, slewRate, throttleMax, prev, dt) == ClampSteering(p.stick)
  }

  /** Of the stick-driven steer types, exactly the two that reverse when reversing steer true, and only
      once the throttle maximum is positive (output() makes it so, set_throttle does not check). */
  lemma FollowsStickExactlyWhen(steerType: int, throttleMax: int)
    requires steerType != STEER_TWO_PADDLES
    ensures FollowsStick(steerType, throttleMax) <==>
            (steerType == STEER_DEFAULT || steerType == STEER_REVERSED_WHEN_REVERSING) && throttleMax > 0
  {
    if (steerType == STEER_DEFAULT || steerType == STEER_REVERSED_WHEN_REVERSING) && throttleMax > 0 {
      forall p: Pilot, slewRate, prev, dt | p.steerType == steerType
        ensures ManualServo(p, slewRate, throttleMax, prev, dt) == ClampSteering(p.stick)
      {
        ServoIsStick(p, slewRate, throttleMax, prev, dt);
      }
    } else if throttleMax <= 0 && steerType != STEER_UNCHANGED_WHEN_REVERSING {
      // full reverse without a slew limit: the clamp turns it into a non-negative throttle
      var p := Pilot(steerType, 1000.0, -50.0, 0.0, 0.0, 0.0);
      assert SlewLimited(0, 0.0, -50.0, 1.0) == -50.0;
      assert ManualServo(p, 0, throttleMax, 0.0, 1.0) != ClampSteering(p.stick);
    } else if steerType == STEER_UNCHANGED_WHEN_REVERSING {
      // backing up steadily
      var p := Pilot(steerType, 1000.0, -50.0, 0.0, 0.0, 0.0);
      assert SlewStep(1, 1.0) == 1.0;
      assert SlewLimited(1, -50.0, -50.0, 1.0) == -50.0;
      assert ManualServo(p, 1, throttleMax, -50.0, 1.0) == -1000.0;
    } else {
      // an unlisted type flips with the stick but does not correct for the slew limiter
      var p := Pilot(steerType, 1000.0, 50.0, 0.0, 0.0, 0.0);
      assert SlewStep(1, 1.0) == 1.0;
      assert SlewLimited(1, -50.0, 50.0, 1.0) == -49.0;
      assert ManualServo(p, 1, throttleMax, -50.0, 1.0) == -1000.0;
    }
  }

  /** Two-paddle input and the skid mixer undo each other: the motors get the paddles back. */
  lemma PaddlesReachTheMotors(p: Pilot)
    requires p.steerType == STEER_TWO_PADDLES
    requires -1.0 <= p.leftPaddle <= 1.0 && -1.0 <= p.rightPaddle <= 1.0
    ensures var (steering, throttle) := PilotInput(false, p); SkidMix(steering, throttle) == (p.leftPaddle, p.rightPaddle)
  {
    var (steering, throttle) := PilotInput(false, p);
    var s, t := (p.leftPaddle - p.rightPaddle) / 2.0, (p.leftPaddle + p.rightPaddle) / 2.0;
    assert steering == 4500.0 * s && throttle == 100.0 * t;
    assert SteeringFraction(steering) == s && ThrottleFraction(throttle) == t;
    assert Saturation(s, t) == 1.0;
  }

  /** One main-loop iteration in Manual, the rover armed, the radio alive and the throttle maximum
      positive. With a steer type that reverses when reversing the steering servo gets the clamped
      stick whatever the slew state; the maximum stays positive for the next iteration. */
  method ManualIteration(m: MotorsUGV, p: Pilot, groundSpeed: real, dt: real, sqrt: real -> real)
    requires m.Valid() && m.throttleMax > 0
    modifies m
    ensures m.Valid() && 30 <= m.throttleMax <= 100
    ensures m.steeringServo == ManualServo(p, m.slewRate, old(m.throttleMax), old(m.throttlePrev), dt)
    ensures p.steerType == 0 || p.steerType == 2 ==> m.steeringServo == ClampSteering(p.stick)
    ensures m.throttle == Applied(m.slewRate, old(m.throttleMax), old(m.throttlePrev), PilotInput(false, p).1, dt)
    ensures m.lateral == Constrain(p.lateral, -100.0, 100.0)
  {
    if p.steerType == STEER_DEFAULT || p.steerType == STEER_REVERSED_WHEN_REVERSING {
      ServoIsStick(p, m.slewRate, m.throttleMax, m.throttlePrev, dt);
    }
    Update(m, true, false, p, dt);
    m.Output(true, true, groundSpeed, dt, sqrt);
  }

  /** One iteration in Manual without radio: steering and lateral are centred and the throttle comes down
      to zero as fast as the slew limit lets it. */
  method RadioFailureIteration(m: MotorsUGV, p: Pilot, groundSpeed: real, dt: real, sqrt: real -> real)
    requires m.Valid() && m.throttleMax > 0
    modifies m
    ensures m.Valid() && m.steering == 0.0 && m.steeringServo == 0.0 && m.lateral == 0.0
    ensures Abs(old(m.throttlePrev)) <= old(m.throttleMax) as real ==> m.throttle == SlewLimited(m.slewRate, old(m.throttlePrev), 0.0, dt)
  {
    PilotInputMeans(true, p);
    PilotDesiredMeans(true, p, m.slewRate, m.throttlePrev, dt);
    Update(m, true, true, p, dt);
    m.Output(true, true, groundSpeed, dt, sqrt);
  }

  /** Any number of iterations with arbitrary sticks, steps and speeds. */
  method ManualRun(m: MotorsUGV, pilots: seq<Pilot>, groundSpeeds: seq<real>, dts: seq<real>, sqrt: real -> real)
    returns (servo: seq<real>)
    requires m.Valid() && m.throttleMax > 0 && |pilots| == |groundSpeeds| == |dts|
    requires forall i :: 0 <= i < |pilots| ==>
               pilots[i].steerType == STEER_DEFAULT || pilots[i].steerType == STEER_REVERSED_WHEN_REVERSING
    modifies m
    ensures |servo| == |pilots|
    ensures forall i :: 0 <= i < |pilots| ==> servo[i] == ClampSteering(pilots[i].stick)
  {
    servo := [];
    for n := 0 to |pilots|
      invariant m.Valid() && m.throttleMax > 0
      invariant |servo| == n && forall i :: 0 <= i < n ==> servo[i] == ClampSteering(pilots[i].stick)
    {
      ManualIteration(m, pilots[n], groundSpeeds[n], dts[n], sqrt);
      servo := servo + [m.steeringServo];
    }
  }
}
