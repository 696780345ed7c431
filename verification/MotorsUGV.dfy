/** The motor object and Manual mode, as the vehicle code updates them. */
module MotorsObject {
  import opened Numeric
  import opened ThrustCurve
  import opened MotorsModel

  class MotorsUGV {
    // channel configuration
    const haveSkidSteering: bool
    const omniFrame: bool
    const motorsNum: nat
    const factors: seq<Factors>
    const disarmDisablePwm: bool
    // parameters
    const slewRate: int
    const expo: real
    const speedScaleBase: real
    var throttleMin: int
    var throttleMax: int
    var vectorThrottleBase: real
    // requests and slew state
    var steering: real
    var throttle: real
    var throttlePrev: real
    var scaleSteering: bool
    var lateral: real
    var limits: Limits
    // servo channels
    var steeringServo: real
    var throttleServo: Servo
    var leftServo: Servo
    var rightServo: Servo
    var motorServos: seq<Servo>

    ghost predicate Valid()
      reads this
    {
      |motorServos| == |factors| && motorsNum <= |factors|
    }

    constructor (haveSkidSteering: bool, omniFrame: bool, motorsNum: nat, factors: seq<Factors>, disarmDisablePwm: bool,
                 slewRate: int, expo: real, speedScaleBase: real, throttleMin: int, throttleMax: int, vectorThrottleBase: real)
      requires motorsNum <= |factors|
      ensures Valid() && throttle == throttlePrev == 0.0 && scaleSteering
      ensures this.throttleMax == throttleMax && this.slewRate == slewRate
    {
      this.haveSkidSteering, this.omniFrame, this.motorsNum, this.factors := haveSkidSteering, omniFrame, motorsNum, factors;
      this.disarmDisablePwm, this.slewRate, this.expo, this.speedScaleBase := disarmDisablePwm, slewRate, expo, speedScaleBase;
      this.throttleMin, this.throttleMax, this.vectorThrottleBase := throttleMin, throttleMax, vectorThrottleBase;
      steering, throttle, throttlePrev, lateral := 0.0, 0.0, 0.0, 0.0;
      scaleSteering := true;
      limits := Limits(false, false, false, false);
      steeringServo, throttleServo, leftServo, rightServo := 0.0, Trim, Trim, Trim;
      motorServos := seq(|factors|, _ => Trim);
    }

    method SetSteering(steering: real, applyScaling: bool)
      modifies this`steering, this`scaleSteering
      ensures this.steering == steering && scaleSteering == applyScaling
    {
      this.steering := steering;
      scaleSteering := applyScaling;
    }

    method SetThrottle(softArmed: bool, throttle: real)
      modifies this`throttle
      ensures this.throttle == if softArmed then ClampThrottle(throttleMax, throttle) else old(this.throttle)
    {
      if !softArmed {
        return;
      }
      this.throttle := Constrain(throttle, -(throttleMax as real), throttleMax as real);
    }

    method SetLateral(lateral: real)
      modifies this`lateral
      ensures this.lateral == Constrain(lateral, -100.0, 100.0)
    {
      this.lateral := Constrain(lateral, -100.0, 100.0);
    }

    method SanityCheckParameters()
      modifies this`throttleMin, this`throttleMax, this`vectorThrottleBase
      ensures throttleMin == SaneMin(old(throttleMin)) && throttleMax == SaneMax(old(throttleMax))
      ensures vectorThrottleBase == Constrain(old(vectorThrottleBase), 0.0, 100.0)
      ensures 0 <= throttleMin <= 20 && 30 <= throttleMax <= 100
      ensures 0 <= old(throttleMin) <= 20 ==> throttleMin == old(throttleMin)
      ensures 30 <= old(throttleMax) <= 100 ==> throttleMax == old(throttleMax)
      ensures old(throttleMin) > 20 ==> throttleMin == 20
      ensures old(throttleMin) < 0 ==> throttleMin == 0
      ensures old(throttleMax) > 100 ==> throttleMax == 100
      ensures old(throttleMax) < 30 ==> throttleMax == 30
    {
      throttleMin := ConstrainInt(throttleMin, 0, 20);
      throttleMax := ConstrainInt(throttleMax, 30, 100);
      vectorThrottleBase := Constrain(vectorThrottleBase, 0.0, 100.0);
    }

    /** One iteration of the slew limiter; it also remembers the throttle it let through. */
    method SlewLimitThrottle(dt: real)
      modifies this`throttle, this`throttlePrev, this`limits
      ensures throttle == throttlePrev == SlewLimited(slewRate, old(throttlePrev), old(throttle), dt)
    {
      var requested := throttle;
      throttle := SlewLimited(slewRate, throttlePrev, throttle, dt);
      if requested > throttle {
        limits := limits.(throttleUpper := true);
      } else if requested < throttle {
        limits := limits.(throttleLower := true);
      }
      throttlePrev := throttle;
    }

    function Parked(): (s: Servo)
      ensures s == ZeroPwm || s == Trim
      ensures s == ZeroPwm <==> disarmDisablePwm
    {
      if disarmDisablePwm then ZeroPwm else Trim
    }

    method OutputRegular(armed: bool, groundSpeed: real, steering: real, throttle: real, sqrt: real -> real)
      modifies this`steeringServo, this`throttleServo, this`limits
      ensures var scaled := RegularSteering(armed, SteeringScale(scaleSteering, vectorThrottleBase, speedScaleBase), groundSpeed, steering, throttle);
              && steeringServo == ClampSteering(scaled)
              && limits == LimitsFromInput(armed, scaled, throttle, throttleMax)
      ensures throttleServo == if armed then Value(Scaled(throttleMin, expo, sqrt, throttle)) else Parked()
    {
      var s := steering;
      if armed {
        if scaleSteering {
          if vectorThrottleBase > 0.0 {
            if Abs(throttle) > vectorThrottleBase {
              s := s * Constrain(vectorThrottleBase / Abs(throttle), 0.0, 1.0);
            }
          } else {
            if speedScaleBase > 0.0 && Abs(groundSpeed) > speedScaleBase {
              s := s * (speedScaleBase / Abs(groundSpeed));
            } else {
              if !haveSkidSteering {
                limits := limits.(steerLeft := true, steerRight := true);
              }
            }
            if groundSpeed < 0.0 {
              s := -s;
            }
          }
        } else {
          if throttle < 0.0 {
            s := -s;
          }
        }
        throttleServo := Value(Scaled(throttleMin, expo, sqrt, throttle));
      } else {
        throttleServo := Parked();
      }
      limits := LimitsFromInput(armed, s, throttle, throttleMax);
      s := Constrain(s, -STEERING_MAX, STEERING_MAX);
      steeringServo := s;
    }

    method OutputSkidSteering(armed: bool, steering: real, throttle: real, sqrt: real -> real)
      modifies this`leftServo, this`rightServo, this`limits
      ensures !haveSkidSteering ==> leftServo == old(leftServo) && rightServo == old(rightServo) && limits == old(limits)
      ensures haveSkidSteering ==> limits == LimitsFromInput(armed, steering, throttle, throttleMax)
      ensures haveSkidSteering && !armed ==> leftServo == rightServo == Parked()
      ensures haveSkidSteering && armed ==>
                var (l, r) := SkidMix(steering, throttle);
                && leftServo == Value(Scaled(throttleMin, expo, sqrt, 100.0 * l) * 10.0)
                && rightServo == Value(Scaled(throttleMin, expo, sqrt, 100.0 * r) * 10.0)
    {
      if !haveSkidSteering {
        return;
      }
      limits := LimitsFromInput(armed, steering, throttle, throttleMax);
      if !armed {
        leftServo, rightServo := Parked(), Parked();
        return;
      }
      var steeringScaled := ClampSteering(steering) / STEERING_MAX;
      var throttleScaled := throttle / 100.0;
      steeringScaled := Constrain(steeringScaled, -1.0, 1.0);
      throttleScaled := Constrain(throttleScaled, -1.0, 1.0);
      var saturation := Abs(steeringScaled) + Abs(throttleScaled);
      if saturation > 1.0 {
        steeringScaled := Over(steeringScaled, saturation);
        throttleScaled := Over(throttleScaled, saturation);
      }
      var motorLeft := throttleScaled + steeringScaled;
      var motorRight := throttleScaled - steeringScaled;
      leftServo := Value(Scaled(throttleMin, expo, sqrt, 100.0 * motorLeft) * 10.0);
      rightServo := Value(Scaled(throttleMin, expo, sqrt, 100.0 * motorRight) * 10.0);
    }

    /** The loop over the omni motors, for a given demand of each motor and a given servo value of a command. */
    method DriveOmni(demandOf: Factors -> real, servo: real -> Servo, ghost d: seq<real>)
      requires Valid()
      requires |d| == |factors| && forall i :: 0 <= i < |d| ==> d[i] == demandOf(factors[i])
      modifies this`motorServos
      ensures Valid()
      ensures forall i :: 0 <= i < |factors| ==> motorServos[i] == servo(OmniCommand(d, i))
    {
      var demandMax := 1.0;
      for i := 0 to |factors|
        invariant |motorServos| == |factors|
        invariant demandMax == Peak(d, i - 1)
        invariant forall k :: 0 <= k < i ==> motorServos[k] == servo(OmniCommand(d, k))
      {
        var demand := demandOf(factors[i]);
        if Abs(demand) > demandMax {
          demandMax := Abs(demand);
        }
        assert demandMax == Peak(d, i);
        motorServos := motorServos[i := servo(Over(demand, demandMax))];
      }
    }

    /** The omni loop keeps a running maximum of the demands seen so far, and divides by that. */
    method OutputOmni(armed: bool, steering: real, throttle: real, lateral: real, sqrt: real -> real)
      requires Valid()
      modifies this`motorServos, this`limits
      ensures Valid()
      ensures !omniFrame ==> motorServos == old(motorServos)
      ensures limits == if omniFrame && armed then LimitsFromInput(armed, steering, throttle, throttleMax) else old(limits)
      ensures omniFrame && armed ==>
                motorServos == OmniServos(OmniDemands(factors, steering, throttle, lateral), throttleMin, expo, sqrt)
      ensures omniFrame && !armed ==>
                forall i :: 0 <= i < |factors| ==> motorServos[i] == if i < motorsNum then Parked() else old(motorServos)[i]
    {
      if !omniFrame {
        return;
      }
      if armed {
        limits := LimitsFromInput(armed, steering, throttle, throttleMax);
        var demand := (f: Factors) =>
          throttle / 100.0 * f.throttle + ClampSteering(steering) / STEERING_MAX * f.steering + lateral / 100.0 * f.lateral;
        var low := throttleMin;
        DriveOmni(demand, (x: real) => Value(Scaled(low, expo, sqrt, 100.0 * x)), OmniDemands(factors, steering, throttle, lateral));
      } else {
        for i := 0 to motorsNum
          invariant |motorServos| == |factors| && limits == old(limits)
          invariant forall k :: 0 <= k < |factors| ==> motorServos[k] == if k < i then Parked() else old(motorServos)[k]
        {
          motorServos := motorServos[i := Parked()];
        }
      }
    }

    /** What an output iteration does before it writes the servos. */
    method PrepareOutput(softArmed: bool, armed: bool, dt: real) returns (live: bool)
      modifies this`throttleMin, this`throttleMax, this`vectorThrottleBase, this`throttle, this`throttlePrev, this`limits
      ensures live == (softArmed && armed)
      ensures throttleMin == SaneMin(old(throttleMin)) && throttleMax == SaneMax(old(throttleMax))
      ensures vectorThrottleBase == Constrain(old(vectorThrottleBase), 0.0, 100.0)
      ensures throttle == throttlePrev == SlewLimited(slewRate, old(throttlePrev), if softArmed then old(throttle) else 0.0, dt)
    {
      live := armed;
      if !softArmed {
        live := false;
        throttle := 0.0;
      }
      SanityCheckParameters();
      SlewLimitThrottle(dt);
    }

    /** The steering and throttle channels carry the steering and throttle fields. */
    ghost predicate RegularWritten(live: bool, groundSpeed: real, sqrt: real -> real)
      reads this
    {
      && steeringServo == ClampSteering(RegularSteering(
           live, SteeringScale(scaleSteering, vectorThrottleBase, speedScaleBase), groundSpeed, steering, throttle))
      && throttleServo == if live then Value(Scaled(throttleMin, expo, sqrt, throttle)) else Parked()
    }

    ghost predicate SkidWritten(live: bool, sqrt: real -> real)
      reads this
    {
      && (haveSkidSteering && live ==>
            var (l, r) := SkidMix(steering, throttle);
            && leftServo == Value(Scaled(throttleMin, expo, sqrt, 100.0 * l) * 10.0)
            && rightServo == Value(Scaled(throttleMin, expo, sqrt, 100.0 * r) * 10.0))
      && (haveSkidSteering && !live ==> leftServo == rightServo == Parked())
    }

    ghost predicate OmniWritten(sqrt: real -> real)
      reads this
    {
      motorServos == OmniServos(OmniDemands(factors, steering, throttle, lateral), throttleMin, expo, sqrt)
    }

    /** The limit flags come from the last output that set them: skid and omni outputs do not scale the steering. */
    ghost predicate LimitsWritten(live: bool, groundSpeed: real)
      reads this
    {
      limits == LimitsFromInput(live,
        if haveSkidSteering || (omniFrame && live) then steering
        else RegularSteering(live, SteeringScale(scaleSteering, vectorThrottleBase, speedScaleBase), groundSpeed, steering, throttle),
        throttle, throttleMax)
    }

    /** With the thrust curve off and no throttle floor, as configured by default, the motors get
        throttle, mix and omni commands unchanged. */
    lemma DefaultsPassThrough(groundSpeed: real, sqrt: real -> real)
      requires expo == 0.0 && throttleMin == 0
      ensures RegularWritten(true, groundSpeed, sqrt) ==> throttleServo == Value(throttle)
      ensures haveSkidSteering && SkidWritten(true, sqrt) ==>
                var (l, r) := SkidMix(steering, throttle);
                leftServo == Value(1000.0 * l) && rightServo == Value(1000.0 * r)
      ensures OmniWritten(sqrt) ==>
                var d := OmniDemands(factors, steering, throttle, lateral);
                |motorServos| == |factors| && forall i :: 0 <= i < |factors| ==> motorServos[i] == Value(100.0 * OmniCommand(d, i))
    {
      var (l, r) := SkidMix(steering, throttle);
      var d := OmniDemands(factors, steering, throttle, lateral);
      CurveOffIsLinear(0, 0.0, sqrt, throttle);
      CurveOffIsLinear(0, 0.0, sqrt, 100.0 * l);
      CurveOffIsLinear(0, 0.0, sqrt, 100.0 * r);
      forall i | 0 <= i < |d| ensures Scaled(0, 0.0, sqrt, 100.0 * OmniCommand(d, i)) == 100.0 * OmniCommand(d, i) {
        CurveOffIsLinear(0, 0.0, sqrt, 100.0 * OmniCommand(d, i));
      }
    }

    method WriteServos(live: bool, groundSpeed: real, sqrt: real -> real)
      requires Valid()
      modifies this`limits, this`steeringServo, this`throttleServo, this`leftServo, this`rightServo, this`motorServos
      ensures Valid() && RegularWritten(live, groundSpeed, sqrt) && SkidWritten(live, sqrt) && LimitsWritten(live, groundSpeed)
      ensures !haveSkidSteering ==> leftServo == old(leftServo) && rightServo == old(rightServo)
      ensures omniFrame && live ==> OmniWritten(sqrt)
      ensures omniFrame && !live ==>
                forall i :: 0 <= i < |factors| ==> motorServos[i] == if i < motorsNum then Parked() else old(motorServos)[i]
      ensures !omniFrame ==> motorServos == old(motorServos)
    {
      OutputRegular(live, groundSpeed, steering, throttle, sqrt);
      OutputSkidSteering(live, steering, throttle, sqrt);
      OutputOmni(live, steering, throttle, lateral, sqrt);
    }

    /** One output iteration. Soft-disarmed overrides the armed argument and zeroes the request. */
    method Output(softArmed: bool, armed: bool, groundSpeed: real, dt: real, sqrt: real -> real)
      requires Valid()
      modifies this`throttleMin, this`throttleMax, this`vectorThrottleBase, this`throttle, this`throttlePrev, this`limits,
               this`steeringServo, this`throttleServo, this`leftServo, this`rightServo, this`motorServos
      ensures Valid()
      ensures throttleMin == SaneMin(old(throttleMin)) && throttleMax == SaneMax(old(throttleMax))
      ensures vectorThrottleBase == Constrain(old(vectorThrottleBase), 0.0, 100.0)
      ensures throttle == throttlePrev == SlewLimited(slewRate, old(throttlePrev), if softArmed then old(throttle) else 0.0, dt)
      ensures RegularWritten(softArmed && armed, groundSpeed, sqrt) && SkidWritten(softArmed && armed, sqrt)
      ensures LimitsWritten(softArmed && armed, groundSpeed)
      ensures !haveSkidSteering ==> leftServo == old(leftServo) && rightServo == old(rightServo)
      ensures omniFrame && softArmed && armed ==> OmniWritten(sqrt)
      ensures omniFrame && !(softArmed && armed) ==>
                forall i :: 0 <= i < |factors| ==> motorServos[i] == if i < motorsNum then Parked() else old(motorServos)[i]
      ensures !omniFrame ==> motorServos == old(motorServos)
    {
      var live := PrepareOutput(softArmed, armed, dt);
      WriteServos(live, groundSpeed, sqrt);
    }
  }
}
