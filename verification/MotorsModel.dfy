/** The motor output pipeline as functions: slew limiter, steering channel, skid mixer, omni loop. */
module MotorsModel {
  import opened Numeric
  import opened ThrustCurve

  /** A servo channel: a scaled value, or the limit it is parked at while disarmed. */
  datatype Servo = Value(v: real) | Trim | ZeroPwm

  datatype Limits = Limits(steerLeft: bool, steerRight: bool, throttleLower: bool, throttleUpper: bool)

  const STEERING_MAX: real := 4500.0

  /* ---- throttle ---- */

  function SlewStep(slewRate: int, dt: real): real {
    Max(1.0, slewRate as real * dt)
  }

  /** get_slew_limited_throttle. */
  function SlewLimited(slewRate: int, prev: real, throttle: real, dt: real): real {
    if slewRate <= 0 then throttle
    else Constrain(throttle, prev - SlewStep(slewRate, dt), prev + SlewStep(slewRate, dt))
  }

  /** The limiter passes a request within one step of the previous throttle and otherwise stops one
      step short of it; a rate of zero or less switches it off. */
  lemma SlewLimitedMeans(slewRate: int, prev: real, throttle: real, dt: real)
    ensures slewRate <= 0 ==> SlewLimited(slewRate, prev, throttle, dt) == throttle
    ensures slewRate > 0 ==>
              var step := if slewRate as real * dt >= 1.0 then slewRate as real * dt else 1.0;
              && SlewStep(slewRate, dt) == step
              && (throttle > prev + step ==> SlewLimited(slewRate, prev, throttle, dt) == prev + step)
              && (throttle < prev - step ==> SlewLimited(slewRate, prev, throttle, dt) == prev - step)
              && (prev - step <= throttle <= prev + step ==> SlewLimited(slewRate, prev, throttle, dt) == throttle)
  {
  }

  function ClampThrottle(throttleMax: int, throttle: real): real {
    Constrain(throttle, -(throttleMax as real), throttleMax as real)
  }

  lemma ClampThrottleMeans(throttleMax: int, throttle: real)
    requires throttleMax >= 0
    ensures Abs(throttle) <= throttleMax as real ==> ClampThrottle(throttleMax, throttle) == throttle
    ensures throttle > throttleMax as real ==> ClampThrottle(throttleMax, throttle) == throttleMax as real
    ensures throttle < -(throttleMax as real) ==> ClampThrottle(throttleMax, throttle) == -(throttleMax as real)
  {
  }

  function ConstrainInt(x: int, low: int, high: int): int {
    if x < low then low else if x > high then high else x
  }

  function SaneMin(throttleMin: int): int { ConstrainInt(throttleMin, 0, 20) }

  function SaneMax(throttleMax: int): int { ConstrainInt(throttleMax, 30, 100) }

  function LimitsFromInput(armed: bool, steering: real, throttle: real, throttleMax: int): Limits {
    Limits(!armed || steering <= -STEERING_MAX, !armed || steering >= STEERING_MAX,
           !armed || throttle <= -(throttleMax as real), !armed || throttle >= throttleMax as real)
  }

  /** Disarmed everything is at its limit; armed, steering at 4500 and throttle at the maximum. */
  lemma LimitsMean(armed: bool, steering: real, throttle: real, throttleMax: int)
    ensures var l := LimitsFromInput(armed, steering, throttle, throttleMax);
            && (l.steerLeft <==> armed ==> steering <= -4500.0) && (l.steerRight <==> armed ==> steering >= 4500.0)
            && (l.throttleLower <==> armed ==> throttle <= -(throttleMax as real))
            && (l.throttleUpper <==> armed ==> throttle >= throttleMax as real)
  {
  }

  /* ---- regular steering ---- */

  datatype SteeringScale = SteeringScale(apply: bool, vectorBase: real, speedBase: real)

  /** The steering request after scaling and the reverse flip, before clamping. */
  function RegularSteering(armed: bool, scale: SteeringScale, groundSpeed: real, steering: real, throttle: real): real {
    if !armed then steering
    else if !scale.apply then
      if throttle < 0.0 then -steering else steering
    else if scale.vectorBase > 0.0 then
      if Abs(throttle) > scale.vectorBase then steering * Constrain(scale.vectorBase / Abs(throttle), 0.0, 1.0)
      else steering
    else
      var slowed := if scale.speedBase > 0.0 && Abs(groundSpeed) > scale.speedBase
                    then steering * (scale.speedBase / Abs(groundSpeed)) else steering;
      if groundSpeed < 0.0 then -slowed else slowed
  }

  /** Vectored thrust: beyond the base throttle the steering shrinks in inverse proportion to it. */
  lemma VectoredSteeringProportion(scale: SteeringScale, groundSpeed: real, steering: real, throttle: real)
    requires scale.apply && scale.vectorBase > 0.0
    ensures RegularSteering(true, scale, groundSpeed, steering, throttle) * Max(scale.vectorBase, Abs(throttle)) == steering * scale.vectorBase
  {
    if Abs(throttle) > scale.vectorBase {
      ProportionBelowOne(scale.vectorBase, Abs(throttle));
      ScaledBack(steering, scale.vectorBase, Abs(throttle));
    }
  }

  /** Speed scaling: beyond the base speed the steering shrinks in inverse proportion to the speed,
      and it changes sign exactly when the vehicle moves backwards; without a base speed it only
      changes sign. */
  lemma SpeedScaledSteeringProportion(scale: SteeringScale, groundSpeed: real, steering: real, throttle: real)
    requires scale.apply && scale.vectorBase <= 0.0
    ensures var forwards := if groundSpeed < 0.0 then -RegularSteering(true, scale, groundSpeed, steering, throttle)
                            else RegularSteering(true, scale, groundSpeed, steering, throttle);
            if scale.speedBase > 0.0 then forwards * Max(scale.speedBase, Abs(groundSpeed)) == steering * scale.speedBase
            else forwards == steering
  {
    if scale.speedBase > 0.0 && Abs(groundSpeed) > scale.speedBase {
      ScaledBack(steering, scale.speedBase, Abs(groundSpeed));
    }
  }

  /** Without scaling the steering turns around exactly when the throttle is negative; disarmed it is
      passed on. */
  lemma UnscaledSteering(armed: bool, scale: SteeringScale, groundSpeed: real, steering: real, throttle: real)
    requires !armed || !scale.apply
    ensures RegularSteering(armed, scale, groundSpeed, steering, throttle) == if armed && throttle < 0.0 then -steering else steering
  {
  }

  lemma ProportionBelowOne(base: real, x: real)
    requires 0.0 < base < x
    ensures Constrain(base / x, 0.0, 1.0) == base / x
  {
    ProperFraction(base, x);
  }

  lemma ScaledBack(steering: real, base: real, x: real)
    requires x > 0.0
    ensures steering * (base / x) * x == steering * base
  {
    var q := base / x;
    assert q * x == base;
    assert steering * q * x == steering * (q * x);
  }

  function ClampSteering(steering: real): real {
    Constrain(steering, -STEERING_MAX, STEERING_MAX)
  }

  /* ---- skid mixer ---- */

  function SteeringFraction(steering: real): real {
    Constrain(ClampSteering(steering) / STEERING_MAX, -1.0, 1.0)
  }

  function ThrottleFraction(throttle: real): real {
    Constrain(throttle / 100.0, -1.0, 1.0)
  }

  function Saturation(steer: real, throttle: real): real {
    Max(1.0, Abs(steer) + Abs(throttle))
  }

  /** Left and right motor commands as fractions. */
  function SkidMix(steering: real, throttle: real): (real, real) {
    var s, t := SteeringFraction(steering), ThrottleFraction(throttle);
    var k := Saturation(s, t);
    (Over(t, k) + Over(s, k), Over(t, k) - Over(s, k))
  }

  /* ---- omni ---- */

  datatype Factors = Factors(throttle: real, steering: real, lateral: real)

  function OmniDemand(f: Factors, steering: real, throttle: real, lateral: real): real {
    throttle / 100.0 * f.throttle + ClampSteering(steering) / STEERING_MAX * f.steering + lateral / 100.0 * f.lateral
  }

  /** Full throttle, full steering or full lateral alone demands the motor's factor for it; the three
      demands are proportional to their inputs and add up, with steering limited to 4500. */
  lemma OmniDemandMeans(f: Factors, steering: real, throttle: real, lateral: real)
    ensures OmniDemand(f, 0.0, throttle, 0.0) * 100.0 == throttle * f.throttle
    ensures -4500.0 <= steering <= 4500.0 ==> OmniDemand(f, steering, 0.0, 0.0) * 4500.0 == steering * f.steering
    ensures steering > 4500.0 ==> OmniDemand(f, steering, 0.0, 0.0) == f.steering
    ensures steering < -4500.0 ==> OmniDemand(f, steering, 0.0, 0.0) == -f.steering
    ensures OmniDemand(f, 0.0, 0.0, lateral) * 100.0 == lateral * f.lateral
    ensures OmniDemand(f, steering, throttle, lateral) ==
            OmniDemand(f, 0.0, throttle, 0.0) + OmniDemand(f, steering, 0.0, 0.0) + OmniDemand(f, 0.0, 0.0, lateral)
  {
  }

  function OmniDemands(fs: seq<Factors>, steering: real, throttle: real, lateral: real): (d: seq<real>)
    ensures |d| == |fs|
    ensures forall i :: 0 <= i < |fs| ==> d[i] == OmniDemand(fs[i], steering, throttle, lateral)
  {
    seq(|fs|, i requires 0 <= i < |fs| => OmniDemand(fs[i], steering, throttle, lateral))
  }

  /** `m` is max(1, |d_0|, .., |d_i|). */
  ghost predicate IsPeak(d: seq<real>, i: int, m: real) {
    && m >= 1.0
    && (forall k :: 0 <= k <= i && k < |d| ==> Abs(d[k]) <= m)
    && (m == 1.0 || exists k :: 0 <= k <= i && k < |d| && Abs(d[k]) == m)
  }

  function Peak(d: seq<real>, i: int): (m: real)
    requires -1 <= i < |d|
    ensures m >= 1.0
    decreases i + 1
  {
    if i == -1 then 1.0 else Max(Peak(d, i - 1), Abs(d[i]))
  }

  lemma {:induction false} PeakIsPeak(d: seq<real>, i: int)
    requires -1 <= i < |d|
    ensures IsPeak(d, i, Peak(d, i))
    decreases i + 1
  {
    if i >= 0 {
      PeakIsPeak(d, i - 1);
    }
  }

  /** The command of motor i as a fraction. */
  function OmniCommand(d: seq<real>, i: nat): real
    requires i < |d|
  {
    Over(d[i], Peak(d, i))
  }

  /** The omni servos: every motor's command through the thrust curve. */
  function OmniServos(d: seq<real>, throttleMin: int, expo: real, sqrt: real -> real): seq<Servo> {
    seq(|d|, i requires 0 <= i < |d| => Value(Scaled(throttleMin, expo, sqrt, 100.0 * OmniCommand(d, i))))
  }

  lemma QuotientBounded(q: real, m: real, x: real)
    requires m >= 1.0 && q * m == x && Abs(x) <= m
    ensures Abs(q) <= 1.0
  {
    if q > 1.0 { ProductPositive(q - 1.0, m); Difference(q, 1.0, m); }
    if q < -1.0 { ProductPositive(-1.0 - q, m); Difference(-1.0, q, m); }
  }

  lemma QuotientSign(q: real, m: real, x: real)
    requires m >= 1.0 && q * m == x
    ensures q < 0.0 <==> x < 0.0
  {
    if q > 0.0 { ProductPositive(q, m); }
    if q < 0.0 { ProductPositive(-q, m); }
  }

  lemma QuotientUnchanged(q: real, m: real, x: real)
    requires m >= 1.0 && q * m == x
    ensures q == x <==> x == 0.0 || m == 1.0
  {
    if q == x && x != 0.0 {
      Difference(m, 1.0, x);
      ZeroFactor(x, m - 1.0);
    }
    if x == 0.0 && q != 0.0 {
      NonZeroProduct(q, m);
    }
  }

  lemma QuotientFacts(q: real, m: real, x: real)
    requires m >= 1.0 && q * m == x
    ensures Abs(x) <= m ==> Abs(q) <= 1.0
    ensures q < 0.0 <==> x < 0.0
    ensures q == x <==> x == 0.0 || m == 1.0
  {
    if Abs(x) <= m { QuotientBounded(q, m, x); }
    QuotientSign(q, m, x);
    QuotientUnchanged(q, m, x);
  }

  /** Every omni command is within +-1, keeps the sign of its demand, and passes unchanged exactly
      when it is zero or no demand so far exceeds one. */
  lemma OmniCommandBounded(d: seq<real>, i: nat)
    requires i < |d|
    ensures Abs(OmniCommand(d, i)) <= 1.0
    ensures OmniCommand(d, i) < 0.0 <==> d[i] < 0.0
    ensures OmniCommand(d, i) == d[i] <==> d[i] == 0.0 || forall k :: 0 <= k <= i ==> Abs(d[k]) <= 1.0
  {
    PeakIsPeak(d, i);
    OverBack(d[i], Peak(d, i));
    QuotientFacts(OmniCommand(d, i), Peak(d, i), d[i]);
  }

  /** The command is the demand divided by the running maximum. */
  lemma OmniCommandDivides(d: seq<real>, i: nat)
    requires i < |d|
    ensures OmniCommand(d, i) * Peak(d, i) == d[i]
  {
    OverBack(d[i], Peak(d, i));
  }

  /** x : y is a : b. */
  predicate SameRatio(x: real, y: real, a: real, b: real) {
    x * b == y * a
  }

  /** Two motors are driven in the ratio of their demands exactly when the running maximum has not
      grown between them (or a demand is zero). */
  lemma OmniRatioExactlyWhen(d: seq<real>, i: nat, j: nat)
    requires i <= j < |d| && d[i] != 0.0 && d[j] != 0.0
    ensures SameRatio(OmniCommand(d, i), OmniCommand(d, j), d[i], d[j]) <==> Peak(d, i) == Peak(d, j)
  {
    OverRatio(d[i], d[j], Peak(d, i), Peak(d, j));
  }

  lemma OverRatio(a: real, b: real, m: real, n: real)
    requires a != 0.0 && b != 0.0 && m >= 1.0 && n >= 1.0
    ensures SameRatio(Over(a, m), Over(b, n), a, b) <==> m == n
  {
    OverBack(a, m);
    OverBack(b, n);
    CrossRatio(a, b, Over(a, m), Over(b, n), m, n);
  }

  lemma CrossRatio(a: real, b: real, x: real, y: real, m: real, n: real)
    requires a != 0.0 && b != 0.0 && m >= 1.0 && n >= 1.0 && x * m == a && y * n == b
    ensures x * b == y * a <==> m == n
  {
    // x b = x y n and y a = x y m
    assert x * b == (x * y) * n;
    assert y * a == (x * y) * m;
    assert x != 0.0 && y != 0.0;
    NonZeroProduct(x, y);
    if x * b == y * a {
      assert (x * y) * (n - m) == 0.0;
      ZeroFactor(x * y, n - m);
    }
  }

  lemma NonZeroProduct(x: real, y: real)
    requires x != 0.0 && y != 0.0
    ensures x * y != 0.0
  {
  }

  lemma ZeroFactor(x: real, y: real)
    requires x != 0.0 && x * y == 0.0
    ensures y == 0.0
  {
  }

  /* ---- mixer properties ---- */

  /** The inputs as fractions of full steering and full throttle, limited to +-1. */
  lemma FractionsMean(steering: real, throttle: real)
    ensures SteeringFraction(steering) * 4500.0 == Constrain(steering, -4500.0, 4500.0)
    ensures ThrottleFraction(throttle) * 100.0 == Constrain(throttle, -100.0, 100.0)
  {
  }

  /** What both fractions are divided by: their sum, where it exceeds the range. */
  lemma SaturationMeans(s: real, t: real)
    ensures Abs(s) + Abs(t) <= 1.0 ==> Saturation(s, t) == 1.0
    ensures Abs(s) + Abs(t) > 1.0 ==> Saturation(s, t) == Abs(s) + Abs(t)
  {
  }

  /** Left is throttle plus steering and right throttle minus steering, both divided by the saturation. */
  lemma SkidMixDivides(steering: real, throttle: real)
    ensures var s := SteeringFraction(steering);
            var t := ThrottleFraction(throttle);
            var (l, r) := SkidMix(steering, throttle);
            Divides(s, t, Saturation(s, t), l, r)
  {
    DividedByOver(SteeringFraction(steering), ThrottleFraction(throttle));
  }

  ghost predicate Divides(s: real, t: real, k: real, l: real, r: real) {
    l * k == t + s && r * k == t - s
  }

  lemma DividedByOver(s: real, t: real)
    ensures var k := Saturation(s, t); Divides(s, t, k, Over(t, k) + Over(s, k), Over(t, k) - Over(s, k))
  {
    var k := Saturation(s, t);
    OverBack(s, k);
    OverBack(t, k);
    MixedBack(s, t, k, Over(s, k), Over(t, k), Over(t, k) + Over(s, k), Over(t, k) - Over(s, k));
  }

  /** Skid commands stay within +-1, and the larger one uses the full range when the mix saturates. */
  lemma SkidMixBounded(steering: real, throttle: real)
    ensures var (l, r) := SkidMix(steering, throttle);
            && Abs(l) <= 1.0 && Abs(r) <= 1.0
            && (Abs(SteeringFraction(steering)) + Abs(ThrottleFraction(throttle)) > 1.0 ==> Max(Abs(l), Abs(r)) == 1.0)
  {
    BoundedByOver(SteeringFraction(steering), ThrottleFraction(throttle));
  }

  lemma BoundedByOver(s: real, t: real)
    ensures var k := Saturation(s, t);
            var l, r := Over(t, k) + Over(s, k), Over(t, k) - Over(s, k);
            Abs(l) <= 1.0 && Abs(r) <= 1.0 && (Abs(s) + Abs(t) > 1.0 ==> Max(Abs(l), Abs(r)) == 1.0)
  {
    var k := Saturation(s, t);
    OverBack(s, k);
    OverBack(t, k);
    MixBounded(s, t, k, Over(s, k), Over(t, k), Over(t, k) + Over(s, k), Over(t, k) - Over(s, k));
  }

  lemma MixedBack(s: real, t: real, k: real, x: real, y: real, l: real, r: real)
    requires x * k == s && y * k == t && l == y + x && r == y - x
    ensures Divides(s, t, k, l, r)
  {
    Sum(y, x, k);
    Difference(y, x, k);
  }

  lemma Difference(y: real, x: real, k: real)
    ensures (y - x) * k == y * k - x * k
  {
  }

  /** Throttle and steering are scaled back by the same factor. */
  lemma SkidMixKeepsRatio(steering: real, throttle: real)
    ensures var s := SteeringFraction(steering);
            var t := ThrottleFraction(throttle);
            var (l, r) := SkidMix(steering, throttle);
            SameRatio(l + r, l - r, t, s)
  {
    var s, t := SteeringFraction(steering), ThrottleFraction(throttle);
    var k := Saturation(s, t);
    OverBack(s, k);
    OverBack(t, k);
    var (l, r) := SkidMix(steering, throttle);
    MixRatio(k, s, t, Over(s, k), Over(t, k), l, r);
  }

  lemma MixBounded(s: real, t: real, k: real, x: real, y: real, l: real, r: real)
    requires k == Saturation(s, t) && x * k == s && y * k == t && l == y + x && r == y - x
    ensures Abs(l) <= 1.0 && Abs(r) <= 1.0
    ensures k > 1.0 ==> Max(Abs(l), Abs(r)) == 1.0
  {
    AbsSum(x, y, k, s, t);
    MixShare(Abs(x) + Abs(y), k, Abs(s) + Abs(t));
    MixSpan(x, y);
  }

  lemma MixShare(z: real, k: real, w: real)
    requires z * k == w && k == Max(1.0, w)
    ensures z <= 1.0 && (k > 1.0 ==> z == 1.0)
  {
    SumWithinOne(z, k, w);
    if k > 1.0 {
      WholeFactor(z, k);
    }
  }

  lemma WholeFactor(z: real, k: real)
    requires k > 1.0 && z * k == k
    ensures z == 1.0
  {
    Difference(z, 1.0, k);
    ZeroFactor(k, z - 1.0);
  }

  lemma MixRatio(k: real, s: real, t: real, x: real, y: real, l: real, r: real)
    requires x * k == s && y * k == t && l == y + x && r == y - x
    ensures SameRatio(l + r, l - r, t, s)
  {
    assert y * s == x * t by { CommonFactor(x, y, k); }
    assert l + r == 2.0 * y && l - r == 2.0 * x;
    Doubled(y, s);
    Doubled(x, t);
  }

  lemma CommonFactor(x: real, y: real, k: real)
    ensures y * (x * k) == x * (y * k)
  {
  }

  lemma Doubled(x: real, k: real)
    ensures (2.0 * x) * k == 2.0 * (x * k)
  {
  }

  lemma AbsSum(x: real, y: real, k: real, s: real, t: real)
    requires k >= 1.0 && x * k == s && y * k == t
    ensures (Abs(x) + Abs(y)) * k == Abs(s) + Abs(t)
  {
    AbsProduct(x, k);
    AbsProduct(y, k);
    Sum(Abs(x), Abs(y), k);
  }

  lemma Sum(x: real, y: real, k: real)
    ensures (x + y) * k == x * k + y * k
  {
  }

  lemma AbsProduct(x: real, k: real)
    requires k >= 1.0
    ensures Abs(x * k) == Abs(x) * k
  {
    if x > 0.0 {
      ProductPositive(x, k);
    } else if x < 0.0 {
      ProductPositive(-x, k);
    }
  }

  lemma SumWithinOne(z: real, k: real, w: real)
    requires k >= 1.0 && z * k == w && w <= k
    ensures z <= 1.0
  {
    if z > 1.0 {
      ProductPositive(z - 1.0, k);
    }
  }

  lemma MixSpan(x: real, y: real)
    ensures Max(Abs(y + x), Abs(y - x)) == Abs(x) + Abs(y)
  {
  }

  /** Left and right servo values stay within +-1000 (no wheel rate control). */
  lemma SkidServosBounded(throttleMin: int, expo: real, sqrt: real -> real, steering: real, throttle: real)
    requires IsSqrt(sqrt) && 0 <= throttleMin <= 20
    ensures var (l, r) := SkidMix(steering, throttle);
            && Abs(Scaled(throttleMin, expo, sqrt, 100.0 * l) * 10.0) <= 1000.0
            && Abs(Scaled(throttleMin, expo, sqrt, 100.0 * r) * 10.0) <= 1000.0
  {
    SkidMixBounded(steering, throttle);
    var (l, r) := SkidMix(steering, throttle);
    ScaledInRange(throttleMin, expo, sqrt, 100.0 * l);
    ScaledInRange(throttleMin, expo, sqrt, 100.0 * r);
  }
}
