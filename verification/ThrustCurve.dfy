/** get_scaled_throttle: the throttle floor and the thrust curve. */
module ThrustCurve {
  import opened Numeric

  /** What sqrtf computes, up to rounding. */
  ghost predicate IsSqrt(sqrt: real -> real) {
    forall v :: v >= 0.0 ==> sqrt(v) >= 0.0 && sqrt(v) * sqrt(v) == v
  }

  /** safe_sqrt is zero where sqrtf has no value. */
  function SafeSqrt(sqrt: real -> real, v: real): real {
    if v < 0.0 then 0.0 else sqrt(v)
  }

  /** A non-zero throttle squeezed into the range from `low` to 100, keeping its sign. */
  function Lift(low: real, throttle: real): real {
    var scaled := throttle * ((100.0 - low) / 100.0);
    if throttle < 0.0 then -low + scaled else low + scaled
  }

  /** The throttle after the THR_MIN floor. */
  function Floored(throttleMin: int, throttle: real): real {
    if throttle == 0.0 || throttleMin <= 0 then throttle else Lift(throttleMin as real, throttle)
  }

  predicate CurveEnabled(expo: real) {
    expo != 0.0 && -1.0 <= expo <= 1.0
  }

  function Radicand(expo: real, p: real): real {
    (1.0 - expo) * (1.0 - expo) + 4.0 * expo * p
  }

  /** The root the code takes, for an input fraction p in [0, 1]. */
  function CurveRoot(expo: real, sqrt: real -> real, p: real): real
    requires expo != 0.0
  {
    ((expo - 1.0) + SafeSqrt(sqrt, Radicand(expo, p))) / (2.0 * expo)
  }

  function Scaled(throttleMin: int, expo: real, sqrt: real -> real, throttle: real): real {
    if throttle == 0.0 then throttle
    else
      var floored := Floored(throttleMin, throttle);
      if !CurveEnabled(expo) then floored else CurveValue(expo, sqrt, floored)
  }

  function CurveValue(expo: real, sqrt: real -> real, floored: real): real
    requires expo != 0.0
  {
    var sign := if floored < 0.0 then -1.0 else 1.0;
    var pct := Constrain(floored, -100.0, 100.0) / 100.0;
    100.0 * sign * ((expo - 1.0) + SafeSqrt(sqrt, Radicand(expo, Abs(pct)))) / (2.0 * expo)
  }

  /** Thrust as a function of the motor command, both as fractions. */
  function Thrust(expo: real, x: real): real {
    (1.0 - expo) * x + expo * x * x
  }

  lemma ProductBetween(a: real, p: real)
    requires 0.0 <= p <= 1.0
    ensures a >= 0.0 ==> 0.0 <= a * p <= a
    ensures a <= 0.0 ==> a <= a * p <= 0.0
  {
  }

  lemma RadicandNonNegative(expo: real, p: real)
    requires CurveEnabled(expo) && 0.0 <= p <= 1.0
    ensures Radicand(expo, p) >= 0.0
    ensures expo > 0.0 ==> (1.0 - expo) * (1.0 - expo) <= Radicand(expo, p) <= (1.0 + expo) * (1.0 + expo)
    ensures expo < 0.0 ==> (1.0 + expo) * (1.0 + expo) <= Radicand(expo, p) <= (1.0 - expo) * (1.0 - expo)
  {
    ProductBetween(4.0 * expo, p);
    SquaresApart(expo);
    SquareNonNegative(1.0 - expo);
    SquareNonNegative(1.0 + expo);
  }

  lemma SquaresApart(e: real)
    ensures (1.0 + e) * (1.0 + e) == (1.0 - e) * (1.0 - e) + 4.0 * e
  {
  }

  lemma SquareNonNegative(a: real)
    ensures a * a >= 0.0
  {
  }

  lemma SquareGrows(b: real, r: real)
    requires 0.0 <= b < r
    ensures b * b < r * r
  {
    ProductPositive(r - b, r + b);
    assert (r - b) * (r + b) == r * r - b * b;
  }

  lemma RootBelow(r: real, b: real)
    requires r >= 0.0 && b >= 0.0 && r * r <= b * b
    ensures r <= b
  {
    if b < r {
      SquareGrows(b, r);
    }
  }

  /** The root taken solves (1 - e) x + e x^2 = p and lies in [0, 1]. */
  lemma CurveRootSolves(expo: real, sqrt: real -> real, p: real)
    requires IsSqrt(sqrt) && CurveEnabled(expo) && 0.0 <= p <= 1.0
    ensures var x := CurveRoot(expo, sqrt, p); 0.0 <= x <= 1.0 && Thrust(expo, x) == p
  {
    RadicandNonNegative(expo, p);
    var d := Radicand(expo, p);
    var r := sqrt(d);
    assert r >= 0.0 && r * r == d;
    var x := CurveRoot(expo, sqrt, p);
    var twice := 2.0 * expo;
    assert x * twice == (expo - 1.0) + r;
    RootInRange(expo, r, d, x);
    RootSolves(expo, r, p, x);
  }

  lemma RootInRange(expo: real, r: real, d: real, x: real)
    requires CurveEnabled(expo) && r >= 0.0 && r * r == d && x * (2.0 * expo) == (expo - 1.0) + r
    requires expo > 0.0 ==> (1.0 - expo) * (1.0 - expo) <= d <= (1.0 + expo) * (1.0 + expo)
    requires expo < 0.0 ==> (1.0 + expo) * (1.0 + expo) <= d <= (1.0 - expo) * (1.0 - expo)
    ensures 0.0 <= x <= 1.0
  {
    if expo > 0.0 {
      RootBelow(1.0 - expo, r);
      RootBelow(r, 1.0 + expo);
      assert 0.0 <= x * (2.0 * expo) <= 2.0 * expo;
    } else {
      RootBelow(1.0 + expo, r);
      RootBelow(r, 1.0 - expo);
      assert 2.0 * expo <= x * (2.0 * expo) <= 0.0;
    }
    Quotient(x, 2.0 * expo);
  }

  lemma Quotient(x: real, k: real)
    requires k != 0.0
    requires if k > 0.0 then 0.0 <= x * k <= k else k <= x * k <= 0.0
    ensures 0.0 <= x <= 1.0
  {
  }

  lemma RootSolves(expo: real, r: real, p: real, x: real)
    requires expo != 0.0 && r * r == Radicand(expo, p) && x * (2.0 * expo) == (expo - 1.0) + r
    ensures Thrust(expo, x) == p
  {
    // complete the square: (2 e x + (1 - e))^2 = r^2
    var y := 2.0 * expo * x + (1.0 - expo);
    assert y == r;
    assert y * y == 4.0 * expo * Thrust(expo, x) + (1.0 - expo) * (1.0 - expo);
    assert 4.0 * expo * (Thrust(expo, x) - p) == 0.0;
  }

  /** Thrust grows strictly with the command on [0, 1]. */
  lemma ThrustStrictlyIncreasing(expo: real, x: real, y: real)
    requires CurveEnabled(expo) && 0.0 <= x < y <= 1.0
    ensures Thrust(expo, x) < Thrust(expo, y)
  {
    var z := x + y;
    var slope := (1.0 - expo) + expo * z;
    assert Thrust(expo, y) - Thrust(expo, x) == (y - x) * slope;
    SlopePositive(expo, z);
    ProductPositive(y - x, slope);
  }

  lemma SlopePositive(expo: real, z: real)
    requires CurveEnabled(expo) && 0.0 < z < 2.0
    ensures (1.0 - expo) + expo * z > 0.0
  {
    if expo > 0.0 {
      ProductPositive(expo, z);
    } else {
      var a, b := -expo, 2.0 - z;
      ProductPositive(a, b);
      assert expo * z == a * b - 2.0 * a;
    }
  }

  /** The floor adds the minimum to a non-zero throttle and shrinks the rest of the range to fit. */
  lemma FlooredIs(throttleMin: int, throttle: real)
    requires 0 <= throttleMin <= 20 && throttle != 0.0
    ensures Abs(Floored(throttleMin, throttle)) == throttleMin as real + Abs(throttle) * ((100.0 - throttleMin as real) / 100.0)
    ensures Floored(throttleMin, throttle) < 0.0 <==> throttle < 0.0
    ensures Floored(throttleMin, throttle) != 0.0
    ensures Floored(throttleMin, -throttle) == -Floored(throttleMin, throttle)
  {
    var low := throttleMin as real;
    var k := (100.0 - low) / 100.0;
    var scaled := throttle * k;
    Negated(throttle, k);
    ProductPositive(Abs(throttle), k);
    assert throttleMin == 0 ==> k == 1.0;
    LiftIs(low, throttle, k, scaled);
    LiftIs(low, -throttle, k, -scaled);
    assert Abs(throttle) * k == Abs(scaled);
  }

  /** With the curve off the map is linear on either side of zero, from the minimum up to full throttle. */
  lemma CurveOffIsLinear(throttleMin: int, expo: real, sqrt: real -> real, throttle: real)
    requires expo == 0.0 || expo < -1.0 || expo > 1.0
    requires 0 <= throttleMin <= 20
    ensures throttle == 0.0 ==> Scaled(throttleMin, expo, sqrt, throttle) == 0.0
    ensures throttle > 0.0 ==>
              Scaled(throttleMin, expo, sqrt, throttle) == throttleMin as real + throttle * ((100.0 - throttleMin as real) / 100.0)
    ensures throttle < 0.0 ==>
              Scaled(throttleMin, expo, sqrt, throttle) == -(throttleMin as real) + throttle * ((100.0 - throttleMin as real) / 100.0)
    ensures throttleMin == 0 ==> Scaled(throttleMin, expo, sqrt, throttle) == throttle
    ensures Abs(throttle) == 100.0 ==> Scaled(throttleMin, expo, sqrt, throttle) == throttle
  {
    if throttle != 0.0 {
      FlooredIs(throttleMin, throttle);
      assert (-throttle) * ((100.0 - throttleMin as real) / 100.0) == -(throttle * ((100.0 - throttleMin as real) / 100.0));
    }
  }

  /** The scaled throttle inverts the thrust curve: as a fraction it keeps the sign of the input, lies
      in [-1, 1], and its thrust is the input's share of the range above the minimum. */
  lemma ScaledInvertsThrust(throttleMin: int, expo: real, sqrt: real -> real, throttle: real)
    requires IsSqrt(sqrt) && expo != 0.0 && -1.0 <= expo <= 1.0 && 0 <= throttleMin <= 20
    requires -100.0 <= throttle <= 100.0 && throttle != 0.0
    ensures var x := Scaled(throttleMin, expo, sqrt, throttle) / 100.0;
            && Abs(x) <= 1.0
            && Thrust(expo, Abs(x)) == (throttleMin as real + Abs(throttle) * ((100.0 - throttleMin as real) / 100.0)) / 100.0
            && (x < 0.0 <==> throttle < 0.0)
  {
    FlooredInRange(throttleMin, throttle);
    FlooredIs(throttleMin, throttle);
    var f := Floored(throttleMin, throttle);
    var p := Abs(f) / 100.0;
    CurveRootSolves(expo, sqrt, p);
    var x := CurveRoot(expo, sqrt, p);
    assert Abs(Constrain(f, -100.0, 100.0) / 100.0) == p;
    assert x != 0.0;
    var sign := if f < 0.0 then -1.0 else 1.0;
    var num := (expo - 1.0) + SafeSqrt(sqrt, Radicand(expo, p));
    assert Scaled(throttleMin, expo, sqrt, throttle) == 100.0 * sign * num / (2.0 * expo);
    Rescale(sign, num, 2.0 * expo);
  }

  lemma Rescale(sign: real, num: real, k: real)
    requires k != 0.0 && (sign == 1.0 || sign == -1.0)
    ensures 100.0 * sign * num / k == sign * (num / k) * 100.0
  {
  }

  lemma LiftInRange(low: real, t: real)
    requires 0.0 <= low <= 20.0 && 0.0 < t <= 100.0
    ensures low < Lift(low, t) <= 100.0
    ensures Lift(low, -t) == -Lift(low, t)
  {
    var k := (100.0 - low) / 100.0;
    ProductPositive(t, k);
    ProductBetween(100.0 * k, t / 100.0);
    assert 100.0 * k * (t / 100.0) == t * k;
    assert (-t) * k == -(t * k);
  }

  lemma FlooredInRange(throttleMin: int, throttle: real)
    requires 0 <= throttleMin <= 20 && -100.0 <= throttle <= 100.0
    ensures var f := Floored(throttleMin, throttle);
            && -100.0 <= f <= 100.0
            && (f < 0.0 <==> throttle < 0.0) && (f == 0.0 <==> throttle == 0.0)
  {
    if throttle != 0.0 {
      LiftInRange(throttleMin as real, Abs(throttle));
    }
  }

  lemma Negated(t: real, k: real)
    ensures (-t) * k == -(t * k)
  {
  }

  lemma Distribute(t: real, s: real, k: real)
    ensures (t - s) * k == t * k - s * k
  {
  }

  lemma LiftIs(low: real, t: real, k: real, scaled: real)
    requires k == (100.0 - low) / 100.0 && scaled == t * k
    ensures Lift(low, t) == if t < 0.0 then -low + scaled else low + scaled
  {
  }

  lemma LiftStrictlyIncreasing(low: real, s: real, t: real)
    requires 0.0 <= low <= 20.0 && s < t
    ensures Lift(low, s) < Lift(low, t)
  {
    var k := (100.0 - low) / 100.0;
    var d := t - s;
    assert s * k < t * k by {
      ProductPositive(d, k);
      Distribute(t, s, k);
    }
    LiftIs(low, s, k, s * k);
    LiftIs(low, t, k, t * k);
  }

  lemma FlooredStrictlyIncreasing(throttleMin: int, s: real, t: real)
    requires 0 <= throttleMin <= 20 && -100.0 <= s < t <= 100.0
    ensures Floored(throttleMin, s) < Floored(throttleMin, t)
  {
    FlooredInRange(throttleMin, s);
    FlooredInRange(throttleMin, t);
    LiftStrictlyIncreasing(throttleMin as real, s, t);
  }

  lemma ThrustReflectsOrder(expo: real, x: real, y: real)
    requires CurveEnabled(expo) && 0.0 <= x <= 1.0 && 0.0 <= y <= 1.0 && Thrust(expo, x) < Thrust(expo, y)
    ensures x < y
  {
    if y < x {
      ThrustStrictlyIncreasing(expo, y, x);
    }
  }

  /** The whole map is strictly increasing and stays within +-100, curve on or off. */
  lemma ScaledStrictlyIncreasing(throttleMin: int, expo: real, sqrt: real -> real, s: real, t: real)
    requires IsSqrt(sqrt) && 0 <= throttleMin <= 20
    requires -100.0 <= s < t <= 100.0
    ensures Scaled(throttleMin, expo, sqrt, s) < Scaled(throttleMin, expo, sqrt, t)
    ensures -100.0 <= Scaled(throttleMin, expo, sqrt, s) && Scaled(throttleMin, expo, sqrt, t) <= 100.0
  {
    ScaledInRange(throttleMin, expo, sqrt, s);
    ScaledInRange(throttleMin, expo, sqrt, t);
    if CurveEnabled(expo) {
      CurvedStrictlyIncreasing(throttleMin, expo, sqrt, s, t);
    } else {
      FlooredStrictlyIncreasing(throttleMin, s, t);
    }
  }

  lemma CurvedStrictlyIncreasing(throttleMin: int, expo: real, sqrt: real -> real, s: real, t: real)
    requires IsSqrt(sqrt) && CurveEnabled(expo) && 0 <= throttleMin <= 20
    requires -100.0 <= s < t <= 100.0
    ensures Scaled(throttleMin, expo, sqrt, s) < Scaled(throttleMin, expo, sqrt, t)
  {
    var x := Scaled(throttleMin, expo, sqrt, s) / 100.0;
    var y := Scaled(throttleMin, expo, sqrt, t) / 100.0;
    FlooredStrictlyIncreasing(throttleMin, s, t);
    FlooredInRange(throttleMin, s);
    FlooredInRange(throttleMin, t);
    if s != 0.0 { FlooredIs(throttleMin, s); ScaledInvertsThrust(throttleMin, expo, sqrt, s); }
    if t != 0.0 { FlooredIs(throttleMin, t); ScaledInvertsThrust(throttleMin, expo, sqrt, t); }
    if s > 0.0 {
      ThrustReflectsOrder(expo, x, y);
    } else if t < 0.0 {
      ThrustReflectsOrder(expo, -y, -x);
    } else if s == 0.0 {
      assert y > 0.0 by { assert Thrust(expo, 0.0) == 0.0; }
    }
  }

  /** Requests beyond full throttle come out as full throttle while the curve is on. */
  lemma CurveSaturates(throttleMin: int, expo: real, sqrt: real -> real, throttle: real)
    requires IsSqrt(sqrt) && CurveEnabled(expo) && 0 <= throttleMin <= 20 && throttle >= 100.0
    ensures Scaled(throttleMin, expo, sqrt, throttle) == 100.0 && Scaled(throttleMin, expo, sqrt, -throttle) == -100.0
  {
    FlooredIs(throttleMin, throttle);
    BeyondFull(throttleMin as real, throttle);
    CurveRootSolves(expo, sqrt, 1.0);
    var x := CurveRoot(expo, sqrt, 1.0);
    if x < 1.0 {
      ThrustStrictlyIncreasing(expo, x, 1.0);
    }
    Rescale(1.0, (expo - 1.0) + SafeSqrt(sqrt, Radicand(expo, 1.0)), 2.0 * expo);
    ScaledIsOdd(throttleMin, expo, sqrt, throttle);
  }

  lemma BeyondFull(low: real, t: real)
    requires 0.0 <= low <= 20.0 && t >= 100.0
    ensures low + t * ((100.0 - low) / 100.0) >= 100.0
  {
    var k := (100.0 - low) / 100.0;
    Distribute(t, 100.0, k);
    ProductNonNegative(t - 100.0, k);
    assert 100.0 * k == 100.0 - low;
  }

  lemma ProductNonNegative(a: real, b: real)
    requires a >= 0.0 && b >= 0.0
    ensures a * b >= 0.0
  {
  }

  /** Forwards and reverse mirror each other. */
  lemma ScaledIsOdd(throttleMin: int, expo: real, sqrt: real -> real, throttle: real)
    requires 0 <= throttleMin <= 20
    ensures Scaled(throttleMin, expo, sqrt, -throttle) == -Scaled(throttleMin, expo, sqrt, throttle)
  {
    if throttle != 0.0 {
      FlooredIs(throttleMin, throttle);
      if CurveEnabled(expo) {
        CurveIsOdd(expo, sqrt, Floored(throttleMin, throttle));
      }
    }
  }

  lemma CurveIsOdd(expo: real, sqrt: real -> real, floored: real)
    requires expo != 0.0 && floored != 0.0
    ensures CurveValue(expo, sqrt, -floored) == -CurveValue(expo, sqrt, floored)
  {
    var p := Abs(Constrain(floored, -100.0, 100.0) / 100.0);
    assert p == Abs(Constrain(-floored, -100.0, 100.0) / 100.0);
    var num := (expo - 1.0) + SafeSqrt(sqrt, Radicand(expo, p));
    Rescale(1.0, num, 2.0 * expo);
    Rescale(-1.0, num, 2.0 * expo);
  }

  /** Within +-100 for every input in range, curve on or off. */
  lemma ScaledInRange(throttleMin: int, expo: real, sqrt: real -> real, throttle: real)
    requires IsSqrt(sqrt) && 0 <= throttleMin <= 20 && -100.0 <= throttle <= 100.0
    ensures -100.0 <= Scaled(throttleMin, expo, sqrt, throttle) <= 100.0
  {
    FlooredInRange(throttleMin, throttle);
    if CurveEnabled(expo) && throttle != 0.0 {
      ScaledInvertsThrust(throttleMin, expo, sqrt, throttle);
    }
  }
}
