/** The slew limiter over many iterations. */
module SlewRuns {
  import opened Numeric
  import opened MotorsModel
  import opened MotorsObject

  /** Throttle after n armed iterations that each re-set the same target. */
  function After(slewRate: int, prev: real, target: real, dt: real, n: nat): real {
    if n == 0 then prev else SlewLimited(slewRate, After(slewRate, prev, target, dt, n - 1), target, dt)
  }

  /** `start` moved towards `goal` by at most `reach`. */
  function Towards(start: real, goal: real, reach: real): real {
    if goal >= start then start + Min(goal - start, reach) else start - Min(start - goal, reach)
  }

  /** n slew steps. */
  function Reach(step: real, n: nat): real {
    if n == 0 then 0.0 else Reach(step, n - 1) + step
  }

  lemma {:induction false} ReachIsProduct(step: real, n: nat)
    requires step >= 1.0
    ensures Reach(step, n) == n as real * step >= 0.0
  {
    if n > 0 {
      ReachIsProduct(step, n - 1);
      assert ((n - 1) as real + 1.0) * step == (n - 1) as real * step + step;
    }
  }

  /** n iterations move the throttle by exactly min(distance, n steps) towards the target. */
  lemma {:induction false} MovesExactly(slewRate: int, prev: real, target: real, dt: real, n: nat)
    requires slewRate > 0
    ensures After(slewRate, prev, target, dt, n) == Towards(prev, target, Reach(SlewStep(slewRate, dt), n))
  {
    if n > 0 {
      MovesExactly(slewRate, prev, target, dt, n - 1);
      var step := SlewStep(slewRate, dt);
      ReachIsProduct(step, n - 1);
      TowardsStep(prev, target, Reach(step, n - 1), step);
    }
  }

  lemma NonNegativeProduct(a: real, b: real)
    requires a >= 0.0 && b >= 0.0
    ensures a * b >= 0.0
  {
  }

  lemma TowardsStep(prev: real, target: real, done: real, step: real)
    requires done >= 0.0 && step >= 1.0
    ensures var mid := Towards(prev, target, done);
            Constrain(target, mid - step, mid + step) == Towards(prev, target, done + step)
  {
  }

  /** The target is reached after exactly ceil(distance / step) iterations, not before, and is
      never overshot. */
  lemma ReachedExactlyWhen(slewRate: int, prev: real, target: real, dt: real, n: nat)
    requires slewRate > 0
    ensures After(slewRate, prev, target, dt, n) == target <==> n >= Ceiling(Over(Abs(target - prev), SlewStep(slewRate, dt)))
    ensures prev <= target ==> prev <= After(slewRate, prev, target, dt, n) <= target
    ensures prev >= target ==> prev >= After(slewRate, prev, target, dt, n) >= target
  {
    var step := SlewStep(slewRate, dt);
    MovesExactly(slewRate, prev, target, dt, n);
    ReachIsProduct(step, n);
    var distance := Abs(target - prev);
    CeilingBound(distance, step, n);
  }

  function Ceiling(x: real): int {
    -((-x).Floor)
  }

  lemma CeilingBound(distance: real, step: real, n: nat)
    requires step >= 1.0
    ensures n >= Ceiling(Over(distance, step)) <==> n as real * step >= distance
  {
    var q := Over(distance, step);
    OverBack(distance, step);
    var r := n as real;
    assert n >= Ceiling(q) <==> r >= q;
    QuotientOrder(r, q, step);
  }

  lemma QuotientOrder(r: real, q: real, step: real)
    requires step >= 1.0
    ensures r >= q <==> r * step >= q * step
  {
    if r >= q {
      NonNegativeProduct(r - q, step);
    } else {
      StrictProduct(q - r, step);
    }
  }

  lemma StrictProduct(d: real, step: real)
    requires d > 0.0 && step >= 1.0
    ensures d * step > 0.0
  {
  }

  /** One iteration, then n more. */
  lemma {:induction false} FirstThenAfter(slewRate: int, prev: real, target: real, dt: real, n: nat)
    ensures After(slewRate, SlewLimited(slewRate, prev, target, dt), target, dt, n) == After(slewRate, prev, target, dt, n + 1)
  {
    if n > 0 {
      FirstThenAfter(slewRate, prev, target, dt, n - 1);
    }
  }

  /** The throttle after n iterations that each set `target` and put it out. The first request is
      clamped to the configured maximum, the later ones to the sane one. */
  function Held(slewRate: int, throttleMax: int, prev: real, target: real, dt: real, n: nat): real {
    if n == 0 then prev
    else After(slewRate, SlewLimited(slewRate, prev, ClampThrottle(throttleMax, target), dt),
               ClampThrottle(SaneMax(throttleMax), target), dt, n - 1)
  }

  /** The main loop re-sets the same target before each armed output. Under a sane maximum that is the
      movement of `After` from the first iteration on. */
  method HoldTarget(m: MotorsUGV, target: real, groundSpeed: real, dt: real, n: nat, sqrt: real -> real)
    requires m.Valid()
    modifies m
    ensures m.Valid()
    ensures m.throttlePrev == Held(m.slewRate, old(m.throttleMax), old(m.throttlePrev), target, dt, n)
    ensures 30 <= old(m.throttleMax) <= 100 ==>
              m.throttlePrev == After(m.slewRate, old(m.throttlePrev), ClampThrottle(old(m.throttleMax), target), dt, n)
    ensures n > 0 ==> m.throttle == m.throttlePrev
  {
    for i := 0 to n
      invariant m.Valid() && m.throttleMax == if i == 0 then old(m.throttleMax) else SaneMax(old(m.throttleMax))
      invariant m.throttlePrev == Held(m.slewRate, old(m.throttleMax), old(m.throttlePrev), target, dt, i)
      invariant i > 0 ==> m.throttle == m.throttlePrev
    {
      m.SetThrottle(true, target);
      m.Output(true, true, groundSpeed, dt, sqrt);
    }
    if n > 0 {
      FirstThenAfter(m.slewRate, old(m.throttlePrev), ClampThrottle(old(m.throttleMax), target), dt, n - 1);
    }
  }

  /* ---- all runs ---- */

  /** The throttle part of the motor object. */
  datatype Drive = Drive(throttle: real, prev: real, throttleMax: int)

  datatype Event =
    | SetThrottleEvent(softArmed: bool, request: real)
    | OutputEvent(softArmed: bool, armed: bool, groundSpeed: real, dt: real)

  function Step(slewRate: int, d: Drive, e: Event): Drive {
    match e
    case SetThrottleEvent(softArmed, request) =>
      if softArmed then d.(throttle := ClampThrottle(d.throttleMax, request)) else d
    case OutputEvent(softArmed, _, _, dt) =>
      var t := SlewLimited(slewRate, d.prev, if softArmed then d.throttle else 0.0, dt);
      Drive(t, t, SaneMax(d.throttleMax))
  }

  function Run(slewRate: int, start: Drive, es: seq<Event>): Drive {
    if es == [] then start
    else Step(slewRate, Run(slewRate, start, es[..|es| - 1]), es[|es| - 1])
  }

  /** The throttles put out by the outputs of a run, and the slew step allowed to each. */
  function Outputs(slewRate: int, start: Drive, es: seq<Event>): seq<real> {
    if es == [] then []
    else
      var before := Outputs(slewRate, start, es[..|es| - 1]);
      if es[|es| - 1].OutputEvent? then before + [Run(slewRate, start, es).throttle] else before
  }

  function SlewSteps(slewRate: int, es: seq<Event>): seq<real> {
    if es == [] then []
    else
      var before := SlewSteps(slewRate, es[..|es| - 1]);
      if es[|es| - 1].OutputEvent? then before + [SlewStep(slewRate, es[|es| - 1].dt)] else before
  }

  function DriveOf(m: MotorsUGV): Drive
    reads m
  {
    Drive(m.throttle, m.throttlePrev, m.throttleMax)
  }

  /** The motor object taken through any run of requests and outputs. */
  method RunMotors(m: MotorsUGV, es: seq<Event>, sqrt: real -> real) returns (outputs: seq<real>)
    requires m.Valid()
    modifies m
    ensures m.Valid()
    ensures DriveOf(m) == Run(m.slewRate, old(DriveOf(m)), es)
    ensures outputs == Outputs(m.slewRate, old(DriveOf(m)), es)
  {
    outputs := [];
    for n := 0 to |es|
      invariant m.Valid()
      invariant DriveOf(m) == Run(m.slewRate, old(DriveOf(m)), es[..n])
      invariant outputs == Outputs(m.slewRate, old(DriveOf(m)), es[..n])
    {
      assert es[..n + 1][..n] == es[..n];
      match es[n] {
        case SetThrottleEvent(softArmed, request) => m.SetThrottle(softArmed, request);
        case OutputEvent(softArmed, armed, groundSpeed, dt) =>
          m.Output(softArmed, armed, groundSpeed, dt, sqrt);
          outputs := outputs + [m.throttle];
      }
    }
    assert es[..|es|] == es;
  }

  /** The output before the n-th one: the remembered throttle if there is none. */
  function OutputBefore(start: Drive, outputs: seq<real>, n: nat): real
    requires n <= |outputs|
  {
    if n == 0 then start.prev else outputs[n - 1]
  }

  lemma {:induction false} LastOutputRemembered(slewRate: int, start: Drive, es: seq<Event>)
    ensures var outputs := Outputs(slewRate, start, es);
            Run(slewRate, start, es).prev == OutputBefore(start, outputs, |outputs|)
  {
    if es != [] {
      LastOutputRemembered(slewRate, start, es[..|es| - 1]);
    }
  }

  /** Each output is within its step of the one before. */
  ghost predicate WithinSteps(start: Drive, outputs: seq<real>, steps: seq<real>) {
    && |outputs| == |steps|
    && forall n :: 0 <= n < |outputs| ==> Abs(outputs[n] - OutputBefore(start, outputs, n)) <= steps[n]
  }

  lemma OneMoreWithinStep(start: Drive, outputs: seq<real>, steps: seq<real>, output: real, step: real)
    requires WithinSteps(start, outputs, steps)
    requires Abs(output - OutputBefore(start, outputs, |outputs|)) <= step
    ensures WithinSteps(start, outputs + [output], steps + [step])
  {
    var all := outputs + [output];
    forall n | 0 <= n < |all| ensures Abs(all[n] - OutputBefore(start, all, n)) <= (steps + [step])[n] {
      assert OutputBefore(start, all, n) == OutputBefore(start, outputs, n);
    }
  }

  /** In every run, whatever was requested and armed in between, each output differs from the one
      before it by at most one slew step. */
  lemma {:induction false} OutputsDifferByOneStep(slewRate: int, start: Drive, es: seq<Event>)
    requires slewRate > 0
    ensures WithinSteps(start, Outputs(slewRate, start, es), SlewSteps(slewRate, es))
  {
    if es != [] {
      var p := es[..|es| - 1];
      OutputsDifferByOneStep(slewRate, start, p);
      LastOutputRemembered(slewRate, start, p);
      if es[|es| - 1].OutputEvent? {
        var e := es[|es| - 1];
        OneOutputWithinStep(slewRate, Run(slewRate, start, p), e);
        OneMoreWithinStep(start, Outputs(slewRate, start, p), SlewSteps(slewRate, p), Run(slewRate, start, es).throttle, SlewStep(slewRate, e.dt));
      }
    }
  }

  lemma OneOutputWithinStep(slewRate: int, d: Drive, e: Event)
    requires slewRate > 0 && e.OutputEvent?
    ensures Abs(Step(slewRate, d, e).throttle - d.prev) <= SlewStep(slewRate, e.dt)
  {
  }

  /** A motor object as constructed. */
  function AtRest(throttleMax: int): Drive {
    Drive(0.0, 0.0, throttleMax)
  }

  ghost predicate WithinRange(d: Drive) {
    Abs(d.throttle) <= 100.0 && Abs(d.prev) <= 100.0
  }

  lemma {:induction false} RunKeepsRange(slewRate: int, throttleMax: int, es: seq<Event>)
    requires -100 <= throttleMax <= 100
    ensures var d := Run(slewRate, AtRest(throttleMax), es); WithinRange(d) && -100 <= d.throttleMax <= 100
  {
    if es != [] {
      RunKeepsRange(slewRate, throttleMax, es[..|es| - 1]);
    }
  }

  /** A request beyond a bad maximum, put out at once. */
  function Overdrive(bound: real, dt: real): seq<Event> {
    [SetThrottleEvent(true, bound + 1.0), OutputEvent(true, true, 0.0, dt)]
  }

  lemma OverdriveReaches(slewRate: int, throttleMax: int, dt: real)
    requires throttleMax < -100 || throttleMax > 100
    ensures var bound := Abs(throttleMax as real);
            Abs(Run(slewRate, AtRest(throttleMax), Overdrive(bound, dt)).prev)
            == if slewRate > 0 then Min(bound, SlewStep(slewRate, dt)) else bound
  {
    var bound := Abs(throttleMax as real);
    var es := Overdrive(bound, dt);
    assert es[..1] == [es[0]] && [es[0]][..0] == [];
    assert Run(slewRate, AtRest(throttleMax), [es[0]]) == Step(slewRate, AtRest(throttleMax), es[0]);
  }

  /** The throttle put out by the last output iteration stays within +-100 in every run exactly when
      the configured maximum already does: the sanity check comes only with the first output. */
  lemma RangeKeptExactlyWhen(slewRate: int, throttleMax: int)
    ensures (forall es :: Abs(Run(slewRate, AtRest(throttleMax), es).prev) <= 100.0) <==> -100 <= throttleMax <= 100
  {
    if -100 <= throttleMax <= 100 {
      forall es ensures Abs(Run(slewRate, AtRest(throttleMax), es).prev) <= 100.0 {
        RunKeepsRange(slewRate, throttleMax, es);
      }
    } else {
      var bound := Abs(throttleMax as real);
      OverdriveReaches(slewRate, throttleMax, bound);
      if slewRate > 0 {
        StepAtLeast(slewRate, bound);
      }
    }
  }

  ghost predicate LoopTimesWithin(es: seq<Event>, longest: real) {
    forall n :: 0 <= n < |es| && es[n].OutputEvent? ==> es[n].dt <= longest
  }

  ghost predicate KeepsRangeWithin(slewRate: int, throttleMax: int, longest: real) {
    forall es :: LoopTimesWithin(es, longest) ==> Abs(Run(slewRate, AtRest(throttleMax), es).prev) <= 100.0
  }

  /** With loop times up to `longest` a bad maximum is harmless exactly when one slew step cannot
      leave the range: the first output then sanitises the maximum in time. */
  lemma RangeKeptForLoopTimesExactlyWhen(slewRate: int, throttleMax: int, longest: real)
    ensures KeepsRangeWithin(slewRate, throttleMax, longest) <==>
            -100 <= throttleMax <= 100 || (slewRate > 0 && SlewStep(slewRate, longest) <= 100.0)
  {
    if -100 <= throttleMax <= 100 {
      forall es | LoopTimesWithin(es, longest) ensures Abs(Run(slewRate, AtRest(throttleMax), es).prev) <= 100.0 {
        RunKeepsRange(slewRate, throttleMax, es);
      }
    } else if slewRate > 0 && SlewStep(slewRate, longest) <= 100.0 {
      forall es | LoopTimesWithin(es, longest) ensures Abs(Run(slewRate, AtRest(throttleMax), es).prev) <= 100.0 {
        ShortStepsKeepRange(slewRate, throttleMax, longest, es);
      }
    } else {
      var es := Overdrive(Abs(throttleMax as real), longest);
      assert LoopTimesWithin(es, longest);
      OverdriveReaches(slewRate, throttleMax, longest);
    }
  }

  lemma {:induction false} ShortStepsKeepRange(slewRate: int, throttleMax: int, longest: real, es: seq<Event>)
    requires slewRate > 0 && SlewStep(slewRate, longest) <= 100.0 && LoopTimesWithin(es, longest)
    ensures var d := Run(slewRate, AtRest(throttleMax), es);
            if Outputs(slewRate, AtRest(throttleMax), es) == [] then d.prev == 0.0
            else WithinRange(d) && 30 <= d.throttleMax <= 100
  {
    if es != [] {
      ShortStepsKeepRange(slewRate, throttleMax, longest, es[..|es| - 1]);
      var e := es[|es| - 1];
      if e.OutputEvent? {
        StepGrowsWithTime(slewRate, e.dt, longest);
        OneOutputWithinStep(slewRate, Run(slewRate, AtRest(throttleMax), es[..|es| - 1]), e);
      }
    }
  }

  lemma StepGrowsWithTime(slewRate: int, dt: real, longest: real)
    requires slewRate > 0 && dt <= longest
    ensures SlewStep(slewRate, dt) <= SlewStep(slewRate, longest)
  {
    NonNegativeProduct(slewRate as real, longest - dt);
    assert slewRate as real * (longest - dt) == slewRate as real * longest - slewRate as real * dt;
  }

  lemma StepAtLeast(slewRate: int, dt: real)
    requires slewRate > 0 && dt >= 0.0
    ensures SlewStep(slewRate, dt) >= dt
  {
    NonNegativeProduct((slewRate - 1) as real, dt);
    assert slewRate as real * dt == (slewRate - 1) as real * dt + dt;
  }
}
