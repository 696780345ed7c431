/** The alpha label of the gate: its construction, what it minimises, and the reachability filter. */
module GateTarget {
  import opened Numeric

  const GAP_FLOOR: real := 0.000000000001

  /** One stable or unstable row: the two controllers' outputs and the target. */
  datatype Sample = Sample(target: real, yPid: real, yMl: real)

  function MinGap(minMlPidGap: real): real { Max(minMlPidGap, GAP_FLOOR) }

  predicate StableGap(s: Sample, minMlPidGap: real) {
    Abs(s.yMl - s.yPid) >= MinGap(minMlPidGap)
  }

  function Fused(s: Sample, alpha: real): real { s.yPid + alpha * (s.yMl - s.yPid) }

  function FusedError(s: Sample, alpha: real): real { Abs(s.target - Fused(s, alpha)) }

  /** The ratio that would hit the target. */
  function Ratio(s: Sample): real
    requires s.yMl != s.yPid
  {
    (s.target - s.yPid) / (s.yMl - s.yPid)
  }

  /** The stored label of align_pair, and of construct_gate_target before the cap. */
  function UncappedAlpha(s: Sample): real
    requires s.yMl != s.yPid
  {
    Constrain(Ratio(s), 0.0, 1.0)
  }

  function AlphaStar(s: Sample, minMlPidGap: real, cap: real): real {
    if !StableGap(s, minMlPidGap) then 0.0
    else
      var a := UncappedAlpha(s);
      if cap < 1.0 then Constrain(a, 0.0, cap) else a
  }

  /** A row is stable when its controllers differ by the configured gap and by the floor of it. */
  lemma StableExactlyWhen(s: Sample, minMlPidGap: real)
    ensures StableGap(s, minMlPidGap) <==>
            (s.yMl - s.yPid >= minMlPidGap || s.yPid - s.yMl >= minMlPidGap)
            && (s.yMl - s.yPid >= 0.000000000001 || s.yPid - s.yMl >= 0.000000000001)
  {
  }

  /** The error of the blend of the two controllers. */
  lemma FusedErrorIs(s: Sample, alpha: real)
    ensures FusedError(s, alpha) == Abs(s.target - ((1.0 - alpha) * s.yPid + alpha * s.yMl))
  {
    assert alpha * (s.yMl - s.yPid) == alpha * s.yMl - alpha * s.yPid;
  }

  lemma ScaleOrder(a: real, b: real, g: real)
    requires a < b
    ensures g > 0.0 ==> a * g < b * g
    ensures g < 0.0 ==> a * g > b * g
  {
    var d := b - a;
    if g > 0.0 {
      ProductPositive(d, g);
      assert d * g == b * g - a * g;
    } else if g < 0.0 {
      ProductPositive(d, -g);
      assert d * (-g) == a * g - b * g;
    }
  }

  /** Fused output moves with alpha in the direction of the gap. */
  lemma FusedOrder(s: Sample, a: real, b: real)
    ensures a < b && s.yMl > s.yPid ==> Fused(s, a) < Fused(s, b)
    ensures a < b && s.yMl < s.yPid ==> Fused(s, a) > Fused(s, b)
  {
    if a < b {
      ScaleOrder(a, b, s.yMl - s.yPid);
    }
  }

  lemma QuotientTimes(x: real, g: real)
    requires g != 0.0
    ensures x / g * g == x
  {
  }

  lemma FusedHitsTarget(s: Sample)
    requires s.yMl != s.yPid
    ensures Fused(s, Ratio(s)) == s.target
    ensures Fused(s, 0.0) == s.yPid
  {
    QuotientTimes(s.target - s.yPid, s.yMl - s.yPid);
  }

  function ReachLow(s: Sample, cap: real): real { Min(s.yPid, Fused(s, cap)) }

  function ReachHigh(s: Sample, cap: real): real { Max(s.yPid, Fused(s, cap)) }

  /** The label steers the fused output to the reachable output nearest the target. */
  lemma FusedIsClampedTarget(s: Sample, minMlPidGap: real, cap: real)
    requires StableGap(s, minMlPidGap) && 0.0 < cap <= 1.0
    ensures 0.0 <= AlphaStar(s, minMlPidGap, cap) <= cap
    ensures Fused(s, AlphaStar(s, minMlPidGap, cap)) == Constrain(s.target, ReachLow(s, cap), ReachHigh(s, cap))
  {
    var r := Ratio(s);
    FusedHitsTarget(s);
    FusedOrder(s, 0.0, cap);
    FusedOrder(s, r, 0.0);
    FusedOrder(s, 0.0, r);
    FusedOrder(s, r, cap);
    FusedOrder(s, cap, r);
    assert AlphaStar(s, minMlPidGap, cap) == Constrain(r, 0.0, cap);
  }

  lemma FusedWithinReach(s: Sample, cap: real, a: real)
    requires 0.0 <= a <= cap
    ensures ReachLow(s, cap) <= Fused(s, a) <= ReachHigh(s, cap)
  {
    FusedOrder(s, 0.0, a);
    FusedOrder(s, a, cap);
    assert Fused(s, 0.0) == s.yPid;
    if s.yMl == s.yPid {
      assert a * (s.yMl - s.yPid) == 0.0;
    }
  }

  lemma NearestInInterval(t: real, low: real, high: real, x: real)
    requires low <= x <= high
    ensures Abs(t - Constrain(t, low, high)) <= Abs(t - x)
    ensures Abs(t - x) == Abs(t - Constrain(t, low, high)) ==> x == Constrain(t, low, high)
  {
  }

  /** On a stable row, alpha_star is the one point of [0, cap] with the smallest fused error. */
  lemma AlphaStarIsTheMinimiser(s: Sample, minMlPidGap: real, cap: real, a: real)
    requires StableGap(s, minMlPidGap) && 0.0 < cap <= 1.0 && 0.0 <= a <= cap
    ensures 0.0 <= AlphaStar(s, minMlPidGap, cap) <= cap
    ensures FusedError(s, AlphaStar(s, minMlPidGap, cap)) <= FusedError(s, a)
    ensures FusedError(s, a) == FusedError(s, AlphaStar(s, minMlPidGap, cap)) <==> a == AlphaStar(s, minMlPidGap, cap)
  {
    var star := AlphaStar(s, minMlPidGap, cap);
    FusedIsClampedTarget(s, minMlPidGap, cap);
    FusedWithinReach(s, cap, a);
    NearestInInterval(s.target, ReachLow(s, cap), ReachHigh(s, cap), Fused(s, a));
    FusedOrder(s, a, star);
    FusedOrder(s, star, a);
  }

  /** No alpha in [0, cap] has a smaller fused error. */
  ghost predicate IsBest(s: Sample, alpha: real, cap: real) {
    0.0 <= alpha <= cap && forall a :: 0.0 <= a <= cap ==> FusedError(s, alpha) <= FusedError(s, a)
  }

  lemma AlphaStarIsBest(s: Sample, minMlPidGap: real, cap: real)
    requires StableGap(s, minMlPidGap) && 0.0 < cap <= 1.0
    ensures IsBest(s, AlphaStar(s, minMlPidGap, cap), cap)
  {
    forall a | 0.0 <= a <= cap ensures FusedError(s, AlphaStar(s, minMlPidGap, cap)) <= FusedError(s, a) {
      AlphaStarIsTheMinimiser(s, minMlPidGap, cap, a);
    }
    AlphaStarIsTheMinimiser(s, minMlPidGap, cap, 0.0);
  }

  /* ---- Huber loss ---- */

  function Huber(error: real): real {
    if Abs(error) <= 1.0 then 0.5 * (error * error) else Abs(error) - 0.5
  }

  function FusedHuberLoss(s: Sample, alpha: real, l2: real): real {
    var loss := Huber(s.target - Fused(s, alpha));
    if l2 > 0.0 then loss + l2 * (alpha * alpha) else loss
  }

  /** The loss as the network computes it from a fit target: label, target and the two controllers, by
      position. */
  function LossOfTarget(y: seq<real>, alpha: real, l2: real): real
    requires |y| == 4
  {
    FusedHuberLoss(Sample(y[1], y[2], y[3]), alpha, l2)
  }

  /** The label carried by a fit target lies in [0, cap] and has the smallest unpenalised loss there. */
  ghost predicate TrainsOnLabel(y: seq<real>, cap: real) {
    && |y| == 4
    && 0.0 <= y[0] <= cap
    && forall a :: 0.0 <= a <= cap ==> LossOfTarget(y, y[0], 0.0) <= LossOfTarget(y, a, 0.0)
  }

  /** Quadratic up to an error of one, linear beyond, plus the penalty where there is one. */
  lemma LossIs(s: Sample, alpha: real, l2: real)
    ensures var e := FusedError(s, alpha);
            && (l2 <= 0.0 && e <= 1.0 ==> FusedHuberLoss(s, alpha, l2) == e * e / 2.0)
            && (l2 <= 0.0 && e >= 1.0 ==> FusedHuberLoss(s, alpha, l2) == e - 0.5)
            && (l2 > 0.0 ==> FusedHuberLoss(s, alpha, l2) == FusedHuberLoss(s, alpha, 0.0) + l2 * alpha * alpha)
  {
    var d := s.target - Fused(s, alpha);
    assert d * d == Abs(d) * Abs(d);
    assert l2 * alpha * alpha == l2 * (alpha * alpha);
  }

  /** The loss is convex in the error and its slope is the error clipped to [-1, 1]. */
  lemma HuberSlope(x: real, y: real)
    requires x <= y
    ensures (y - x) * Constrain(x, -1.0, 1.0) <= Huber(y) - Huber(x) <= (y - x) * Constrain(y, -1.0, 1.0)
  {
    HuberHalves(x, y);
    HuberHalves(-y, -x);
    assert Huber(-x) == Huber(x) && Huber(-y) == Huber(y);
    assert (y - x) * Constrain(-y, -1.0, 1.0) == -((y - x) * Constrain(y, -1.0, 1.0)) by {
      assert Constrain(-y, -1.0, 1.0) == -Constrain(y, -1.0, 1.0);
    }
  }

  lemma HuberHalves(x: real, y: real)
    requires x <= y
    ensures (y - x) * Constrain(x, -1.0, 1.0) <= Huber(y) - Huber(x)
  {
    var c := Constrain(x, -1.0, 1.0);
    TangentBelow(x, x, c);
    TangentBelow(y, x, c);
  }

  /** The line of slope `c` through the loss at x, where c is x clipped, lies below the loss. */
  lemma TangentBelow(y: real, x: real, c: real)
    requires c == Constrain(x, -1.0, 1.0)
    ensures Huber(y) >= c * y - c * c / 2.0
    ensures Huber(x) == c * x - c * c / 2.0
  {
    if Abs(y) <= 1.0 {
      Square(y - c);
      assert (y - c) * (y - c) == y * y - 2.0 * (c * y) + c * c;
    } else if y > 1.0 {
      Square(1.0 - c);
      assert (1.0 - c) * (1.0 - c) == 1.0 - 2.0 * c + c * c;
      Product(1.0 - c, y - 1.0);
      assert (1.0 - c) * (y - 1.0) == y - 1.0 - c * y + c;
    } else {
      Square(1.0 + c);
      assert (1.0 + c) * (1.0 + c) == 1.0 + 2.0 * c + c * c;
      Product(1.0 + c, -1.0 - y);
      assert (1.0 + c) * (-1.0 - y) == -1.0 - y - c - c * y;
    }
  }

  lemma Square(x: real)
    ensures x * x >= 0.0
  {
  }

  lemma Product(x: real, y: real)
    requires x >= 0.0 && y >= 0.0
    ensures x * y >= 0.0
  {
  }

  /** The Huber loss orders errors as their sizes do. */
  lemma HuberOrder(x: real, y: real)
    ensures Huber(x) <= Huber(y) <==> Abs(x) <= Abs(y)
  {
    SquareOrder(Abs(x), Abs(y));
    SquareOrder(Abs(y), Abs(x));
    SquareOrder(Abs(x), 1.0);
    SquareOrder(Abs(y), 1.0);
    assert x * x == Abs(x) * Abs(x) && y * y == Abs(y) * Abs(y);
  }

  lemma SquareOrder(a: real, b: real)
    requires a >= 0.0 && b >= 0.0
    ensures a <= b <==> a * a <= b * b
  {
    if a < b {
      ProductPositive(b - a, b + a);
      assert (b - a) * (b + a) == b * b - a * a;
    } else if b < a {
      ProductPositive(a - b, a + b);
      assert (a - b) * (a + b) == a * a - b * b;
    }
  }

  /** Without a penalty alpha_star also minimises the training loss. */
  lemma AlphaStarMinimisesLoss(s: Sample, minMlPidGap: real, cap: real, a: real)
    requires StableGap(s, minMlPidGap) && 0.0 < cap <= 1.0 && 0.0 <= a <= cap
    ensures FusedHuberLoss(s, AlphaStar(s, minMlPidGap, cap), 0.0) <= FusedHuberLoss(s, a, 0.0)
  {
    var star := AlphaStar(s, minMlPidGap, cap);
    AlphaStarIsTheMinimiser(s, minMlPidGap, cap, a);
    HuberOrder(s.target - Fused(s, star), s.target - Fused(s, a));
  }

  /** A penalty can only pull the optimum below alpha_star: every larger alpha is strictly worse. */
  lemma PenaltyPullsBelowAlphaStar(s: Sample, minMlPidGap: real, cap: real, a: real, l2: real)
    requires StableGap(s, minMlPidGap) && 0.0 < cap <= 1.0 && l2 > 0.0
    requires AlphaStar(s, minMlPidGap, cap) < a <= cap
    ensures FusedHuberLoss(s, AlphaStar(s, minMlPidGap, cap), l2) < FusedHuberLoss(s, a, l2)
  {
    var star := AlphaStar(s, minMlPidGap, cap);
    assert star >= 0.0 && Abs(s.target - Fused(s, star)) <= Abs(s.target - Fused(s, a)) by {
      FusedIsClampedTarget(s, minMlPidGap, cap);
      AlphaStarIsTheMinimiser(s, minMlPidGap, cap, a);
    }
    LossOrder(s.target - Fused(s, star), s.target - Fused(s, a), star, a, l2);
  }

  lemma LossOrder(x: real, y: real, star: real, a: real, l2: real)
    requires Abs(x) <= Abs(y) && 0.0 <= star < a && l2 > 0.0
    ensures Huber(x) + l2 * (star * star) < Huber(y) + l2 * (a * a)
  {
    HuberOrder(x, y);
    PenaltyGrows(star, a, l2);
  }

  lemma PenaltyGrows(star: real, a: real, l2: real)
    requires 0.0 <= star < a && l2 > 0.0
    ensures l2 * (star * star) < l2 * (a * a)
  {
    SquareOrder(a, star);
    var d := a * a - star * star;
    assert d > 0.0;
    assert l2 * (a * a) == l2 * (star * star) + l2 * d;
    assert l2 * d > 0.0;
  }

  /* ---- reachability ---- */

  /** The reachability filter of train_for_angle. */
  predicate Reachable(s: Sample, margin: real) {
    Min(s.yPid, s.yMl) - margin <= s.target <= Max(s.yPid, s.yMl) + margin
  }

  /** The interval of outputs the gate can produce with alpha in [0, cap]. */
  predicate WithinReach(s: Sample, cap: real, margin: real) {
    ReachLow(s, cap) - margin <= s.target <= ReachHigh(s, cap) + margin
  }

  /** With any cap, the best error is within the margin exactly when the target lies within the
      margin of what the gate can produce. */
  lemma BestErrorWithinMargin(s: Sample, minMlPidGap: real, cap: real, margin: real)
    requires StableGap(s, minMlPidGap) && 0.0 < cap <= 1.0 && margin >= 0.0
    ensures FusedError(s, AlphaStar(s, minMlPidGap, cap)) <= margin <==> WithinReach(s, cap, margin)
  {
    FusedIsClampedTarget(s, minMlPidGap, cap);
    FusedWithinReach(s, cap, 0.0);
  }

  /** A row passes the filter exactly when the uncapped label's error is at most the margin. */
  lemma FilterIsBestErrorTest(s: Sample, minMlPidGap: real, margin: real)
    requires StableGap(s, minMlPidGap) && margin >= 0.0
    ensures Reachable(s, margin) <==> FusedError(s, AlphaStar(s, minMlPidGap, 1.0)) <= margin
  {
    BestErrorWithinMargin(s, minMlPidGap, 1.0, margin);
    assert Fused(s, 1.0) == s.yMl;
  }

  /** The filter ignores the cap: it agrees with the capped label on every target exactly when the
      cap is one. */
  lemma FilterMatchesCapExactlyWhen(yPid: real, yMl: real, minMlPidGap: real, cap: real, margin: real)
    requires Abs(yMl - yPid) >= MinGap(minMlPidGap) && 0.0 < cap <= 1.0 && margin >= 0.0
    ensures (forall t {:trigger Sample(t, yPid, yMl)} ::
              Reachable(Sample(t, yPid, yMl), margin) <==>
              FusedError(Sample(t, yPid, yMl), AlphaStar(Sample(t, yPid, yMl), minMlPidGap, cap)) <= margin) <==> cap == 1.0
  {
    if cap == 1.0 {
      forall t
        ensures Reachable(Sample(t, yPid, yMl), margin) <==>
                FusedError(Sample(t, yPid, yMl), AlphaStar(Sample(t, yPid, yMl), minMlPidGap, cap)) <= margin
      {
        FilterIsBestErrorTest(Sample(t, yPid, yMl), minMlPidGap, margin);
      }
    } else {
      // the farthest target the filter admits on the ML side
      var g := yMl - yPid;
      var t := if g > 0.0 then yMl + margin else yMl - margin;
      var s := Sample(t, yPid, yMl);
      BestErrorWithinMargin(s, minMlPidGap, cap, margin);
      var short := (1.0 - cap) * g;
      assert Fused(s, cap) == yMl - short;
      assert if g > 0.0 then short > 0.0 else short < 0.0;
      assert Reachable(s, margin) && !WithinReach(s, cap, margin);
    }
  }

  /** Capping the label stored by align_pair gives the label construct_gate_target builds itself. */
  lemma StoredLabelAgrees(s: Sample, minMlPidGap: real, cap: real)
    requires StableGap(s, minMlPidGap) && 0.0 < cap <= 1.0
    ensures s.yMl != s.yPid && Constrain(UncappedAlpha(s), 0.0, cap) == AlphaStar(s, minMlPidGap, cap)
  {
  }

  /* ---- the array construction ---- */

  datatype Labels = Labels(alpha: seq<real>, lowGapRows: nat) | CapOutOfRange | AlphaOutOfRange

  function CountLowGap(rows: seq<Sample>, minMlPidGap: real): nat {
    if rows == [] then 0
    else CountLowGap(rows[..|rows| - 1], minMlPidGap) + (if StableGap(rows[|rows| - 1], minMlPidGap) then 0 else 1)
  }

  /** The counter counts the unstable rows. */
  lemma {:induction false} LowGapRowsCounted(rows: seq<Sample>, minMlPidGap: real)
    ensures CountLowGap(rows, minMlPidGap) == |set i | 0 <= i < |rows| && !StableGap(rows[i], minMlPidGap)|
  {
    if rows != [] {
      var n := |rows| - 1;
      LowGapRowsCounted(rows[..n], minMlPidGap);
      var before := set i | 0 <= i < n && !StableGap(rows[..n][i], minMlPidGap);
      var all := set i | 0 <= i < |rows| && !StableGap(rows[i], minMlPidGap);
      assert forall i :: i in before <==> i in all && i != n;
      if StableGap(rows[n], minMlPidGap) {
        assert all == before;
      } else {
        assert all == before + {n};
      }
    }
  }

  /** construct_gate_target for a continuous target column: zeros, masked division and clip, then the
      cap. Every stable row gets the label with the smallest error in [0, cap], the others zero. */
  method ConstructContinuous(rows: seq<Sample>, minMlPidGap: real, cap: real) returns (r: Labels)
    ensures !r.AlphaOutOfRange? && (r.CapOutOfRange? <==> cap <= 0.0 || cap > 1.0)
    ensures r.Labels? ==> |r.alpha| == |rows| && r.lowGapRows == CountLowGap(rows, minMlPidGap)
    ensures r.Labels? ==> forall i :: 0 <= i < |rows| ==> r.alpha[i] == AlphaStar(rows[i], minMlPidGap, cap)
    ensures r.Labels? ==> forall i :: 0 <= i < |rows| && !StableGap(rows[i], minMlPidGap) ==> r.alpha[i] == 0.0
    ensures r.Labels? ==> forall i :: 0 <= i < |rows| && StableGap(rows[i], minMlPidGap) ==> IsBest(rows[i], r.alpha[i], cap)
  {
    if cap <= 0.0 || cap > 1.0 {
      return CapOutOfRange;
    }
    var alpha := new real[|rows|](_ => 0.0);
    var lowGapRows := 0;
    for i := 0 to |rows|
      invariant forall k :: i <= k < |rows| ==> alpha[k] == 0.0
      invariant forall k :: 0 <= k < i ==> alpha[k] == if StableGap(rows[k], minMlPidGap) then UncappedAlpha(rows[k]) else 0.0
      invariant lowGapRows == CountLowGap(rows[..i], minMlPidGap)
    {
      assert rows[..i + 1][..i] == rows[..i];
      if StableGap(rows[i], minMlPidGap) {
        var gap := rows[i].yMl - rows[i].yPid;
        alpha[i] := Constrain((rows[i].target - rows[i].yPid) / gap, 0.0, 1.0);
      } else {
        lowGapRows := lowGapRows + 1;
      }
    }
    assert rows[..|rows|] == rows;
    if cap < 1.0 {
      ClipToCap(alpha, cap);
    }
    assert forall k :: 0 <= k < |rows| ==> alpha[k] == AlphaStar(rows[k], minMlPidGap, cap);
    forall i | 0 <= i < |rows| && StableGap(rows[i], minMlPidGap) ensures IsBest(rows[i], alpha[i], cap) {
      AlphaStarIsBest(rows[i], minMlPidGap, cap);
    }
    return Labels(alpha[..], lowGapRows);
  }

  method ClipToCap(alpha: array<real>, cap: real)
    modifies alpha
    ensures forall k :: 0 <= k < alpha.Length ==> alpha[k] == Constrain(old(alpha[k]), 0.0, cap)
  {
    for i := 0 to alpha.Length
      invariant forall k :: i <= k < alpha.Length ==> alpha[k] == old(alpha[k])
      invariant forall k :: 0 <= k < i ==> alpha[k] == Constrain(old(alpha[k]), 0.0, cap)
    {
      alpha[i] := Constrain(alpha[i], 0.0, cap);
    }
  }

  const ALPHA_SLACK: real := 0.000001

  predicate InAlphaRange(v: real) {
    -ALPHA_SLACK <= v <= 1.0 + ALPHA_SLACK
  }

  /** construct_gate_target for a stored alpha or a binary column: only an alpha column is checked for
      its range, and both are clipped to the cap. */
  method ConstructStored(values: seq<real>, isAlphaColumn: bool, cap: real) returns (r: Labels)
    ensures r.CapOutOfRange? <==> cap <= 0.0 || cap > 1.0
    ensures r.AlphaOutOfRange? <==>
              !r.CapOutOfRange? && isAlphaColumn
              && exists i :: 0 <= i < |values| && (values[i] < -0.000001 || values[i] > 1.000001)
    ensures r.Labels? ==> |r.alpha| == |values| && r.lowGapRows == 0
    ensures r.Labels? ==> forall i :: 0 <= i < |values| ==> 0.0 <= r.alpha[i] <= cap && r.alpha[i] == Constrain(values[i], 0.0, cap)
  {
    if cap <= 0.0 || cap > 1.0 {
      return CapOutOfRange;
    }
    var alpha := [];
    for i := 0 to |values|
      invariant |alpha| == i
      invariant forall k :: 0 <= k < i ==> alpha[k] == Constrain(values[k], 0.0, cap)
      invariant isAlphaColumn ==> forall k :: 0 <= k < i ==> InAlphaRange(values[k])
    {
      if isAlphaColumn && !InAlphaRange(values[i]) {
        return AlphaOutOfRange;
      }
      alpha := alpha + [Constrain(values[i], 0.0, cap)];
    }
    return Labels(alpha, 0);
  }

  /** Stored labels that are the uncapped ones train on the same labels as the continuous target. */
  method StoredColumnTrainsAlike(rows: seq<Sample>, stored: seq<real>, minMlPidGap: real, cap: real)
    returns (fromStored: Labels, fromTarget: Labels)
    requires |stored| == |rows|
    requires forall i :: 0 <= i < |rows| ==> StableGap(rows[i], minMlPidGap) && rows[i].yMl != rows[i].yPid && stored[i] == UncappedAlpha(rows[i])
    ensures fromStored == fromTarget
    ensures fromStored.Labels? <==> 0.0 < cap <= 1.0
    ensures fromTarget.Labels? ==> |fromTarget.alpha| == |rows| && forall i :: 0 <= i < |rows| ==> IsBest(rows[i], fromTarget.alpha[i], cap)
  {
    fromStored := ConstructStored(stored, true, cap);
    fromTarget := ConstructContinuous(rows, minMlPidGap, cap);
    AllStable(rows, minMlPidGap);
    if fromTarget.Labels? {
      forall i | 0 <= i < |rows| ensures InAlphaRange(stored[i]) && Constrain(stored[i], 0.0, cap) == fromTarget.alpha[i] {
        StoredLabelAgrees(rows[i], minMlPidGap, cap);
      }
      assert fromStored.alpha == fromTarget.alpha;
    }
  }

  lemma {:induction false} AllStable(rows: seq<Sample>, minMlPidGap: real)
    requires forall i :: 0 <= i < |rows| ==> StableGap(rows[i], minMlPidGap)
    ensures CountLowGap(rows, minMlPidGap) == 0
  {
    if rows != [] {
      AllStable(rows[..|rows| - 1], minMlPidGap);
    }
  }
}
